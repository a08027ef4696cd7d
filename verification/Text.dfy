/** `split` of utils.h and its inverse. */
module Text {
  import opened Basics

  predicate OccursAt(data: string, d: string, k: nat) {
    k + |d| <= |data| && data[k..k + |d|] == d
  }

  // std::string::find: the leftmost occurrence at or after `from`.
  function Find(data: string, d: string, from: nat): (r: Option<nat>)
    ensures r.Some? ==> from <= r.value && OccursAt(data, d, r.value)
    ensures forall k: nat :: from <= k && (r.None? || k < r.value) ==> !OccursAt(data, d, k)
    decreases |data| - from
  {
    if from + |d| > |data| then None
    else if data[from..from + |d|] == d then Some(from)
    else Find(data, d, from + 1)
  }

  function NonEmpty(p: string): seq<string> {
    if p == "" then [] else [p]
  }

  // What split returns.  An empty delimiter is found everywhere, so split only comes
  // to an end with it when there is nothing to split.
  function Pieces(s: string, d: string): seq<string>
    requires d != "" || s == ""
    decreases |s|
  {
    if d == "" then []
    else
      match Find(s, d, 0)
      case None => NonEmpty(s)
      case Some(k) => NonEmpty(s[..k]) + Pieces(s[k + |d|..], d)
  }

  lemma {:induction false} FindInSuffix(data: string, d: string, from: nat)
    requires from <= |data|
    ensures Find(data[from..], d, 0) ==
            match Find(data, d, from) case None => None case Some(k) => Some(k - from)
  {
    hide Find, OccursAt;
    var here, there := Find(data, d, from), Find(data[from..], d, 0);
    forall k: nat ensures OccursAt(data[from..], d, k) <==> OccursAt(data, d, from + k) {
      OccursInSuffix(data, d, from, k);
    }
    if here.Some? {
      assert OccursAt(data[from..], d, here.value - from);
    }
    if there.Some? {
      assert OccursAt(data, d, from + there.value);
    }
  }

  lemma {:induction false} OccursInSuffix(data: string, d: string, from: nat, k: nat)
    requires from <= |data|
    ensures OccursAt(data[from..], d, k) <==> OccursAt(data, d, from + k)
  {
    if from + k + |d| <= |data| {
      assert data[from..][k..k + |d|] == data[from + k..from + k + |d|];
    }
  }

  lemma {:induction false} PiecesUnfold(s: string, d: string)
    requires d != ""
    ensures match Find(s, d, 0)
            case None => Pieces(s, d) == NonEmpty(s)
            case Some(k) => k + |d| <= |s| && Pieces(s, d) == NonEmpty(s[..k]) + Pieces(s[k + |d|..], d)
  {
    hide Find;
  }

  // One round of the loop, from prev.
  lemma {:induction false} SplitRound(data: string, d: string, prev: nat, pos: nat)
    requires d != ""
    requires prev <= |data|
    requires pos == match Find(data, d, prev) case None => |data| case Some(k) => k
    ensures prev <= pos <= |data|
    ensures Pieces(data[prev..], d) ==
            NonEmpty(data[prev..pos]) + Pieces(if pos + |d| < |data| then data[pos + |d|..] else "", d)
  {
    hide Find, Pieces, NonEmpty;
    PiecesOfNothing(d);
    FindInSuffix(data, d, prev);
    var rest := data[prev..];
    PiecesUnfold(rest, d);
    if Find(data, d, prev).None? {
      assert data[prev..pos] == rest;
      assert Pieces(rest, d) == NonEmpty(rest) + [];
    } else {
      assert data[prev..pos] == rest[..pos - prev];
      assert data[pos + |d|..] == rest[pos - prev + |d|..];
    }
  }

  method Split(data: string, delimiter: string) returns (pieces: seq<string>)
    requires delimiter != "" || data == ""
    ensures pieces == Pieces(data, delimiter)
  {
    hide Find, Pieces, NonEmpty;
    PiecesOfNothing(delimiter);
    pieces := [];
    var prev, pos := 0, 0;
    var more := true;
    ghost var rest := data;
    while more
      invariant more ==> prev <= |data| && (prev < |data| || data == "")
      invariant rest == if more then data[prev..] else ""
      invariant pieces + Pieces(rest, delimiter) == Pieces(data, delimiter)
      decreases if more then |data| - prev + 1 else 0
    {
      var found := Find(data, delimiter, prev);
      pos := if found.Some? then found.value else |data|;
      var p := data[prev..pos];
      ghost var after := if pos + |delimiter| < |data| then data[pos + |delimiter|..] else "";
      if delimiter != "" {
        SplitRound(data, delimiter, prev, pos);
        Regroup(pieces, NonEmpty(p), Pieces(after, delimiter));
      }
      NonEmptyCases(p);
      if p != "" {
        pieces := pieces + [p];
      }
      prev := pos + |delimiter|;
      more := pos < |data| && prev < |data|;
      rest := after;
    }
  }

  lemma {:induction false} Regroup(a: seq<string>, b: seq<string>, c: seq<string>)
    ensures a + (b + c) == (a + b) + c
    ensures a + [] == a
  {
  }

  lemma {:induction false} NonEmptyCases(p: string)
    ensures NonEmpty(p) == if p == "" then [] else [p]
  {
  }

  lemma {:induction false} PiecesOfNothing(d: string)
    ensures Pieces("", d) == []
  {
  }

  // With an empty delimiter a round of the loop finds the empty string where it
  // stands and moves nowhere, so data that is not empty is never got through.
  lemma {:induction false} EmptyDelimiterStalls(data: string, prev: nat)
    requires prev < |data|
    ensures Find(data, "", prev) == Some(prev) && prev + |""| == prev
  {
    assert data[prev..prev] == "";
  }

  // ---- Pieces -----------------------------------------------------------------------

  lemma {:induction false} NothingBeforeTheFirst(s: string, d: string, k: nat)
    requires d != "" && Find(s, d, 0) == Some(k)
    ensures Find(s[..k], d, 0) == None
  {
    hide Find;
    forall j: nat ensures !OccursAt(s[..k], d, j) {
      if j + |d| <= k {
        assert !OccursAt(s, d, j);
        assert s[..k][j..j + |d|] == s[j..j + |d|];
      }
    }
  }

  // Pieces are not empty, and the delimiter does not occur in them.
  lemma {:induction false} PiecesAreClean(s: string, d: string)
    requires d != ""
    ensures forall p :: p in Pieces(s, d) ==> p != "" && Find(p, d, 0) == None
    decreases |s|
  {
    hide Find, Pieces;
    PiecesUnfold(s, d);
    if Find(s, d, 0).Some? {
      var k := Find(s, d, 0).value;
      PiecesAreClean(s[k + |d|..], d);
      NothingBeforeTheFirst(s, d, k);
    }
  }

  function Join(pieces: seq<string>, d: string): string {
    if pieces == [] then ""
    else if |pieces| == 1 then pieces[0]
    else pieces[0] + d + Join(pieces[1..], d)
  }

  ghost predicate Clean(p: string, c: char) {
    p != "" && c !in p
  }

  lemma {:induction false} FindFirst(p: string, c: char, rest: string)
    requires c !in p
    ensures Find(p + [c] + rest, [c], 0) == Some(|p|)
  {
    var s := p + [c] + rest;
    assert s[|p|..|p| + 1] == [c];
    assert OccursAt(s, [c], |p|);
    forall k: nat | k < |p| ensures !OccursAt(s, [c], k) {
      assert s[k..k + 1][0] == p[k];
    }
  }

  lemma {:induction false} FindChar(s: string, c: char)
    ensures match Find(s, [c], 0)
            case None => c !in s
            case Some(k) => k < |s| && s[k] == c && c !in s[..k]
  {
    var r := Find(s, [c], 0);
    forall j | 0 <= j < |s| && (r.None? || j < r.value) ensures s[j] != c {
      assert !OccursAt(s, [c], j);
      assert s[j..j + 1] == [s[j]];
    }
    if r.Some? {
      assert s[r.value..r.value + 1] == [s[r.value]];
    }
  }

  lemma {:induction false} PiecesStep(p: string, c: char, rest: string)
    requires Clean(p, c)
    ensures Pieces(p + [c] + rest, [c]) == [p] + Pieces(rest, [c])
  {
    var s := p + [c] + rest;
    FindFirst(p, c, rest);
    assert s[..|p|] == p && s[|p| + 1..] == rest;
  }

  lemma {:induction false} PiecesOfOne(p: string, c: char)
    requires Clean(p, c)
    ensures Pieces(p, [c]) == [p]
  {
    FindChar(p, c);
  }

  // Splitting at a character undoes joining with it.
  lemma {:induction false} SplitUndoesJoin(pieces: seq<string>, c: char)
    requires forall p :: p in pieces ==> Clean(p, c)
    ensures Pieces(Join(pieces, [c]), [c]) == pieces
  {
    if pieces == [] {
    } else {
      assert Clean(pieces[0], c);
      if |pieces| == 1 {
        PiecesOfOne(pieces[0], c);
      } else {
        assert forall p :: p in pieces[1..] ==> p in pieces;
        SplitUndoesJoin(pieces[1..], c);
        PiecesStep(pieces[0], c, Join(pieces[1..], [c]));
      }
    }
  }

  function Flatten(pieces: seq<string>): string {
    if pieces == [] then "" else pieces[0] + Flatten(pieces[1..])
  }

  function Without(s: string, c: char): string {
    if s == "" then "" else (if s[0] == c then "" else [s[0]]) + Without(s[1..], c)
  }

  lemma {:induction false} WithoutFirst(s: string, c: char)
    requires s != ""
    ensures Without(s, c) == (if s[0] == c then "" else [s[0]]) + Without(s[1..], c)
  {
  }

  lemma {:induction false} RegroupText(a: string, b: string, c: string)
    ensures (a + b) + c == a + (b + c)
  {
  }

  lemma {:induction false} WithoutConcat(s: string, t: string, c: char)
    ensures Without(s + t, c) == Without(s, c) + Without(t, c)
  {
    hide Without;
    EmptyTexts(c);
    if s == "" {
      assert s + t == t;
      assert "" + Without(t, c) == Without(t, c);
    } else {
      WithoutConcat(s[1..], t, c);
      WithoutFirst(s, c);
      WithoutFirst(s + t, c);
      assert (s + t)[1..] == s[1..] + t;
      RegroupText(if s[0] == c then "" else [s[0]], Without(s[1..], c), Without(t, c));
    }
  }

  lemma {:induction false} WithoutAbsent(s: string, c: char)
    requires c !in s
    ensures Without(s, c) == s
  {
    if s == "" {
    } else {
      WithoutAbsent(s[1..], c);
    }
  }

  lemma {:induction false} WithoutHead(c: char, rest: string)
    ensures Without([c] + rest, c) == Without(rest, c)
  {
    assert ([c] + rest)[1..] == rest;
  }

  lemma {:induction false} EmptyTexts(c: char)
    ensures Without("", c) == "" && Flatten([]) == ""
  {
  }

  lemma {:induction false} FlattenNonEmpty(p: string, pieces: seq<string>)
    ensures Flatten(NonEmpty(p) + pieces) == p + Flatten(pieces)
    ensures Flatten(NonEmpty(p)) == p
  {
    if p == "" {
      assert NonEmpty(p) + pieces == pieces;
    } else {
      assert (NonEmpty(p) + pieces)[1..] == pieces;
      assert NonEmpty(p)[1..] == [];
      assert p + "" == p;
    }
  }

  // Splitting at a character loses nothing but that character, and keeps the order.
  lemma {:induction false} PiecesKeepTheRest(s: string, c: char)
    ensures Flatten(Pieces(s, [c])) == Without(s, c)
    decreases |s|
  {
    hide Find, Pieces, Without, Flatten;
    if s == "" {
      PiecesOfNothing([c]);
      EmptyTexts(c);
    } else {
      FlattenNonEmpty(s, []);
      FindChar(s, c);
      PiecesUnfold(s, [c]);
      match Find(s, [c], 0) {
        case None => WithoutAbsent(s, c);
        case Some(k) =>
          var p, rest := s[..k], s[k + 1..];
          PiecesKeepTheRest(rest, c);
          WithoutAbsent(p, c);
          WithoutConcat(p, [c] + rest, c);
          WithoutHead(c, rest);
          assert s == p + ([c] + rest);
          FlattenNonEmpty(p, Pieces(rest, [c]));
      }
    }
  }

  // ---- Any delimiter --------------------------------------------------------------------

  function NonEmptyOnes(pieces: seq<string>): seq<string> {
    if pieces == [] then [] else NonEmpty(pieces[0]) + NonEmptyOnes(pieces[1..])
  }

  // The text up to the first delimiter, up to the next, and so on to the end.
  ghost predicate CutAt(pieces: seq<string>, d: string) {
    && pieces != []
    && (forall i :: 0 <= i < |pieces| - 1 ==> Find(pieces[i] + d, d, 0) == Some(|pieces[i]|))
    && Find(pieces[|pieces| - 1], d, 0) == None
  }

  lemma {:induction false} FindWithTail(s: string, d: string, k: nat)
    requires d != "" && Find(s, d, 0) == Some(k)
    ensures k + |d| <= |s| && s == s[..k] + d + s[k + |d|..]
    ensures Find(s[..k] + d, d, 0) == Some(k)
  {
    hide Find;
    var head := s[..k] + d;
    assert s == head + s[k + |d|..];
    assert head[k..k + |d|] == d;
    assert OccursAt(head, d, k);
    forall j: nat | j < k ensures !OccursAt(head, d, j) {
      assert !OccursAt(s, d, j);
      if j + |d| <= |head| {
        assert s[j..j + |d|] == head[j..j + |d|];
      }
    }
  }

  // For any delimiter: cut at its leftmost occurrences, one after the other, the text
  // is put together again by the delimiter, and the pieces are the cuts that are not
  // empty.
  lemma {:induction false} PiecesAreCuts(s: string, d: string) returns (cuts: seq<string>)
    requires d != ""
    ensures CutAt(cuts, d) && Join(cuts, d) == s && NonEmptyOnes(cuts) == Pieces(s, d)
    decreases |s|
  {
    hide Find, Pieces, NonEmpty;
    PiecesUnfold(s, d);
    match Find(s, d, 0) {
      case None =>
        cuts := [s];
        assert NonEmpty(s) + [] == NonEmpty(s);
      case Some(k) =>
        FindWithTail(s, d, k);
        var rest := PiecesAreCuts(s[k + |d|..], d);
        cuts := [s[..k]] + rest;
        assert cuts[1..] == rest;
    }
  }

  lemma {:induction false} FindStays(p: string, d: string, rest: string)
    requires d != "" && Find(p + d, d, 0) == Some(|p|)
    ensures Find(p + d + rest, d, 0) == Some(|p|)
  {
    hide Find, OccursAt;
    var head, s := p + d, p + d + rest;
    OccursInFront(head, rest, d, |p|);
    assert OccursAt(head, d, |p|);
    forall j: nat | j < |p| ensures !OccursAt(s, d, j) {
      OccursInFront(head, rest, d, j);
      assert !OccursAt(head, d, j);
    }
  }

  lemma {:induction false} OccursInFront(head: string, rest: string, d: string, k: nat)
    requires k + |d| <= |head|
    ensures OccursAt(head + rest, d, k) <==> OccursAt(head, d, k)
  {
    assert (head + rest)[k..k + |d|] == head[k..k + |d|];
  }

  lemma {:induction false} FirstCut(cuts: seq<string>, d: string)
    requires d != "" && CutAt(cuts, d)
    ensures Find(Join(cuts, d), d, 0) == if |cuts| == 1 then None else Some(|cuts[0]|)
  {
    hide Find;
    if |cuts| > 1 {
      FindStays(cuts[0], d, Join(cuts[1..], d));
    }
  }

  lemma {:induction false} LaterCuts(cuts: seq<string>, d: string)
    requires CutAt(cuts, d) && |cuts| > 1
    ensures CutAt(cuts[1..], d)
  {
    hide Find;
    var later := cuts[1..];
    forall i | 0 <= i < |later| - 1 ensures Find(later[i] + d, d, 0) == Some(|later[i]|) {
      assert later[i] == cuts[i + 1];
    }
  }

  lemma {:induction false} SameHeadSameTail(p: string, q: string, d: string, s: string, t: string)
    requires |p| == |q| && p + d + s == q + d + t
    ensures p == q && s == t
  {
    assert (p + d + s)[..|p|] == p && (q + d + t)[..|q|] == q;
    assert (p + d + s)[|p| + |d|..] == s && (q + d + t)[|q| + |d|..] == t;
  }

  // Cutting at the leftmost occurrences leaves no choice.
  lemma {:induction false} CutsAreUnique(a: seq<string>, b: seq<string>, d: string)
    requires d != "" && CutAt(a, d) && CutAt(b, d) && Join(a, d) == Join(b, d)
    ensures a == b
  {
    hide Find, CutAt;
    FirstCut(a, d);
    FirstCut(b, d);
    assert a != [] && b != [] by { CutsExist(a, d); CutsExist(b, d); }
    if |a| == 1 {
      assert a == [a[0]] && b == [b[0]];
    } else {
      LaterCuts(a, d);
      LaterCuts(b, d);
      SameHeadSameTail(a[0], b[0], d, Join(a[1..], d), Join(b[1..], d));
      CutsAreUnique(a[1..], b[1..], d);
      assert a == [a[0]] + a[1..] && b == [b[0]] + b[1..];
    }
  }

  lemma {:induction false} CutsExist(cuts: seq<string>, d: string)
    requires CutAt(cuts, d)
    ensures cuts != []
  {
  }

  // What joining is.
  lemma {:induction false} JoinConcat(a: seq<string>, b: seq<string>, d: string)
    requires a != [] && b != []
    ensures Join(a + b, d) == Join(a, d) + d + Join(b, d)
  {
    assert (a + b)[1..] == a[1..] + b;
    if |a| == 1 {
      assert a[1..] + b == b;
    } else {
      JoinConcat(a[1..], b, d);
      RegroupText(a[0] + d, Join(a[1..], d) + d, Join(b, d));
    }
  }
}
