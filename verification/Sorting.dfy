/**
 What std::sort leaves behind: the sorted arrangement of a sequence, that there is
 only one, and that it moves no further than the elements do.
 */
module Sorting {

  predicate Sorted(s: seq<real>) {
    forall i, j :: 0 <= i < j < |s| ==> s[i] <= s[j]
  }

  // Last element and the rest.
  lemma {:induction false} Unsnoc(s: seq<real>)
    requires s != []
    ensures multiset(s) == multiset(s[..|s| - 1]) + multiset{s[|s| - 1]}
  {
    assert s == s[..|s| - 1] + [s[|s| - 1]];
  }

  lemma {:induction false} SortedSnoc(s: seq<real>, x: real)
    requires Sorted(s) && forall y :: y in multiset(s) ==> y <= x
    ensures Sorted(s + [x])
  {
    forall i | 0 <= i < |s| ensures s[i] <= x {
      assert s[i] in multiset(s);
    }
  }

  function Insert(x: real, s: seq<real>): (r: seq<real>)
    requires Sorted(s)
    ensures Sorted(r) && multiset(r) == multiset(s) + multiset{x} && |r| == |s| + 1
  {
    if s == [] || s[|s| - 1] <= x then s + [x]
    else
      var last := s[|s| - 1];
      Unsnoc(s);
      var r := Insert(x, s[..|s| - 1]);
      SortedSnoc(r, last);
      r + [last]
  }

  function Sort(s: seq<real>): (r: seq<real>)
    ensures Sorted(r) && multiset(r) == multiset(s) && |r| == |s|
  {
    if s == [] then [] else
    Unsnoc(s);
    Insert(s[|s| - 1], Sort(s[..|s| - 1]))
  }

  lemma {:induction false} LastIsGreatest(a: seq<real>, x: real)
    requires a != [] && Sorted(a) && x in multiset(a)
    ensures x <= a[|a| - 1]
  {
    assert x in a;
  }

  // There is one sorted arrangement of a multiset, so any sort computes this one.
  lemma {:induction false} SortedIsUnique(a: seq<real>, b: seq<real>)
    requires Sorted(a) && Sorted(b) && multiset(a) == multiset(b)
    ensures a == b
    decreases |a|
  {
    assert |a| == |multiset(a)| == |multiset(b)| == |b|;
    if a == [] {
    } else {
      SameLast(a, b);
      var n := |a| - 1;
      SortedIsUnique(a[..n], b[..n]);
      assert a == a[..n] + [a[n]] && b == b[..n] + [b[n]];
    }
  }

  lemma {:induction false} SameLast(a: seq<real>, b: seq<real>)
    requires Sorted(a) && Sorted(b) && multiset(a) == multiset(b) && |a| == |b| > 0
    ensures a[|a| - 1] == b[|b| - 1] && multiset(a[..|a| - 1]) == multiset(b[..|b| - 1])
  {
    Unsnoc(a);
    Unsnoc(b);
    var x, y := a[|a| - 1], b[|b| - 1];
    assert y in multiset(a) && x in multiset(b);
    LastIsGreatest(a, y);
    LastIsGreatest(b, x);
    assert multiset(a[..|a| - 1]) == multiset(a) - multiset{x};
    assert multiset(b[..|b| - 1]) == multiset(b) - multiset{y};
  }

  lemma {:induction false} SortIgnoresOrder(s: seq<real>, t: seq<real>)
    requires multiset(s) == multiset(t)
    ensures Sort(s) == Sort(t)
  {
    SortedIsUnique(Sort(s), Sort(t));
  }

  // ---- Stability ------------------------------------------------------------------

  ghost predicate AtMostAbove(s: seq<real>, t: seq<real>, e: real) {
    |s| == |t| && forall i :: 0 <= i < |s| ==> s[i] <= t[i] + e
  }

  function Max(x: real, y: real): real {
    if x <= y then y else x
  }

  function Min(x: real, y: real): real {
    if x <= y then x else y
  }

  // Where the elements of an insertion come from.
  function Inserted(x: real, s: seq<real>, i: nat): real
    requires i <= |s|
  {
    if s == [] then x
    else if i == |s| then Max(s[i - 1], x)
    else if i == 0 then Min(x, s[0])
    else Max(s[i - 1], Min(x, s[i]))
  }

  lemma {:induction false} InsertStep(x: real, s: seq<real>)
    requires Sorted(s)
    ensures Insert(x, s) ==
            if s == [] || s[|s| - 1] <= x then s + [x]
            else Insert(x, s[..|s| - 1]) + [s[|s| - 1]]
  {
  }

  lemma {:induction false} InsertAt(x: real, s: seq<real>, i: nat)
    requires Sorted(s) && i <= |s|
    ensures |Insert(x, s)| == |s| + 1
    ensures Insert(x, s)[i] == Inserted(x, s, i)
    decreases |s|
  {
    hide Insert;
    InsertStep(x, s);
    if s != [] && x < s[|s| - 1] {
      var n := |s| - 1;
      InsertAt(x, s[..n], if i <= n then i else 0);
    }
  }

  lemma {:induction false} InsertStable(x: real, s: seq<real>, y: real, t: seq<real>, e: real)
    requires Sorted(s) && Sorted(t) && AtMostAbove(s, t, e) && x <= y + e
    ensures AtMostAbove(Insert(x, s), Insert(y, t), e)
  {
    InsertAt(x, s, 0);
    InsertAt(y, t, 0);
    forall i | 0 <= i < |s| + 1 ensures Insert(x, s)[i] <= Insert(y, t)[i] + e {
      InsertAt(x, s, i);
      InsertAt(y, t, i);
    }
  }

  // Elements that are no more than e above their partners stay so after sorting.
  lemma {:induction false} SortStable(s: seq<real>, t: seq<real>, e: real)
    requires AtMostAbove(s, t, e)
    ensures AtMostAbove(Sort(s), Sort(t), e)
    decreases |s|
  {
    if s == [] {
    } else {
      var n := |s| - 1;
      SortStable(s[..n], t[..n], e);
      InsertStable(s[n], Sort(s[..n]), t[n], Sort(t[..n]), e);
    }
  }
}
