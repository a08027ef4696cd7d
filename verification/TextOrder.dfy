/** The order of strings, and with it of paths in one directory. */
module TextOrder {

  // operator< of std::string.
  predicate TextLess(a: string, b: string) {
    if b == "" then false
    else if a == "" then true
    else a[0] < b[0] || (a[0] == b[0] && TextLess(a[1..], b[1..]))
  }

  lemma {:induction false} LessIsTotal(a: string, b: string)
    ensures !TextLess(a, b) && !TextLess(b, a) <==> a == b
    ensures !(TextLess(a, b) && TextLess(b, a))
  {
    if a != [] && b != [] {
      LessIsTotal(a[1..], b[1..]);
      assert a == [a[0]] + a[1..] && b == [b[0]] + b[1..];
    }
  }

  lemma {:induction false} LessIsTransitive(a: string, b: string, c: string)
    requires TextLess(a, b) && TextLess(b, c)
    ensures TextLess(a, c)
  {
    if a != [] && a[0] == b[0] == c[0] {
      LessIsTransitive(a[1..], b[1..], c[1..]);
    }
  }

  // a and b agree up to k, where a ends or has the smaller character.
  ghost predicate LessAt(a: string, b: string, k: nat) {
    k <= |a| && k < |b| && a[..k] == b[..k] && (k == |a| || a[k] < b[k])
  }

  lemma {:induction false} LessExactly(a: string, b: string)
    ensures TextLess(a, b) <==> exists k: nat :: LessAt(a, b, k)
  {
    if a == "" || b == "" {
      assert b != "" ==> LessAt(a, b, 0);
    } else {
      LessExactly(a[1..], b[1..]);
      assert a[0] < b[0] ==> LessAt(a, b, 0);
      if a[0] == b[0] {
        forall k: nat ensures LessAt(a[1..], b[1..], k) <==> LessAt(a, b, k + 1) {
          if k < |a| && k < |b| {
            assert a[..k + 1] == [a[0]] + a[1..][..k] && b[..k + 1] == [b[0]] + b[1..][..k];
            assert a[1..][..k] == a[..k + 1][1..] && b[1..][..k] == b[..k + 1][1..];
          }
        }
        if k: nat :| LessAt(a[1..], b[1..], k) { assert LessAt(a, b, k + 1); }
      }
      if k: nat :| LessAt(a, b, k) {
        if k > 0 {
          assert a[..k][0] == b[..k][0];
          assert LessAt(a[1..], b[1..], k - 1) by {
            assert a[1..][..k - 1] == a[..k][1..] && b[1..][..k - 1] == b[..k][1..];
          }
        }
      }
    }
  }

  // Texts of the same width are compared field by field.
  lemma {:induction false} LessByField(a: string, b: string, s: string, t: string)
    requires |a| == |b|
    ensures TextLess(a + s, b + t) <==> TextLess(a, b) || (a == b && TextLess(s, t))
  {
    if a == [] {
      assert a + s == s && b + t == t;
    } else {
      LessByField(a[1..], b[1..], s, t);
      assert (a + s)[1..] == a[1..] + s && (b + t)[1..] == b[1..] + t;
      assert a == [a[0]] + a[1..] && b == [b[0]] + b[1..];
    }
  }

  ghost predicate Ascending(names: seq<string>) {
    forall i, j :: 0 <= i < j < |names| ==> !TextLess(names[j], names[i])
  }

  function Insert(x: string, names: seq<string>): (r: seq<string>)
    ensures multiset(r) == multiset(names) + multiset{x}
    ensures |r| == |names| + 1
  {
    if names == [] then [x]
    else
      var last := names[|names| - 1];
      assert names == names[..|names| - 1] + [last];
      if TextLess(x, last) then Insert(x, names[..|names| - 1]) + [last] else names + [x]
  }

  // std::sort
  function Sort(names: seq<string>): (r: seq<string>)
    ensures multiset(r) == multiset(names) && |r| == |names|
  {
    if names == [] then []
    else
      assert names == names[..|names| - 1] + [names[|names| - 1]];
      Insert(names[|names| - 1], Sort(names[..|names| - 1]))
  }

  lemma {:induction false} NotLessChain(a: string, b: string, c: string)
    requires !TextLess(b, a) && !TextLess(c, b)
    ensures !TextLess(c, a)
  {
    LessIsTotal(a, b);
    LessIsTotal(b, c);
    if TextLess(c, a) {
      if a == b {
      } else {
        LessIsTransitive(c, a, b);
      }
    }
  }

  lemma {:induction false} InsertMember(x: string, names: seq<string>, y: string)
    requires y in Insert(x, names)
    ensures y == x || y in names
  {
    assert y in multiset(Insert(x, names));
  }

  lemma {:induction false} InsertAscending(x: string, names: seq<string>)
    requires Ascending(names)
    ensures Ascending(Insert(x, names))
  {
    hide TextLess;
    if names == [] {
    } else {
      var n := |names| - 1;
      var last := names[n];
      LessIsTotal(x, last);
      if TextLess(x, last) {
        InsertAscending(x, names[..n]);
        var r := Insert(x, names[..n]);
        forall i | 0 <= i < |r| ensures !TextLess(last, r[i]) {
          InsertMember(x, names[..n], r[i]);
        }
      } else {
        forall i | 0 <= i < |names| ensures !TextLess(x, names[i]) {
          if i < n { NotLessChain(names[i], last, x); }
        }
      }
    }
  }

  lemma {:induction false} SortAscending(names: seq<string>)
    ensures Ascending(Sort(names))
  {
    if names == [] {
    } else {
      SortAscending(names[..|names| - 1]);
      InsertAscending(names[|names| - 1], Sort(names[..|names| - 1]));
    }
  }
}
