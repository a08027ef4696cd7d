/** The result directories: one per run, named by the time of its start, the oldest pruned. */
module Retention {
  import opened Basics
  import opened Decimal
  import opened TextOrder

  // ---- Names ------------------------------------------------------------------------------

  datatype Time = Time(year: nat, month: nat, day: nat, hour: nat, minute: nat, second: nat)

  predicate Calendar(t: Time) {
    1 <= t.month <= 12 && 1 <= t.day <= 31 && t.hour < 24 && t.minute < 60 && t.second <= 60
  }

  function TwoDigits(n: nat): (s: string)
    requires n < 100
    ensures |s| == 2
  {
    [DigitOf(n / 10), DigitOf(n % 10)]
  }

  // %y-%m-%d_%H-%M-%S
  function Format(t: Time): string
    requires Calendar(t)
  {
    TwoDigits(t.year % 100) + ("-" + (TwoDigits(t.month) + ("-" + (TwoDigits(t.day) + ("_" +
    (TwoDigits(t.hour) + ("-" + (TwoDigits(t.minute) + ("-" + TwoDigits(t.second))))))))))
  }

  // The two characters of s from k are digits that stand for n.
  ghost predicate ReadsAt(s: string, k: nat, n: nat) {
    k + 2 <= |s| && AllDigits(s[k..k + 2]) && Value(s[k..k + 2]) == n
  }

  lemma {:induction false} TwoDigitsRead(n: nat)
    requires n < 100
    ensures AllDigits(TwoDigits(n)) && Value(TwoDigits(n)) == n
  {
    var s := TwoDigits(n);
    assert s[..1] == [s[0]] && s[..1][..0] == "";
    assert Value(s[..1]) == DigitValue(s[0]);
  }

  // What the name of a time says.
  lemma {:induction false} FormatSays(t: Time)
    requires Calendar(t)
    ensures var s := Format(t);
      && |s| == 17
      && s[2] == '-' && s[5] == '-' && s[8] == '_' && s[11] == '-' && s[14] == '-'
      && ReadsAt(s, 0, t.year % 100) && ReadsAt(s, 3, t.month) && ReadsAt(s, 6, t.day)
      && ReadsAt(s, 9, t.hour) && ReadsAt(s, 12, t.minute) && ReadsAt(s, 15, t.second)
  {
    hide TwoDigits, Value;
    TwoDigitsRead(t.year % 100);
    TwoDigitsRead(t.month);
    TwoDigitsRead(t.day);
    TwoDigitsRead(t.hour);
    TwoDigitsRead(t.minute);
    TwoDigitsRead(t.second);
    var s := Format(t);
    assert s[0..2] == TwoDigits(t.year % 100);
    assert s[3..5] == TwoDigits(t.month);
    assert s[6..8] == TwoDigits(t.day);
    assert s[9..11] == TwoDigits(t.hour);
    assert s[12..14] == TwoDigits(t.minute);
    assert s[15..17] == TwoDigits(t.second);
  }

  predicate Before(t: Time, u: Time) {
    t.year < u.year || (t.year == u.year && (t.month < u.month || (t.month == u.month &&
    (t.day < u.day || (t.day == u.day && (t.hour < u.hour || (t.hour == u.hour &&
    (t.minute < u.minute || (t.minute == u.minute && t.second < u.second)))))))))
  }

  lemma {:induction false} TwoDigitOrder(m: nat, n: nat, s: string, t: string)
    requires m < 100 && n < 100
    ensures TextLess(TwoDigits(m) + s, TwoDigits(n) + t) <==> m < n || (m == n && TextLess(s, t))
  {
    LessByField(TwoDigits(m), TwoDigits(n), s, t);
    var a, b := TwoDigits(m), TwoDigits(n);
    assert a[1..][1..] == "" && b[1..][1..] == "";
    assert a[1..][0] == a[1] && b[1..][0] == b[1];
    assert DigitValue(a[0]) == m / 10 && DigitValue(a[1]) == m % 10;
    assert DigitValue(b[0]) == n / 10 && DigitValue(b[1]) == n % 10;
  }

  lemma {:induction false} AfterSeparator(c: char, s: string, t: string)
    ensures TextLess([c] + s, [c] + t) <==> TextLess(s, t)
  {
    assert ([c] + s)[1..] == s && ([c] + t)[1..] == t;
  }

  // Within one century the names are ordered as the times are.
  lemma {:induction false} FormatOrder(t: Time, u: Time)
    requires Calendar(t) && Calendar(u) && t.year / 100 == u.year / 100
    ensures TextLess(Format(t), Format(u)) <==> Before(t, u)
  {
    hide TextLess, TwoDigits;
    var t5, u5 := TwoDigits(t.second), TwoDigits(u.second);
    var t4, u4 := TwoDigits(t.minute) + ("-" + t5), TwoDigits(u.minute) + ("-" + u5);
    var t3, u3 := TwoDigits(t.hour) + ("-" + t4), TwoDigits(u.hour) + ("-" + u4);
    var t2, u2 := TwoDigits(t.day) + ("_" + t3), TwoDigits(u.day) + ("_" + u3);
    var t1, u1 := TwoDigits(t.month) + ("-" + t2), TwoDigits(u.month) + ("-" + u2);
    assert t5 + "" == t5 && u5 + "" == u5;
    NothingLess();
    TwoDigitOrder(t.second, u.second, "", "");
    AfterSeparator('-', t5, u5);
    TwoDigitOrder(t.minute, u.minute, "-" + t5, "-" + u5);
    AfterSeparator('-', t4, u4);
    TwoDigitOrder(t.hour, u.hour, "-" + t4, "-" + u4);
    AfterSeparator('_', t3, u3);
    TwoDigitOrder(t.day, u.day, "_" + t3, "_" + u3);
    AfterSeparator('-', t2, u2);
    TwoDigitOrder(t.month, u.month, "-" + t2, "-" + u2);
    AfterSeparator('-', t1, u1);
    TwoDigitOrder(t.year % 100, u.year % 100, "-" + t1, "-" + u1);
  }

  lemma {:induction false} NothingLess()
    ensures !TextLess("", "")
  {
  }

  lemma {:induction false} FormatStartsWithDigit(t: Time)
    requires Calendar(t)
    ensures Format(t) != "" && IsDigit(Format(t)[0])
  {
  }

  // ---- The directory ------------------------------------------------------------------------

  const KEEP: nat := 8
  const PRUNE: nat := 5

  predicate IsRun(name: string) {
    name != "" && IsDigit(name[0])
  }

  // The entries that count as result directories.
  function Runs(entries: set<string>): set<string> {
    set name | name in entries && IsRun(name)
  }

  // The five least result directories go when there are more than eight.
  ghost predicate PrunedTo(entries: set<string>, after: set<string>) {
    if |Runs(entries)| <= KEEP then after == entries
    else
      && after <= entries
      && entries - after <= Runs(entries)
      && |entries - after| == PRUNE
      && forall gone, kept :: gone in entries - after && kept in Runs(after) ==> TextLess(gone, kept)
  }

  function Elements(s: seq<string>): set<string> {
    set name | name in s
  }

  ghost predicate Distinct(s: seq<string>) {
    forall i, j :: 0 <= i < j < |s| ==> s[i] != s[j]
  }

  lemma {:induction false} DistinctSize(s: seq<string>)
    requires Distinct(s)
    ensures |Elements(s)| == |s|
  {
    if s == [] {
    } else {
      var n := |s| - 1;
      DistinctSize(s[..n]);
      assert Elements(s) == Elements(s[..n]) + {s[n]};
    }
  }

  lemma {:induction false} DistinctByMultiset(s: seq<string>)
    ensures Distinct(s) <==> forall name :: name in multiset(s) ==> multiset(s)[name] == 1
  {
    if s == [] {
    } else {
      var n := |s| - 1;
      DistinctByMultiset(s[..n]);
      assert s == s[..n] + [s[n]];
      if s[n] in s[..n] {
        assert multiset(s)[s[n]] >= 2;
        var i :| 0 <= i < n && s[i] == s[n];
      } else if Distinct(s[..n]) {
        assert multiset(s[..n])[s[n]] == 0;
      } else {
        var name :| name in multiset(s[..n]) && multiset(s[..n])[name] != 1;
        assert multiset(s)[name] >= multiset(s[..n])[name] > 1;
      }
    }
  }

  // Sorting keeps the elements and their distinctness.
  lemma {:induction false} SortKeeps(s: seq<string>)
    requires Distinct(s)
    ensures Distinct(Sort(s)) && Elements(Sort(s)) == Elements(s) && |Sort(s)| == |s|
    ensures forall i, j :: 0 <= i < j < |s| ==> TextLess(Sort(s)[i], Sort(s)[j])
  {
    DistinctByMultiset(s);
    DistinctByMultiset(Sort(s));
    SortAscending(s);
    var r := Sort(s);
    forall i, j | 0 <= i < j < |s| ensures TextLess(r[i], r[j]) {
      LessIsTotal(r[i], r[j]);
    }
    forall name ensures name in Elements(r) <==> name in Elements(s) {
      assert name in r <==> name in multiset(r);
      assert name in s <==> name in multiset(s);
    }
  }

  // `benchmarks`, the directory that holds the result directories and other entries.
  class Store {
    var entries: set<string>

    // getDirectories: the iterator yields the entries in any order.
    method GetDirectories(listing: seq<string>) returns (dirs: seq<string>)
      requires Distinct(listing) && Elements(listing) == entries && "" !in entries
      ensures Distinct(dirs) && Elements(dirs) == Runs(entries)
    {
      dirs := [];
      for i := 0 to |listing|
        invariant Distinct(dirs) && Elements(dirs) == Runs(Elements(listing[..i]))
      {
        assert Elements(listing[..i + 1]) == Elements(listing[..i]) + {listing[i]};
        assert listing[i] in Elements(listing);
        assert listing[i] !in Elements(listing[..i]);
        if IsDigit(listing[i][0]) {
          assert listing[i] !in Elements(dirs);
          ghost var before := dirs;
          dirs := dirs + [listing[i]];
          assert Elements(dirs) == Elements(before) + {listing[i]};
        }
      }
      assert listing[..|listing|] == listing;
    }

    // The start of a run: its directory is made unless it is there, then the oldest go.
    method StartRun(now: Time, listing: seq<string>)
      requires Calendar(now) && "" !in entries
      requires Distinct(listing) && Elements(listing) == entries + {Format(now)}
      modifies this
      ensures PrunedTo(old(entries) + {Format(now)}, entries)
    {
      hide Sort, Format, TextLess;
      FormatStartsWithDigit(now);
      entries := entries + {Format(now)};
      ghost var all := entries;
      var dirs := GetDirectories(listing);
      SortKeeps(dirs);
      DistinctSize(dirs);
      dirs := Sort(dirs);
      if |dirs| > KEEP {
        for i := 0 to PRUNE
          invariant entries == all - Elements(dirs[..i])
        {
          assert Elements(dirs[..i + 1]) == Elements(dirs[..i]) + {dirs[i]};
          entries := entries - {dirs[i]};
        }
        FirstAreGone(dirs, all, entries);
      }
    }

    // The last result directory in path order; there must be one.
    method GetWorkingDir(listing: seq<string>) returns (dir: string)
      requires Distinct(listing) && Elements(listing) == entries && "" !in entries
      requires Runs(entries) != {}
      ensures Current(entries, dir)
    {
      hide Sort, TextLess;
      var dirs := GetDirectories(listing);
      SortKeeps(dirs);
      SortAscending(dirs);
      var sorted := Sort(dirs);
      assert |sorted| > 0 by {
        var name :| name in Runs(entries);
        assert name in Elements(sorted);
      }
      dir := sorted[|sorted| - 1];
      assert dir in Elements(sorted);
      forall other | other in Runs(entries) ensures !TextLess(dir, other) {
        assert other in Elements(sorted);
        var i :| 0 <= i < |sorted| && sorted[i] == other;
        LessIsTotal(dir, other);
      }
    }
  }

  lemma {:induction false} FirstAreGone(dirs: seq<string>, all: set<string>, after: set<string>)
    requires Distinct(dirs) && Elements(dirs) == Runs(all) && |dirs| == |Runs(all)| > KEEP
    requires forall i, j :: 0 <= i < j < |dirs| ==> TextLess(dirs[i], dirs[j])
    requires after == all - Elements(dirs[..PRUNE])
    ensures PrunedTo(all, after)
  {
    var first := dirs[..PRUNE];
    assert Elements(first) <= Elements(dirs) by {
      forall name | name in Elements(first) ensures name in Elements(dirs) {
        assert name in first;
      }
    }
    assert all - after == Elements(first);
    DistinctSize(first);
    forall gone, kept | gone in all - after && kept in Runs(after) ensures TextLess(gone, kept) {
      var i :| 0 <= i < PRUNE && dirs[i] == gone;
      assert kept in Elements(dirs);
      var j :| 0 <= j < |dirs| && dirs[j] == kept;
      assert kept !in Elements(first);
      assert forall m :: 0 <= m < PRUNE ==> first[m] in Elements(first) && first[m] == dirs[m];
    }
  }

  // ---- What pruning keeps -----------------------------------------------------------------------

  lemma {:induction false} RunsAfter(entries: set<string>, after: set<string>)
    requires PrunedTo(entries, after)
    ensures Runs(after) <= Runs(entries)
    ensures |Runs(entries)| > KEEP ==> |Runs(after)| == |Runs(entries)| - PRUNE
  {
    if |Runs(entries)| > KEEP {
      assert Runs(after) == Runs(entries) - (entries - after);
    }
  }

  // Starting from at most eight there are at most eight after the next run has started.
  lemma {:induction false} AtMostEight(entries: set<string>, name: string, after: set<string>)
    requires |Runs(entries)| <= 8 && PrunedTo(entries + {name}, after)
    ensures |Runs(after)| <= 8
  {
    RunsAfter(entries + {name}, after);
    assert Runs(entries + {name}) <= Runs(entries) + {name};
    SubsetSize(Runs(entries + {name}), Runs(entries) + {name});
  }

  ghost function LessThan(entries: set<string>, name: string): set<string> {
    set other | other in Runs(entries) && TextLess(other, name)
  }

  // Exactly when the directory of the run itself survives: when nothing is pruned, or
  // five others come before it.
  lemma {:induction false} CurrentSurvivesExactly(entries: set<string>, name: string, after: set<string>)
    requires IsRun(name) && name in entries && PrunedTo(entries, after)
    ensures name in after <==> |Runs(entries)| <= 8 || |LessThan(entries, name)| >= 5
  {
    hide TextLess;
    if |Runs(entries)| > KEEP {
      var gone, less := entries - after, LessThan(entries, name);
      if name in after {
        assert gone <= less;
        SubsetSize(gone, less);
      } else {
        assert less <= gone - {name} by {
          forall other | other in less ensures other in gone - {name} {
            LessIsTotal(other, name);
            LessIsTotal(name, name);
            assert other in after ==> other in Runs(after);
          }
        }
        SubsetSize(less, gone - {name});
      }
    }
  }

  // ---- Runs one after the other -------------------------------------------------------------------

  // No later in name order.
  ghost predicate AllUpTo(entries: set<string>, name: string) {
    forall other :: other in Runs(entries) ==> !TextLess(name, other)
  }

  ghost predicate InOrder(times: seq<Time>) {
    && (forall i :: 0 <= i < |times| ==> Calendar(times[i]))
    && (forall i, j :: 0 <= i < j < |times| ==>
          times[i].year / 100 == times[j].year / 100 && !Before(times[j], times[i]))
  }

  // The entries before each run and after the last.
  ghost predicate History(states: seq<set<string>>, times: seq<Time>) {
    && |states| == |times| + 1 && InOrder(times)
    && forall i :: 0 <= i < |times| ==> PrunedTo(states[i] + {Format(times[i])}, states[i + 1])
  }

  // Of more than eight result directories the greatest is not among the five that go.
  lemma {:induction false} GreatestSurvives(entries: set<string>, name: string, after: set<string>)
    requires IsRun(name) && name in entries && AllUpTo(entries, name) && PrunedTo(entries, after)
    ensures name in after
  {
    hide TextLess;
    if |Runs(entries)| > KEEP {
      var less := LessThan(entries, name);
      assert less == Runs(entries) - {name} by {
        forall other | other in Runs(entries) && other != name ensures other in less {
          LessIsTotal(other, name);
        }
        LessIsTotal(name, name);
      }
      CurrentSurvivesExactly(entries, name, after);
    }
  }

  // The result directory that getWorkingDir returns: the greatest.
  ghost predicate Current(entries: set<string>, name: string) {
    name in Runs(entries) && AllUpTo(entries, name)
  }

  lemma {:induction false} OneIsCurrent(entries: set<string>, a: string, b: string)
    requires Current(entries, a) && Current(entries, b)
    ensures a == b
  {
    LessIsTotal(a, b);
  }

  // A run's directory is the current one after its pruning exactly when none was named
  // later before.
  lemma {:induction false} CurrentExactly(entries: set<string>, name: string, after: set<string>)
    requires IsRun(name) && PrunedTo(entries + {name}, after)
    ensures Current(after, name) <==> AllUpTo(entries, name)
  {
    hide TextLess;
    var all := entries + {name};
    LessIsTotal(name, name);
    RunsAfter(all, after);
    if AllUpTo(entries, name) {
      assert AllUpTo(all, name);
      GreatestSurvives(all, name, after);
    }
    if Current(after, name) {
      forall other | other in Runs(entries) ensures !TextLess(name, other) {
        LessIsTotal(name, other);
        assert other in after ==> other in Runs(after);
      }
    }
  }

  lemma {:induction false} EightOverRuns(states: seq<set<string>>, times: seq<Time>, n: nat)
    requires History(states, times) && n <= |times| && |Runs(states[0])| <= KEEP
    ensures |Runs(states[n])| <= KEEP
  {
    hide Format, PrunedTo;
    if n == 0 {
    } else {
      EightOverRuns(states, times, n - 1);
      AtMostEight(states[n - 1], Format(times[n - 1]), states[n]);
    }
  }

  lemma {:induction false} CurrentOverRuns(states: seq<set<string>>, times: seq<Time>, n: nat)
    requires History(states, times) && n < |times| && AllUpTo(states[0], Format(times[0]))
    ensures Current(states[n + 1], Format(times[n]))
  {
    hide TextLess, Format, Before, PrunedTo;
    var name := Format(times[n]);
    FormatStartsWithDigit(times[n]);
    if n == 0 {
    } else {
      CurrentOverRuns(states, times, n - 1);
      var earlier := Format(times[n - 1]);
      FormatOrder(times[n], times[n - 1]);
      forall other | other in Runs(states[n]) ensures !TextLess(name, other) {
        NotLessChain(other, earlier, name);
      }
    }
    CurrentExactly(states[n], name, states[n + 1]);
  }

  // Main result: over runs started at non-decreasing times in one century, from at most
  // eight result directories there are never more than eight after a start; and after
  // every start getWorkingDir returns the directory of that run, which is therefore never
  // pruned, if and only if no earlier directory is named later than the first run's.
  lemma {:induction false} RetentionOverRuns(states: seq<set<string>>, times: seq<Time>)
    requires History(states, times) && times != []
    ensures |Runs(states[0])| <= 8 ==> forall n :: 0 <= n <= |times| ==> |Runs(states[n])| <= 8
    ensures (forall n :: 0 <= n < |times| ==> Current(states[n + 1], Format(times[n])))
            <==> AllUpTo(states[0], Format(times[0]))
  {
    hide Format, PrunedTo, Runs, Current;
    if |Runs(states[0])| <= KEEP {
      forall n | 0 <= n <= |times| ensures |Runs(states[n])| <= KEEP {
        EightOverRuns(states, times, n);
      }
    }
    if AllUpTo(states[0], Format(times[0])) {
      forall n | 0 <= n < |times| ensures Current(states[n + 1], Format(times[n])) {
        CurrentOverRuns(states, times, n);
      }
    } else {
      FormatStartsWithDigit(times[0]);
      CurrentExactly(states[0], Format(times[0]), states[1]);
    }
  }

  // The hypothesis of one century is needed: with eight directories of 2099, the first
  // run of 2100 prunes its own.
  lemma {:induction false} CenturyPrunesCurrent(entries: set<string>, now: Time, after: set<string>)
    requires |Runs(entries)| == KEEP && Calendar(now) && now.year == 2100
    requires forall name :: name in Runs(entries) ==> exists t :: Calendar(t) && t.year == 2099 && name == Format(t)
    requires PrunedTo(entries + {Format(now)}, after)
    ensures Format(now) !in after
  {
    hide TextLess, Format;
    var name := Format(now);
    FormatStartsWithDigit(now);
    forall other | other in Runs(entries) ensures TextLess(name, other) && other != name {
      var t :| Calendar(t) && t.year == 2099 && other == Format(t);
      LaterYearFirst(now, t);
      LessIsTotal(name, name);
    }
    assert Runs(entries + {name}) == Runs(entries) + {name};
    var less := LessThan(entries + {name}, name);
    assert less == {} by {
      forall other | other in Runs(entries + {name}) ensures other !in less {
        LessIsTotal(other, name);
      }
    }
    CurrentSurvivesExactly(entries + {name}, name, after);
  }

  lemma {:induction false} LaterYearFirst(now: Time, t: Time)
    requires Calendar(now) && Calendar(t) && now.year == 2100 && t.year == 2099
    ensures TextLess(Format(now), Format(t))
  {
    var rest := ("-" + (TwoDigits(now.month) + ("-" + (TwoDigits(now.day) + ("_" +
      (TwoDigits(now.hour) + ("-" + (TwoDigits(now.minute) + ("-" + TwoDigits(now.second))))))))));
    var rest' := ("-" + (TwoDigits(t.month) + ("-" + (TwoDigits(t.day) + ("_" +
      (TwoDigits(t.hour) + ("-" + (TwoDigits(t.minute) + ("-" + TwoDigits(t.second))))))))));
    assert now.year % 100 == 0 && t.year % 100 == 99;
    TwoDigitOrder(0, 99, rest, rest');
  }
}
