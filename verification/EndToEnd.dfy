/**
 The samples on their way to the statistics: the listeners' durations and those of the
 publishers are dumped to the result file of their process, and the coordinator collects
 the files of the run in whatever order the directory lists them.
 */
module EndToEnd {
  import opened Sorting
  import opened Stats
  import opened StatsSpread
  import opened StatsPercentiles
  import opened StatsStability
  import opened Messages
  import opened Listener
  import opened Files

  // ---- Dumping ------------------------------------------------------------------------

  // The files after the listeners' vectors have been appended one by one; an empty one
  // is not written.
  function Dumped(files: map<string, string>, name: string, vecs: seq<seq<real>>): map<string, string> {
    if vecs == [] then files
    else
      var before := Dumped(files, name, vecs[..|vecs| - 1]);
      var vec := vecs[|vecs| - 1];
      if |vec| > 0 then before[name := Content(before, name) + Lines(vec)] else before
  }

  function Recorded(listeners: seq<CustomListener>): (vecs: seq<seq<real>>)
    reads listeners
    ensures |vecs| == |listeners|
    ensures forall i :: 0 <= i < |listeners| ==> vecs[i] == listeners[i].durationVec
  {
    if listeners == [] then []
    else Recorded(listeners[..|listeners| - 1]) + [listeners[|listeners| - 1].durationVec]
  }

  // The vectors for which the file can be opened.
  function Writable(vecs: seq<seq<real>>, canOpen: seq<bool>): (w: seq<seq<real>>)
    requires |canOpen| == |vecs|
    ensures (forall i :: 0 <= i < |vecs| ==> canOpen[i]) ==> w == vecs
  {
    if vecs == [] then []
    else
      var n := |vecs| - 1;
      Writable(vecs[..n], canOpen[..n]) + if canOpen[n] then [vecs[n]] else []
  }

  // The outcome of writing is not looked at.  `canOpen` says how opening the file goes.
  method DumpListeners(fs: FileSystem, name: string, listeners: seq<CustomListener>, canOpen: seq<bool>)
    requires |canOpen| == |listeners|
    modifies fs
    ensures fs.files == Dumped(old(fs.files), name, Writable(old(Recorded(listeners)), canOpen))
  {
    hide Lines, Recorded;
    ghost var vecs := Recorded(listeners);
    for i := 0 to |listeners|
      invariant fs.files == Dumped(old(fs.files), name, Writable(vecs[..i], canOpen[..i]))
      modifies fs
    {
      WritableSnoc(vecs, canOpen, i);
      if |listeners[i].durationVec| > 0 {
        var code := fs.WriteVecToFile(name, listeners[i].durationVec, canOpen[i]);
      }
    }
    assert vecs[..|vecs|] == vecs && canOpen[..|canOpen|] == canOpen;
  }

  // What is left out when the file cannot be opened.
  lemma {:induction false} WritableAre(v: seq<real>, vecs: seq<seq<real>>, canOpen: seq<bool>, ok: bool)
    requires |canOpen| == |vecs|
    ensures Writable([], []) == [] && Writable(vecs + [v], canOpen + [ok]) == Writable(vecs, canOpen) + if ok then [v] else []
  {
    assert (vecs + [v])[..|vecs|] == vecs && (canOpen + [ok])[..|vecs|] == canOpen;
  }

  lemma {:induction false} WritableSnoc(vecs: seq<seq<real>>, canOpen: seq<bool>, i: nat)
    requires |canOpen| == |vecs| && i < |vecs|
    ensures var w, w' := Writable(vecs[..i], canOpen[..i]), Writable(vecs[..i + 1], canOpen[..i + 1]);
      && w' == (if canOpen[i] then w + [vecs[i]] else w)
      && (canOpen[i] ==> w'[..|w'| - 1] == w)
  {
    assert vecs[..i + 1][..i] == vecs[..i] && canOpen[..i + 1][..i] == canOpen[..i];
  }

  function Concat(vecs: seq<seq<real>>): seq<real> {
    if vecs == [] then [] else Concat(vecs[..|vecs| - 1]) + vecs[|vecs| - 1]
  }

  lemma {:induction false} Associate<T>(a: seq<T>, b: seq<T>, c: seq<T>)
    ensures (a + b) + c == a + (b + c)
  {
  }

  // What dumping does to the file, and to the others.
  ghost predicate DumpedTo(files: map<string, string>, after: map<string, string>, name: string, vec: seq<real>) {
    && Content(after, name) == Content(files, name) + Lines(vec)
    && (name in after <==> name in files || vec != [])
    && (forall other :: other != name ==>
          (other in after <==> other in files) && (other in files ==> after[other] == files[other]))
  }

  lemma {:induction false} DumpedMore(files: map<string, string>, after: map<string, string>, name: string,
                                      vec: seq<real>, last: seq<real>)
    requires DumpedTo(files, after, name, vec) && last != []
    ensures DumpedTo(files, after[name := Content(after, name) + Lines(last)], name, vec + last)
  {
    hide Lines;
    LinesAre(vec, last, 0.0);
    Associate(Content(files, name), Lines(vec), Lines(last));
  }

  lemma {:induction false} DumpedFiles(files: map<string, string>, name: string, vecs: seq<seq<real>>)
    ensures DumpedTo(files, Dumped(files, name, vecs), name, Concat(vecs))
  {
    hide Lines;
    if vecs == [] {
      NoNumbers();
    } else {
      hide DumpedTo;
      var n := |vecs| - 1;
      var earlier, last := Concat(vecs[..n]), vecs[n];
      DumpedFiles(files, name, vecs[..n]);
      if last == [] {
        assert Concat(vecs) == earlier;
      } else {
        DumpedMore(files, Dumped(files, name, vecs[..n]), name, earlier, last);
      }
    }
  }

  // ---- Collecting -----------------------------------------------------------------------

  predicate StartsWith(name: string, c: char) {
    name != "" && name[0] == c
  }

  // What is read from the listed files whose names start with c.
  function Collected(files: map<string, string>, list: seq<string>, c: char): seq<real> {
    if list == [] then []
    else
      var name := list[|list| - 1];
      Collected(files, list[..|list| - 1], c)
      + if StartsWith(name, c) && name in files then Numbers(files[name]) else []
  }

  method Collect(fs: FileSystem, list: seq<string>) returns (pubVec: Samples, subVec: Samples)
    ensures pubVec.items == Collected(fs.files, list, 'p')
    ensures subVec.items == Collected(fs.files, list, 's')
  {
    hide Numbers;
    pubVec := new Samples();
    subVec := new Samples();
    for i := 0 to |list|
      invariant pubVec.items == Collected(fs.files, list[..i], 'p')
      invariant subVec.items == Collected(fs.files, list[..i], 's')
      invariant fresh(pubVec) && fresh(subVec) && pubVec != subVec
      modifies pubVec, subVec
    {
      assert list[..i + 1][..i] == list[..i];
      if list[i][..if |list[i]| > 0 then 1 else 0] == "p" {
        var code := fs.ReadFileToVec(list[i], pubVec);
      }
      if list[i][..if |list[i]| > 0 then 1 else 0] == "s" {
        var code := fs.ReadFileToVec(list[i], subVec);
      }
    }
    assert list[..|list|] == list;
  }

  // What one name contributes.
  function Share(files: map<string, string>, name: string, c: char): seq<real> {
    if StartsWith(name, c) && name in files then Numbers(files[name]) else []
  }

  lemma {:induction false} CollectedSnoc(files: map<string, string>, list: seq<string>, name: string, c: char)
    ensures Collected(files, list + [name], c) == Collected(files, list, c) + Share(files, name, c)
  {
    hide Numbers;
    assert (list + [name])[..|list|] == list;
  }

  lemma {:induction false} CollectedWithout(files: map<string, string>, list: seq<string>, k: nat, c: char)
    requires k < |list|
    ensures multiset(Collected(files, list, c)) ==
            multiset(Collected(files, Without(list, k), c)) + multiset(Share(files, list[k], c))
  {
    hide Share, Collected;
    var n := |list| - 1;
    assert list == list[..n] + [list[n]];
    CollectedSnoc(files, list[..n], list[n], c);
    if k == n {
      assert Without(list, k) == list[..n];
    } else {
      CollectedWithout(files, list[..n], k, c);
      assert Without(list, k) == Without(list[..n], k) + [list[n]];
      CollectedSnoc(files, Without(list[..n], k), list[n], c);
    }
  }

  // The order of the listing only changes the order of the sample.
  lemma {:induction false} CollectedIgnoresOrder(files: map<string, string>, a: seq<string>, b: seq<string>, c: char)
    requires multiset(a) == multiset(b)
    ensures multiset(Collected(files, a, c)) == multiset(Collected(files, b, c))
    decreases |a|
  {
    hide Collected, Without;
    assert |a| == |multiset(a)| == |multiset(b)| == |b|;
    if a == [] {
    } else {
      assert b[0] in multiset(a);
      var k :| 0 <= k < |a| && a[k] == b[0];
      CollectedWithout(files, a, k, c);
      CollectedWithout(files, b, 0, c);
      WithoutOne(a, k);
      WithoutOne(b, 0);
      CollectedIgnoresOrder(files, Without(a, k), Without(b, 0), c);
    }
  }

  function Without<T>(s: seq<T>, k: nat): (w: seq<T>)
    requires k < |s|
    ensures |w| == |s| - 1
  {
    s[..k] + s[k + 1..]
  }

  lemma {:induction false} WithoutOne<T>(s: seq<T>, k: nat)
    requires k < |s|
    ensures multiset(Without(s, k)) == multiset(s) - multiset{s[k]}
  {
    assert s == s[..k] + ([s[k]] + s[k + 1..]);
  }

  // ---- A whole run ----------------------------------------------------------------------

  // A child: its result file, and what each of its listeners received, or the sends of
  // its rounds.
  datatype Process =
    | Subscriber(name: string, inboxes: seq<seq<Arrival>>)
    | Publisher(name: string, feed: seq<seq<Send>>)

  ghost predicate WellFormed(procs: seq<Process>) {
    && (forall i :: 0 <= i < |procs| ==> Usable(procs[i]))
    && (forall i, j :: 0 <= i < j < |procs| ==> procs[i].name != procs[j].name)
  }

  ghost predicate Usable(p: Process) {
    match p
    case Subscriber(name, inboxes) => StartsWith(name, 's') && AllReadableIn(inboxes)
    case Publisher(name, feed) =>
      && StartsWith(name, 'p') && Script(feed)
      && forall i :: 0 <= i < |feed| ==> |feed[i]| == |feed[0]|
  }

  ghost predicate AllReadableIn(inboxes: seq<seq<Arrival>>) {
    forall j :: 0 <= j < |inboxes| ==> AllReadable(inboxes[j])
  }

  // The durations in each listener's vector at the end.
  function Vectors(inboxes: seq<seq<Arrival>>): (vecs: seq<seq<real>>)
    requires forall j :: 0 <= j < |inboxes| ==> AllReadable(inboxes[j])
    ensures |vecs| == |inboxes|
  {
    if inboxes == [] then []
    else Vectors(inboxes[..|inboxes| - 1]) + [ReceiveAll(ZERO, inboxes[|inboxes| - 1]).durations]
  }

  // What a process writes: a publisher that gives up on a send writes nothing.
  ghost function Written(p: Process): seq<seq<real>>
    requires Usable(p)
  {
    match p
    case Subscriber(_, inboxes) => Vectors(inboxes)
    case Publisher(_, feed) => if AllTaken(feed) then [Times(feed, ROUNDS)] else []
  }

  // The files after the processes have written, one after the other in any order.
  ghost function FilesAfter(files: map<string, string>, procs: seq<Process>): map<string, string>
    requires WellFormed(procs)
  {
    if procs == [] then files
    else
      var p := procs[|procs| - 1];
      Dumped(FilesAfter(files, procs[..|procs| - 1]), p.name, Written(p))
  }

  function LatenciesOf(inboxes: seq<seq<Arrival>>): seq<seq<real>> {
    if inboxes == [] then []
    else LatenciesOf(inboxes[..|inboxes| - 1]) + [Latencies(Kept(inboxes[|inboxes| - 1]))]
  }

  // What a process has measured: the latencies of all messages that counted, in all of
  // its listeners, or the durations of its sends.
  ghost function Data(p: Process): seq<real>
    requires Usable(p)
  {
    match p
    case Subscriber(_, inboxes) => Concat(LatenciesOf(inboxes))
    case Publisher(_, feed) => if AllTaken(feed) then Times(feed, ROUNDS) else []
  }

  // If its file is one of those that start with c.
  ghost function DataFor(p: Process, c: char): seq<real>
    requires Usable(p)
  {
    if StartsWith(p.name, c) then Data(p) else []
  }

  ghost function Measured(procs: seq<Process>, c: char): seq<real>
    requires WellFormed(procs)
  {
    if procs == [] then []
    else Measured(procs[..|procs| - 1], c) + DataFor(procs[|procs| - 1], c)
  }

  function ArrivedAt(inboxes: seq<seq<Arrival>>): int
    requires forall j :: 0 <= j < |inboxes| ==> AllReadable(inboxes[j])
  {
    if inboxes == [] then 0
    else ArrivedAt(inboxes[..|inboxes| - 1]) + ReceiveAll(ZERO, inboxes[|inboxes| - 1]).arrived
  }

  // The messages that a subscriber's listeners count as arrived; the sends that a
  // publisher times, which are those of all rounds but the first.
  ghost function CountOf(p: Process): int
    requires Usable(p)
  {
    match p
    case Subscriber(_, inboxes) => ArrivedAt(inboxes)
    case Publisher(_, feed) => if AllTaken(feed) then 99999 * |feed[0]| else 0
  }

  ghost function TotalCount(procs: seq<Process>, c: char): int
    requires WellFormed(procs)
  {
    if procs == [] then 0
    else
      var p := procs[|procs| - 1];
      TotalCount(procs[..|procs| - 1], c) + if StartsWith(p.name, c) then CountOf(p) else 0
  }

  lemma {:induction false} VectorsAreLatencies(inboxes: seq<seq<Arrival>>)
    requires forall j :: 0 <= j < |inboxes| ==> AllReadable(inboxes[j])
    ensures Vectors(inboxes) == LatenciesOf(inboxes)
    ensures |Concat(LatenciesOf(inboxes))| == ArrivedAt(inboxes)
  {
    hide ReceiveAll, Latencies, Kept;
    if inboxes == [] {
    } else {
      var n := |inboxes| - 1;
      VectorsAreLatencies(inboxes[..n]);
      TallyIsHistory(inboxes[n]);
    }
  }

  // Each process writes what it has measured.
  lemma {:induction false} WrittenIsData(p: Process)
    requires Usable(p)
    ensures Concat(Written(p)) == Data(p) && |Data(p)| == CountOf(p)
  {
    hide Vectors, LatenciesOf, ArrivedAt, Times, AllTaken;
    match p {
      case Subscriber(_, inboxes) =>
        VectorsAreLatencies(inboxes);
      case Publisher(_, feed) =>
        if AllTaken(feed) {
          PublishCounts(feed, |feed[0]|, ROUNDS);
          assert [Times(feed, ROUNDS)][..0] == [];
        }
    }
  }

  lemma {:induction false} MeasuredCount(procs: seq<Process>, c: char)
    requires WellFormed(procs)
    ensures |Measured(procs, c)| == TotalCount(procs, c)
  {
    hide Data, CountOf, Usable;
    if procs == [] {
    } else {
      MeasuredCount(procs[..|procs| - 1], c);
      WrittenIsData(procs[|procs| - 1]);
    }
  }

  // The names of the files of a kind that get any line.
  ghost function Created(procs: seq<Process>, c: char): seq<string>
    requires WellFormed(procs)
  {
    if procs == [] then []
    else
      var p := procs[|procs| - 1];
      Created(procs[..|procs| - 1], c) + if DataFor(p, c) != [] then [p.name] else []
  }

  // The names in a listing that start with c.
  function Select(list: seq<string>, c: char): seq<string> {
    if list == [] then []
    else
      var name := list[|list| - 1];
      Select(list[..|list| - 1], c) + if StartsWith(name, c) then [name] else []
  }

  lemma {:induction false} CollectedFromSelected(files: map<string, string>, list: seq<string>, c: char)
    ensures Collected(files, list, c) == Collected(files, Select(list, c), c)
  {
    hide Numbers;
    if list == [] {
    } else {
      var n := |list| - 1;
      CollectedFromSelected(files, list[..n], c);
      var chosen := Select(list[..n], c);
      assert (chosen + [list[n]])[..|chosen|] == chosen;
      assert chosen + [] == chosen;
    }
  }

  // No file of the kind is there when the run begins.
  ghost predicate NoneYet(files: map<string, string>, c: char) {
    forall name :: name in files ==> !StartsWith(name, c)
  }

  // A listing of the directory: every file once, in any order, and nothing else.
  ghost predicate Lists(list: seq<string>, files: map<string, string>) {
    forall name :: name != "" ==> multiset(list)[name] == if name in files then 1 else 0
  }

  ghost predicate Agree(a: map<string, string>, b: map<string, string>, names: seq<string>) {
    forall name :: name in names ==> name in a && name in b && a[name] == b[name]
  }

  lemma {:induction false} CollectedDependsOn(a: map<string, string>, b: map<string, string>, names: seq<string>, c: char)
    requires Agree(a, b, names)
    ensures Collected(a, names, c) == Collected(b, names, c)
  {
    hide Numbers;
    if names == [] {
    } else {
      var n := |names| - 1;
      assert forall name :: name in names[..n] ==> name in names;
      CollectedDependsOn(a, b, names[..n], c);
      assert names[n] in names;
    }
  }

  // One more process.
  lemma {:induction false} LastProcess(files: map<string, string>, procs: seq<Process>)
    requires WellFormed(procs) && procs != []
    ensures var earlier, p := procs[..|procs| - 1], procs[|procs| - 1];
      && Usable(p) && WellFormed(earlier)
      && DumpedTo(FilesAfter(files, earlier), FilesAfter(files, procs), p.name, Data(p))
      && (forall i :: 0 <= i < |earlier| ==> earlier[i].name != p.name)
  {
    hide Dumped, Concat, Written, Data, Usable, DumpedTo;
    var earlier, p := procs[..|procs| - 1], procs[|procs| - 1];
    DumpedFiles(FilesAfter(files, earlier), p.name, Written(p));
    WrittenIsData(p);
  }

  ghost predicate Once(names: seq<string>) {
    forall name :: name in names ==> multiset(names)[name] == 1
  }

  lemma {:induction false} OnceMore(names: seq<string>, name: string)
    requires Once(names) && name !in names
    ensures Once(names + [name])
  {
    assert multiset(names)[name] == 0;
  }

  ghost predicate NameOfOne(procs: seq<Process>, name: string) {
    exists i :: 0 <= i < |procs| && procs[i].name == name
  }

  // The created files are of the kind, different, and files of the processes.
  lemma {:induction false} CreatedNames(procs: seq<Process>, c: char)
    requires WellFormed(procs)
    ensures Once(Created(procs, c))
    ensures forall name :: name in Created(procs, c) ==> StartsWith(name, c) && NameOfOne(procs, name)
  {
    hide Usable, Data, StartsWith, Once;
    if procs == [] {
      NoneOnce();
    } else {
      var n := |procs| - 1;
      var earlier, p := procs[..n], procs[n];
      CreatedNames(earlier, c);
      forall name | NameOfOne(earlier, name) ensures NameOfOne(procs, name) && name != p.name {
        var i :| 0 <= i < |earlier| && earlier[i].name == name;
        assert procs[i].name == name;
      }
      if DataFor(p, c) != [] {
        assert NameOfOne(procs, p.name) by { assert procs[n].name == p.name; }
        assert p.name !in Created(earlier, c);
        OnceMore(Created(earlier, c), p.name);
      } else {
        assert Created(procs, c) == Created(earlier, c);
      }
    }
  }

  lemma {:induction false} NoneOnce()
    ensures Once([])
  {
  }

  // Which files of a kind a run leaves.
  lemma {:induction false} FilesOfRun(files: map<string, string>, procs: seq<Process>, c: char)
    requires WellFormed(procs) && NoneYet(files, c)
    ensures forall name :: StartsWith(name, c) ==> (name in FilesAfter(files, procs) <==> name in Created(procs, c))
  {
    hide Usable, Data, FilesAfter, Lines, StartsWith, Content;
    if procs == [] {
      NothingWritten(files);
    } else {
      FilesOfRun(files, procs[..|procs| - 1], c);
      LastProcess(files, procs);
    }
  }

  lemma {:induction false} NothingWritten(files: map<string, string>)
    ensures FilesAfter(files, []) == files
  {
  }

  lemma {:induction false} SelectedCount(list: seq<string>, c: char, name: string)
    ensures multiset(Select(list, c))[name] == if StartsWith(name, c) then multiset(list)[name] else 0
  {
    hide StartsWith;
    if list == [] {
    } else {
      var n := |list| - 1;
      SelectedCount(list[..n], c, name);
      assert list == list[..n] + [list[n]];
    }
  }

  // A listing of the directory names the files that the run has created, each once.
  lemma {:induction false} ListingSelectsCreated(files: map<string, string>, procs: seq<Process>,
                                                 list: seq<string>, c: char)
    requires WellFormed(procs) && NoneYet(files, c) && Lists(list, FilesAfter(files, procs))
    ensures multiset(Select(list, c)) == multiset(Created(procs, c))
  {
    hide FilesAfter, Created, Select, WellFormed;
    FilesOfRun(files, procs, c);
    CreatedNames(procs, c);
    var created := Created(procs, c);
    forall name ensures multiset(Select(list, c))[name] == multiset(created)[name] {
      SelectedCount(list, c, name);
      assert name in created <==> name in multiset(created);
    }
  }

  // Read in the order of the processes, the files give all that was measured, rounded.
  lemma {:induction false} CollectedInOrder(files: map<string, string>, procs: seq<Process>, c: char)
    requires WellFormed(procs) && NoneYet(files, c)
    ensures Collected(FilesAfter(files, procs), Created(procs, c), c) == Rounded(Measured(procs, c))
  {
    hide FilesAfter, Data, Usable, Lines, Numbers, Rounded, StartsWith, Collected;
    NoNumbers();
    if procs == [] {
      CollectedNothing(FilesAfter(files, []), c);
    } else {
      var n := |procs| - 1;
      var earlier, p := procs[..n], procs[n];
      CollectedInOrder(files, earlier, c);
      LastProcess(files, procs);
      var before, after := FilesAfter(files, earlier), FilesAfter(files, procs);
      var created := Created(earlier, c);
      EarlierAgree(files, procs, c);
      CollectedDependsOn(before, after, created, c);
      RoundedConcat(Measured(earlier, c), DataFor(p, c));
      if DataFor(p, c) != [] {
        ReadBack(before, after, p.name, Data(p));
        CollectedSnoc(after, created, p.name, c);
      } else {
        assert Created(procs, c) == created;
        assert Rounded(Measured(earlier, c)) + [] == Rounded(Measured(earlier, c));
      }
    }
  }

  // The last process leaves the files of the others alone.
  lemma {:induction false} EarlierAgree(files: map<string, string>, procs: seq<Process>, c: char)
    requires WellFormed(procs) && NoneYet(files, c) && procs != []
    ensures var earlier, p := procs[..|procs| - 1], procs[|procs| - 1];
      && Agree(FilesAfter(files, earlier), FilesAfter(files, procs), Created(earlier, c))
      && (StartsWith(p.name, c) ==> p.name !in FilesAfter(files, earlier))
  {
    hide FilesAfter, Created, Data, Usable, Lines, StartsWith, Content;
    var earlier := procs[..|procs| - 1];
    LastProcess(files, procs);
    FilesOfRun(files, earlier, c);
    CreatedNames(earlier, c);
  }

  lemma {:induction false} CollectedNothing(files: map<string, string>, c: char)
    ensures Collected(files, [], c) == []
  {
  }

  // A file that has just been created holds what was dumped.
  lemma {:induction false} ReadBack(before: map<string, string>, after: map<string, string>, name: string, vec: seq<real>)
    requires DumpedTo(before, after, name, vec) && name !in before && vec != []
    ensures name in after && Numbers(after[name]) == Rounded(vec)
  {
    hide Lines, Numbers, Rounded;
    assert after[name] == "" + Lines(vec) == Lines(vec);
    NumbersOfLines(vec);
  }

  lemma {:induction false} RoundedConcat(a: seq<real>, b: seq<real>)
    ensures Rounded(a + b) == Rounded(a) + Rounded(b)
  {
    hide Round9, Nanos;
    if b == [] {
      assert a + b == a;
      assert Rounded(a) + [] == Rounded(a);
    } else {
      var n := |b| - 1;
      RoundedConcat(a, b[..n]);
      assert (a + b)[..|a| + n] == a + b[..n];
    }
  }

  // Conservation: from any listing of the directory that the run leaves, the sample
  // collected from the files of a kind is, as a multiset, what the processes of the kind
  // have measured, rounded to nine decimals: one number for every message counted as
  // arrived ('s'), and for every send but those of the first round ('p').
  lemma {:induction false} Conservation(files: map<string, string>, procs: seq<Process>, list: seq<string>, c: char)
    requires WellFormed(procs) && NoneYet(files, c) && Lists(list, FilesAfter(files, procs))
    ensures var sample := Collected(FilesAfter(files, procs), list, c);
      && multiset(sample) == multiset(Rounded(Measured(procs, c)))
      && |sample| == TotalCount(procs, c)
  {
    hide FilesAfter, Rounded, Collected, Created, Select, Measured, WellFormed, NoneYet, Lists;
    var after := FilesAfter(files, procs);
    ListingSelectsCreated(files, procs, list, c);
    CollectedFromSelected(after, list, c);
    CollectedIgnoresOrder(after, Select(list, c), Created(procs, c), c);
    CollectedInOrder(files, procs, c);
    MeasuredCount(procs, c);
    var sample := Collected(after, list, c);
    assert |multiset(sample)| == |sample|;
    assert |multiset(Rounded(Measured(procs, c)))| == |Rounded(Measured(procs, c))|;
  }

  lemma {:induction false} RoundedIsClose(vec: seq<real>)
    ensures AllWithin(Rounded(vec), vec, 0.0000000005)
  {
    hide Round9, Nanos;
    forall i | 0 <= i < |vec| ensures Within(Rounded(vec)[i], vec[i], 0.0000000005) {
      RoundError(vec[i]);
    }
  }

  // End to end: the mean, every percentile and the standard deviation that getStats
  // computes from the files are within half a nanosecond of those of what was measured.
  lemma {:induction false} StatsOfFiles(files: map<string, string>, procs: seq<Process>, list: seq<string>,
                                        c: char, p: int)
    requires WellFormed(procs) && NoneYet(files, c) && Lists(list, FilesAfter(files, procs))
    requires Measured(procs, c) != [] && 0 <= p <= 100
    ensures var sample, measured := Sort(Collected(FilesAfter(files, procs), list, c)), Sort(Measured(procs, c));
      && |sample| == |measured| > 0
      && PercentileFromSorted(sample, p).Some? && PercentileFromSorted(measured, p).Some?
      && Within(PercentileFromSorted(sample, p).value, PercentileFromSorted(measured, p).value, 0.0000000005)
      && Average(sample).Some? && Average(measured).Some?
      && Within(Average(sample).value, Average(measured).value, 0.0000000005)
      && (forall r, q :: IsRoot(r, VarianceOf(sample)) && IsRoot(q, VarianceOf(measured)) ==>
            Within(r, q, 0.0000000005))
  {
    hide FilesAfter, Rounded, Collected, Measured, WellFormed, NoneYet, Lists;
    hide Sort, PercentileFromSorted, Average, VarianceOf, IsRoot, Within;
    Conservation(files, procs, list, c);
    var measured := Measured(procs, c);
    SortIgnoresOrder(Collected(FilesAfter(files, procs), list, c), Rounded(measured));
    RoundedIsClose(measured);
    StatsAreStable(Rounded(measured), measured, 0.0000000005, p);
    StdIsStable(Rounded(measured), measured, 0.0000000005);
  }

  // The statistics do not depend on the order of the listing.
  lemma {:induction false} ListingOrderIsIrrelevant(files: map<string, string>, a: seq<string>, b: seq<string>, c: char, root: real)
    requires multiset(a) == multiset(b) && |Collected(files, a, c)| >= 2
    ensures |Collected(files, b, c)| >= 2
    ensures StatsOfSorted(Sort(Collected(files, a, c)), root) == StatsOfSorted(Sort(Collected(files, b, c)), root)
  {
    hide Sort, Collected, StatsOfSorted;
    CollectedIgnoresOrder(files, a, b, c);
    assert |Collected(files, a, c)| == |multiset(Collected(files, a, c))| == |Collected(files, b, c)|;
    StatsIgnoreOrder(Collected(files, a, c), Collected(files, b, c), root);
  }
}
