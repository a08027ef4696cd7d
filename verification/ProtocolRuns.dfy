/**
 Runs of the Start/Stop protocol.  Signals given in order are enough for a fair run to
 finish, for exactly the even numbers of children; each rule of that order is needed; and
 safety holds for exactly the even numbers of children and for one child.
 */
module ProtocolRuns {
  import opened Protocol
  import opened ProtocolSafety
  import opened ProtocolProgress
  import opened ProtocolPolls

  // ---- Signals in order -------------------------------------------------------------

  datatype Rule =
      // no publisher gives up
    | NoFailure
      // none begins to store its Stop before its Start is complete
    | StopAfterStart
      // no subscriber is still short of Start when its Stop begins
    | StartSeenFirst

  ghost predicate Obeys(c: Config, s: State, rule: Rule)
    requires WellSized(c, s)
  {
    match rule
    case NoFailure => forall i :: 0 <= i < c.n && IsPub(i) ==> s.children[i] != Exited(false)
    case StopAfterStart =>
      forall i :: 0 <= i < c.n && IsPub(i) && StopInHand(s.children[i]) ==> StartDone(s.coord, i)
    case StartSeenFirst =>
      forall j :: 0 <= j < c.n && !IsPub(j) && (s.children[j].SubSetup? || s.children[j].SubWait?) ==>
        !StopBegun(s.coord, j)
  }

  // The publisher has begun to store its Stop.
  ghost predicate StopInHand(child: Child) {
    exists k: nat :: k < |STOP| && PubWrote(child, k)
  }

  ghost predicate InOrder(c: Config, s: State)
    requires WellSized(c, s)
  {
    forall rule :: Obeys(c, s, rule)
  }

  ghost predicate KeepsOrder(c: Config, init: State, run: nat -> Event)
    requires WellSized(c, init)
  {
    forall t: nat :: InOrder(c, StateAt(c, init, run, t))
  }

  ghost predicate StopSurvives(c: Config, s: State, i: nat)
    requires WellSized(c, s) && i < c.n
  {
    forall k: nat :: k < |STOP| && PubWrote(s.children[i], k) ==> s.cells[i][k] == STOP[k]
  }

  lemma {:induction false} StopSurvivesStep(c: Config, s: State, e: Event, i: nat)
    requires Inv(c, s) && i < c.n && IsPub(i) && StopSurvives(c, s, i) && InOrder(c, s)
    ensures StopSurvives(c, Step(c, s, e), i)
  {
    assert ChildInv(c, s, i) && Obeys(c, s, StopAfterStart);
    if e.mover < c.n {
      ChildFrame(c, s, e.mover, e.hint, e.fail);
      if e.mover == i && s.children[i].PubStop? && s.children[i].pending != {} {
        assert Pick(s.children[i].pending, e.hint) in Positions(STOP);
      }
    } else {
      var s' := Step(c, s, e);
      assert s'.children == s.children;
      if s'.cells[i] != s.cells[i] {
        assert !StartDone(s.coord, i) by {
          var k := Pick(s.coord.pending, e.hint);
          assert k in Positions(START) && !StartWrote(s.coord, i, k);
        }
      }
    }
  }

  lemma {:induction false} StopSurvivesAt(c: Config, init: State, run: nat -> Event, t: nat, i: nat)
    requires Initial(c, init) && i < c.n && IsPub(i)
    requires KeepsOrder(c, init, run)
    ensures StopSurvives(c, StateAt(c, init, run, t), i)
  {
    hide Step, ChildInv, CoordInv, InOrder;
    if t == 0 {
    } else {
      StopSurvivesAt(c, init, run, t - 1, i);
      InitialInv(c, init);
      InvAt(c, init, run, t - 1);
      StopSurvivesStep(c, StateAt(c, init, run, t - 1), run(t - 1), i);
    }
  }

  // Signals given in order are never lost, so every fair run of the kind finishes.
  lemma {:induction false} InOrderFinishes(c: Config, init: State, run: nat -> Event)
    requires Initial(c, init) && c.n % 2 == 0 && Fair(c, run) && KeepsOrder(c, init, run)
    ensures Finishes(c, init, run)
  {
    forall t: nat ensures !Lost(c, StateAt(c, init, run, t)) {
      var s := StateAt(c, init, run, t);
      assert InOrder(c, s) && Obeys(c, s, NoFailure) && Obeys(c, s, StartSeenFirst);
      forall i: nat | i < c.n ensures !LostAt(c, s, i) {
        if IsPub(i) {
          StopSurvivesAt(c, init, run, t, i);
          if s.children[i].Exited? {
            assert forall k: nat :: k < |STOP| ==> s.cells[i][k] == STOP[k];
            assert ReadsAs(s.cells[i], STOP);
          }
        } else if StopDone(s.coord, i) {
          assert 0 in Positions(STOP);
          assert StopBegun(s.coord, i);
        }
      }
    }
    ProgressExactly(c, init, run);
  }

  // ---- Building runs ----------------------------------------------------------------

  lemma {:induction false} ExecConcat(c: Config, s: State, a: seq<Event>, b: seq<Event>)
    requires WellSized(c, s)
    ensures Exec(c, s, a + b) == Exec(c, Exec(c, s, a), b)
    decreases |b|
  {
    if b == [] {
      assert a + b == a;
    } else {
      ExecConcat(c, s, a, b[..|b| - 1]);
      assert (a + b)[..|a + b| - 1] == a + b[..|b| - 1];
    }
  }

  ghost function From(k: nat, msg: string): set<nat> {
    set j: nat {:trigger msg[j]} | k <= j < |msg|
  }

  // The first k bytes of msg stored over a cell.
  function Overlay(cell: string, msg: string, k: nat): string
    requires k <= |msg| <= |cell|
  {
    msg[..k] + cell[k..]
  }

  lemma {:induction false} OverlayNext(cell: string, msg: string, k: nat)
    requires k < |msg| <= |cell|
    ensures Overlay(cell, msg, k)[k := msg[k]] == Overlay(cell, msg, k + 1)
    ensures From(k, msg) - {k} == From(k + 1, msg)
    ensures k in From(k, msg)
  {
  }

  lemma {:induction false} OverlayReads(cell: string, msg: string)
    requires |msg| <= |cell|
    ensures ReadsAs(Overlay(cell, msg, |msg|), msg) && From(|msg|, msg) == {} && From(0, msg) == Positions(msg)
  {
  }

  lemma {:induction false} StoreStart(c: Config, s: State, i: nat, k: nat) returns (events: seq<Event>)
    requires WellSized(c, s) && i < c.n && s.coord == Starting(i, Positions(START)) && k <= |START|
    ensures Exec(c, s, events) ==
            s.(cells := s.cells[i := Overlay(s.cells[i], START, k)], coord := Starting(i, From(k, START)))
  {
    if k == 0 {
      events := [];
      OverlayReads(s.cells[i], START);
      assert Overlay(s.cells[i], START, 0) == s.cells[i];
    } else {
      events := StoreStart(c, s, i, k - 1);
      var e := Event(c.n, k - 1, false);
      ExecSnoc(c, s, events, e);
      OverlayNext(s.cells[i], START, k - 1);
      events := events + [e];
    }
  }

  // The coordinator stores Start in the first i cells, nobody else moving.
  lemma {:induction false} StoreStarts(c: Config, s: State, i: nat) returns (events: seq<Event>)
    requires WellSized(c, s) && i <= c.n && s.coord == Starting(0, Positions(START))
    ensures var t := Exec(c, s, events);
      && t == s.(cells := t.cells, coord := Starting(i, Positions(START)))
      && (forall j :: 0 <= j < i ==> ReadsAs(t.cells[j], START))
      && (forall j :: i <= j < c.n ==> t.cells[j] == s.cells[j])
  {
    if i == 0 {
      events := [];
    } else {
      events := StoreStarts(c, s, i - 1);
      var t := Exec(c, s, events);
      var more := StoreStart(c, t, i - 1, |START|);
      OverlayReads(t.cells[i - 1], START);
      var e := Event(c.n, 0, false);
      ExecSnoc(c, t, more, e);
      ExecConcat(c, s, events, more + [e]);
      events := events + (more + [e]);
    }
  }

  lemma {:induction false} SendUpTo(c: Config, s: State, i: nat, k: nat) returns (events: seq<Event>)
    requires WellSized(c, s) && i < c.n && s.children[i] == PubSetup && s.sent[i] == 0 && k <= c.total
    ensures Exec(c, s, events) == s.(children := s.children[i := PubSend], sent := s.sent[i := k])
  {
    var e := Event(i, 0, false);
    if k == 0 {
      events := [e];
      ExecSnoc(c, s, [], e);
      assert [] + [e] == [e];
      assert s.sent[i := 0] == s.sent;
    } else {
      events := SendUpTo(c, s, i, k - 1);
      ExecSnoc(c, s, events, e);
      events := events + [e];
    }
  }

  lemma {:induction false} StoreStop(c: Config, s: State, i: nat, k: nat) returns (events: seq<Event>)
    requires WellSized(c, s) && i < c.n && s.children[i] == PubStop(Positions(STOP)) && k <= |STOP|
    ensures Exec(c, s, events) ==
            s.(cells := s.cells[i := Overlay(s.cells[i], STOP, k)], children := s.children[i := PubStop(From(k, STOP))])
  {
    if k == 0 {
      events := [];
      OverlayReads(s.cells[i], STOP);
      assert Overlay(s.cells[i], STOP, 0) == s.cells[i];
      assert s.children[i := PubStop(From(0, STOP))] == s.children;
    } else {
      events := StoreStop(c, s, i, k - 1);
      var e := Event(i, k - 1, false);
      ExecSnoc(c, s, events, e);
      OverlayNext(s.cells[i], STOP, k - 1);
      events := events + [e];
    }
  }

  // Publisher i does all its work, nobody else moving.
  lemma {:induction false} RunPub(c: Config, s: State, i: nat) returns (events: seq<Event>)
    requires WellSized(c, s) && i < c.n && s.children[i] == PubSetup && s.sent[i] == 0
    ensures Exec(c, s, events) ==
            s.(cells := s.cells[i := Overlay(s.cells[i], STOP, |STOP|)],
              children := s.children[i := Exited(true)],
              sent := s.sent[i := c.total],
              flushed := s.flushed[i := true])
  {
    var e := Event(i, 0, false);
    var sends := SendUpTo(c, s, i, c.total);
    ExecSnoc(c, s, sends, e);
    var t := Exec(c, s, sends + [e]);
    var stores := StoreStop(c, t, i, |STOP|);
    OverlayReads(t.cells[i], STOP);
    ExecSnoc(c, t, stores, e);
    ExecConcat(c, s, sends + [e], stores + [e]);
    events := (sends + [e]) + (stores + [e]);
  }

  // The first m publishers do all their work.
  lemma {:induction false} RunPubs(c: Config, s: State, m: nat) returns (events: seq<Event>)
    requires WellSized(c, s) && 2 * m <= c.n + 1
    requires forall i :: 0 <= i < c.n && IsPub(i) ==> s.children[i] == PubSetup && s.sent[i] == 0
    ensures var t := Exec(c, s, events);
      && t.coord == s.coord
      && (forall i :: 0 <= i < 2 * m - 1 && IsPub(i) ==>
            ReadsAs(t.cells[i], STOP) && t.children[i] == Exited(true))
      && (forall i :: 0 <= i < c.n && (i >= 2 * m - 1 || !IsPub(i)) ==>
            t.cells[i] == s.cells[i] && t.children[i] == s.children[i]
            && t.sent[i] == s.sent[i] && t.flushed[i] == s.flushed[i])
  {
    hide Step, ReadsAs;
    if m == 0 {
      events := [];
    } else {
      events := RunPubs(c, s, m - 1);
      var t := Exec(c, s, events);
      var i := 2 * m - 2;
      var more := RunPub(c, t, i);
      OverlayReads(t.cells[i], STOP);
      ExecConcat(c, s, events, more);
      events := events + more;
    }
  }

  function Fetched(cell: string, k: nat): Poll
    requires k <= |cell|
  {
    map j: nat | 0 <= j < k :: cell[j]
  }

  lemma {:induction false} PollUpTo(c: Config, s: State, i: nat, count: nat, k: nat) returns (events: seq<Event>)
    requires WellSized(c, s) && i < c.n && IsPub(i) && s.coord == Scanning(i, count, map[]) && k <= |STOP|
    ensures Exec(c, s, events) == s.(coord := Scanning(i, count, Fetched(s.cells[i], k)))
  {
    if k == 0 {
      events := [];
      assert Fetched(s.cells[i], 0) == map[];
    } else {
      events := PollUpTo(c, s, i, count, k - 1);
      var e, got := Event(c.n, k - 1, false), Fetched(s.cells[i], k - 1);
      ExecSnoc(c, s, events, e);
      assert k - 1 in Unread(got, STOP);
      assert got[k - 1 := s.cells[i][k - 1]] == Fetched(s.cells[i], k);
      events := events + [e];
    }
  }

  // One cell of a scan, nobody else moving.
  lemma {:induction false} ScanCell(c: Config, s: State, i: nat, count: nat) returns (events: seq<Event>)
    requires WellSized(c, s) && i < c.n && s.coord == Scanning(i, count, map[])
    ensures Exec(c, s, events) ==
            s.(coord := Scanning(i + 1, if IsPub(i) && ReadsAs(s.cells[i], STOP) then count + 1 else count, map[]))
  {
    var e := Event(c.n, 0, false);
    if IsPub(i) {
      var fetches := PollUpTo(c, s, i, count, |STOP|);
      ExecSnoc(c, s, fetches, e);
      var got := Fetched(s.cells[i], |STOP|);
      assert Unread(got, STOP) == {};
      assert Matches(got, STOP) <==> ReadsAs(s.cells[i], STOP);
      events := fetches + [e];
    } else {
      ExecSnoc(c, s, [], e);
      assert [] + [e] == [e];
      events := [e];
    }
  }

  lemma {:induction false} ScanUpTo(c: Config, s: State, m: nat, i: nat) returns (events: seq<Event>)
    requires WellSized(c, s) && i <= c.n && s.coord == Scanning(0, 0, map[])
    requires forall j :: 0 <= j < c.n && IsPub(j) ==> (ReadsAs(s.cells[j], STOP) <==> j < 2 * m)
    ensures Exec(c, s, events) ==
            s.(coord := Scanning(i, if PubsBelow(i) <= m then PubsBelow(i) else m, map[]))
  {
    hide Step, ReadsAs;
    if i == 0 {
      events := [];
    } else {
      events := ScanUpTo(c, s, m, i - 1);
      var t := Exec(c, s, events);
      var more := ScanCell(c, t, i - 1, t.coord.count);
      ExecConcat(c, s, events, more);
      events := events + more;
    }
  }

  // Zeroed cells, nothing done.
  function Fresh(c: Config): State {
    State(
      seq(c.n, _ => seq(SIZE, _ => '\0')),
      seq(c.n, i => if i % 2 == 0 then PubSetup else SubSetup),
      Starting(0, {0, 1, 2, 3, 4, 5}),
      seq(c.n, _ => 0),
      seq(c.n, _ => false))
  }

  lemma {:induction false} FreshIsInitial(c: Config)
    ensures Initial(c, Fresh(c)) && Blank(Fresh(c).cells)
  {
    assert Positions(START) == {0, 1, 2, 3, 4, 5};
  }

  lemma {:induction false} DifferentSignals(cell: string)
    requires |cell| == SIZE && ReadsAs(cell, START)
    ensures !ReadsAs(cell, STOP)
  {
    assert cell[2] == START[2] != STOP[2];
  }

  // The coordinator broadcasts Start and turns to scanning.
  lemma {:induction false} Broadcast(c: Config) returns (events: seq<Event>)
    ensures WellSized(c, Fresh(c))
    ensures var t := Exec(c, Fresh(c), events);
      && t == Fresh(c).(cells := t.cells, coord := Scanning(0, 0, map[]))
      && (forall j :: 0 <= j < c.n ==> ReadsAs(t.cells[j], START))
  {
    FreshIsInitial(c);
    var e := Event(c.n, 0, false);
    var starts := StoreStarts(c, Fresh(c), c.n);
    ExecSnoc(c, Fresh(c), starts, e);
    events := starts + [e];
  }

  // Then c.n / 2 publishers run to completion.
  lemma {:induction false} HalfPublishersFinish(c: Config, s: State) returns (events: seq<Event>)
    requires c.n >= 2 && WellSized(c, Fresh(c)) && WellSized(c, s)
    requires s == Fresh(c).(cells := s.cells, coord := s.coord)
    requires forall j :: 0 <= j < c.n ==> ReadsAs(s.cells[j], START)
    ensures var t := Exec(c, s, events);
      && t.coord == s.coord
      && t.children[1] == SubSetup
      && (forall i :: 0 <= i < c.n ==> t.children[i] != Exited(false))
      && (c.n % 2 == 1 ==> !t.flushed[c.n - 1])
      && (forall j :: 0 <= j < c.n && IsPub(j) ==> (ReadsAs(t.cells[j], STOP) <==> j < 2 * (c.n / 2)))
  {
    events := RunPubs(c, s, c.n / 2);
    var t := Exec(c, s, events);
    forall j | 0 <= j < c.n && IsPub(j) ensures ReadsAs(t.cells[j], STOP) <==> j < 2 * (c.n / 2) {
      if j >= 2 * (c.n / 2) {
        assert t.cells[j] == s.cells[j];
        DifferentSignals(t.cells[j]);
      }
    }
  }

  // The scan counts those publishers, and the coordinator turns to the first subscriber.
  lemma {:induction false} CountAndTurn(c: Config, s: State) returns (events: seq<Event>)
    requires c.n >= 2 && WellSized(c, s) && s.coord == Scanning(0, 0, map[])
    requires forall j :: 0 <= j < c.n && IsPub(j) ==> (ReadsAs(s.cells[j], STOP) <==> j < 2 * (c.n / 2))
    ensures Exec(c, s, events) == s.(coord := Stopping(1, Positions(STOP)))
  {
    hide ReadsAs;
    var e := Event(c.n, 0, false);
    var scan := ScanUpTo(c, s, c.n / 2, c.n);
    ExecSnoc(c, s, scan, e);
    ExecSnoc(c, s, scan + [e], e);
    events := (scan + [e]) + [e];
  }

  // `start` is the broadcast that the run begins with.
  lemma {:induction false} StopFirstSubscriber(c: Config)
    returns (events: seq<Event>, start: seq<Event>, rest: seq<Event>)
    requires c.n >= 2
    ensures WellSized(c, Fresh(c)) && events == start + rest
    ensures var t := Exec(c, Fresh(c), start); Stage(t.coord) == 1 && t.children == Fresh(c).children
    ensures var t := Exec(c, Fresh(c), events);
      && t.coord == Stopping(1, Positions(STOP))
      && t.children[1] == SubSetup
      && (forall i :: 0 <= i < c.n ==> t.children[i] != Exited(false))
      && (c.n % 2 == 1 ==> !t.flushed[c.n - 1])
  {
    hide Step, ReadsAs, Fresh;
    start := Broadcast(c);
    var s := Exec(c, Fresh(c), start);
    var pubs := HalfPublishersFinish(c, s);
    var turn := CountAndTurn(c, Exec(c, s, pubs));
    rest := pubs + turn;
    events := start + rest;
    ExecConcat(c, s, pubs, turn);
    ExecConcat(c, Fresh(c), start, rest);
  }

  lemma {:induction false} FirstByteStops(c: Config, s: State, e: Event)
    requires c.n >= 2 && WellSized(c, s) && s.coord == Stopping(1, Positions(STOP)) && e == Event(c.n, 0, false)
    ensures var t := Step(c, s, e); StopReached(c, t, 1) && t.flushed == s.flushed
  {
    assert 0 in Positions(STOP) && Pick(s.coord.pending, 0) == 0;
    assert StopWrote(Step(c, s, e).coord, 1, 0);
  }

  lemma {:induction false} OddCountIsUnsafe(c: Config) returns (events: seq<Event>)
    requires c.n % 2 == 1 && c.n >= 3
    ensures Initial(c, Fresh(c)) && !Safe(c, Exec(c, Fresh(c), events))
  {
    hide Step, Exec, StopReached;
    FreshIsInitial(c);
    var before, start, rest := StopFirstSubscriber(c);
    var e := Event(c.n, 0, false);
    ExecSnoc(c, Fresh(c), before, e);
    events := before + [e];
    FirstByteStops(c, Exec(c, Fresh(c), before), e);
    assert !PubWorkDone(c, Exec(c, Fresh(c), events), c.n - 1);
  }

  // Main result: the protocol is safe, over all initial cells and interleavings, for
  // exactly the even numbers of children (and for one child, with no subscriber).
  lemma {:induction false} SafetyExactly(c: Config)
    ensures (forall init, events :: Initial(c, init) ==> Safe(c, Exec(c, init, events)))
            <==> (c.n % 2 == 0 || c.n == 1)
  {
    if c.n % 2 == 0 {
      forall init, events | Initial(c, init) ensures Safe(c, Exec(c, init, events)) {
        SafetyForEvenCounts(c, init, events);
      }
    } else if c.n >= 3 {
      var events := OddCountIsUnsafe(c);
    }
  }

  // ---- What cannot be undone ----------------------------------------------------------

  // What one instant tells about those before it.
  ghost predicate Precedes(c: Config, s: State, t: State)
    requires WellSized(c, s) && WellSized(c, t)
  {
    && Stage(s.coord) <= Stage(t.coord)
    && (forall i :: 0 <= i < c.n && s.children[i].Exited? ==> t.children[i] == s.children[i])
    && (forall i, k :: 0 <= i < c.n && PubWrote(s.children[i], k) ==> PubWrote(t.children[i], k))
  }

  lemma {:induction false} StepIsLater(c: Config, s: State, e: Event)
    requires WellSized(c, s)
    ensures Precedes(c, s, Step(c, s, e))
  {
    StageStep(c, s, e);
    if e.mover < c.n {
      ChildFrame(c, s, e.mover, e.hint, e.fail);
    } else {
      CoordLeavesChildren(c, s, e.hint);
    }
  }

  lemma {:induction false} PrefixIsEarlier(c: Config, s: State, events: seq<Event>, p: nat)
    requires WellSized(c, s) && p <= |events|
    ensures Precedes(c, Exec(c, s, events[..p]), Exec(c, s, events))
    decreases |events|
  {
    hide Step, PubWrote;
    if p == |events| {
      assert events[..p] == events;
    } else {
      var prefix := events[..|events| - 1];
      PrefixIsEarlier(c, s, prefix, p);
      assert prefix[..p] == events[..p];
      StepIsLater(c, Exec(c, s, prefix), events[|events| - 1]);
    }
  }

  // The rule holds from the first to the last instant of the run.
  ghost predicate Throughout(c: Config, s: State, events: seq<Event>, rule: Rule)
    requires WellSized(c, s)
  {
    forall p: nat :: p <= |events| ==> Obeys(c, Exec(c, s, events[..p]), rule)
  }

  lemma {:induction false} NoFailureThroughout(c: Config, s: State, events: seq<Event>)
    requires WellSized(c, s) && Obeys(c, Exec(c, s, events), NoFailure)
    ensures Throughout(c, s, events, NoFailure)
  {
    hide Exec, Stage, PubWrote;
    forall p: nat | p <= |events| ensures Obeys(c, Exec(c, s, events[..p]), NoFailure) {
      PrefixIsEarlier(c, s, events, p);
    }
  }

  lemma {:induction false} NoStopThroughout(c: Config, s: State, events: seq<Event>)
    requires WellSized(c, s) && Stage(Exec(c, s, events).coord) < 2
    ensures Throughout(c, s, events, StartSeenFirst)
  {
    hide Exec, PubWrote;
    forall p: nat | p <= |events| ensures Obeys(c, Exec(c, s, events[..p]), StartSeenFirst) {
      PrefixIsEarlier(c, s, events, p);
    }
  }

  ghost predicate NoStopInHand(c: Config, s: State)
    requires WellSized(c, s)
  {
    forall i :: 0 <= i < c.n && IsPub(i) ==> !StopInHand(s.children[i])
  }

  // Start is broadcast while no publisher stores its Stop; after that anything may happen.
  lemma {:induction false} BroadcastFirst(c: Config, s: State, start: seq<Event>, rest: seq<Event>)
    requires WellSized(c, s)
    requires var t := Exec(c, s, start); Stage(t.coord) >= 1 && NoStopInHand(c, t)
    ensures Throughout(c, s, start + rest, StopAfterStart)
  {
    hide Exec, PubWrote;
    var events := start + rest;
    forall p: nat | p <= |events| ensures Obeys(c, Exec(c, s, events[..p]), StopAfterStart) {
      if p <= |start| {
        assert events[..p] == start[..p];
        NoStopBefore(c, s, start, p);
      } else {
        assert events[..p][..|start|] == start;
        PrefixIsEarlier(c, s, events[..p], |start|);
      }
    }
  }

  lemma {:induction false} NoStopBefore(c: Config, s: State, events: seq<Event>, p: nat)
    requires WellSized(c, s) && p <= |events| && NoStopInHand(c, Exec(c, s, events))
    ensures NoStopInHand(c, Exec(c, s, events[..p]))
  {
    hide Exec, PubWrote;
    PrefixIsEarlier(c, s, events, p);
    var t, u := Exec(c, s, events[..p]), Exec(c, s, events);
    forall i | 0 <= i < c.n && IsPub(i) ensures !StopInHand(t.children[i]) {
      if k: nat :| k < |STOP| && PubWrote(t.children[i], k) {
        assert PubWrote(u.children[i], k);
      }
    }
  }

  // ---- Runs that never finish ---------------------------------------------------------

  // From s on, no run whatever gets the coordinator past its last wait.
  ghost predicate StuckForEver(c: Config, s: State)
    requires WellSized(c, s)
  {
    forall more: seq<Event> :: !Exec(c, s, more).coord.Done?
  }

  lemma {:induction false} LostAlong(c: Config, s: State, i: nat, events: seq<Event>)
    requires Inv(c, s) && i < c.n
    ensures SubLost(c, s, i) ==> SubLost(c, Exec(c, s, events), i)
    ensures PubLost(c, s, i) ==> PubLost(c, Exec(c, s, events), i)
    decreases |events|
  {
    hide Step;
    if events == [] {
    } else {
      var prefix := events[..|events| - 1];
      LostAlong(c, s, i, prefix);
      InvAlways(c, s, prefix);
      if LostAt(c, Exec(c, s, prefix), i) {
        LostStays(c, Exec(c, s, prefix), events[|events| - 1], i);
      }
    }
  }

  // A Start that is missed, and when every publisher counts a Stop that is lost, is the end.
  lemma {:induction false} LostIsStuck(c: Config, s: State, i: nat)
    requires Inv(c, s) && i < c.n
    requires SubLost(c, s, i) || (c.n % 2 == 0 && PubLost(c, s, i))
    ensures StuckForEver(c, s)
  {
    forall more: seq<Event> ensures !Exec(c, s, more).coord.Done? {
      LostAlong(c, s, i, more);
      InvAlways(c, s, more);
      LostNotDone(c, Exec(c, s, more), i);
    }
  }

  // A publisher that is done before the coordinator has started: Start overwrites its
  // Stop, and the coordinator scans for it for ever, though no call has failed and no
  // subscriber has been stopped.
  lemma {:induction false} QuickPublisherIsStuck(c: Config) returns (events: seq<Event>)
    requires c.n >= 2 && c.n % 2 == 0
    ensures Initial(c, Fresh(c)) && Blank(Fresh(c).cells)
    ensures Throughout(c, Fresh(c), events, NoFailure) && Throughout(c, Fresh(c), events, StartSeenFirst)
    ensures var s := Exec(c, Fresh(c), events);
      && (forall i :: 0 <= i < c.n ==> s.children[i] != Exited(false))
      && s.children[0] == Exited(true) && PubLost(c, s, 0) && ReadsAs(s.cells[0], START)
      && StuckForEver(c, s)
  {
    FreshIsInitial(c);
    var init := Fresh(c);
    var work := RunPub(c, init, 0);
    var s := Exec(c, init, work);
    var starts := StoreStarts(c, s, c.n);
    ExecConcat(c, init, work, starts);
    events := work + starts;
    var t := Exec(c, init, events);
    DifferentSignals(t.cells[0]);
    assert PubLost(c, t, 0);
    NoFailureThroughout(c, init, events);
    NoStopThroughout(c, init, events);
    InitialInv(c, init);
    InvAlways(c, init, events);
    LostIsStuck(c, t, 0);
  }

  // A publisher whose transport fails to start: nobody stores Stop in its cell.
  lemma {:induction false} FailedPublisherIsStuck(c: Config) returns (events: seq<Event>)
    requires c.n >= 2 && c.n % 2 == 0
    ensures Initial(c, Fresh(c)) && Blank(Fresh(c).cells)
    ensures Throughout(c, Fresh(c), events, StopAfterStart) && Throughout(c, Fresh(c), events, StartSeenFirst)
    ensures var s := Exec(c, Fresh(c), events);
      && s.children[0] == Exited(false) && PubLost(c, s, 0)
      && (forall i :: 1 <= i < c.n ==> !s.children[i].Exited?)
      && StuckForEver(c, s)
  {
    FreshIsInitial(c);
    var init := Fresh(c);
    var e, scan := Event(0, 0, true), Event(c.n, 0, false);
    ExecSnoc(c, init, [], e);
    assert [] + [e] == [e];
    var s := Exec(c, init, [e]);
    var starts := StoreStarts(c, s, c.n);
    ExecSnoc(c, s, starts, scan);
    ExecConcat(c, init, [e], starts + [scan]);
    events := [e] + (starts + [scan]);
    var t := Exec(c, init, events);
    DifferentSignals(t.cells[0]);
    assert PubLost(c, t, 0);
    BroadcastFirst(c, init, events, []);
    assert events + [] == events;
    NoStopThroughout(c, init, events);
    InitialInv(c, init);
    InvAlways(c, init, events);
    LostIsStuck(c, t, 0);
  }

  lemma {:induction false} CoordinatorStoresStop(c: Config, s: State, i: nat, k: nat) returns (events: seq<Event>)
    requires WellSized(c, s) && i < c.n && !IsPub(i) && s.coord == Stopping(i, Positions(STOP)) && k <= |STOP|
    ensures Exec(c, s, events) ==
            s.(cells := s.cells[i := Overlay(s.cells[i], STOP, k)], coord := Stopping(i, From(k, STOP)))
  {
    if k == 0 {
      events := [];
      OverlayReads(s.cells[i], STOP);
      assert Overlay(s.cells[i], STOP, 0) == s.cells[i];
    } else {
      events := CoordinatorStoresStop(c, s, i, k - 1);
      var e := Event(c.n, k - 1, false);
      ExecSnoc(c, s, events, e);
      OverlayNext(s.cells[i], STOP, k - 1);
      events := events + [e];
    }
  }

  // Stop overwrites the Start of the first subscriber before it looks.
  lemma {:induction false} OverwriteStart(c: Config, s: State) returns (events: seq<Event>)
    requires c.n >= 2 && WellSized(c, s) && s.coord == Stopping(1, Positions(STOP)) && s.children[1] == SubSetup
    ensures var t := Exec(c, s, events);
      && t.children == s.children[1 := SubWait(map[])] && SubLost(c, t, 1) && ReadsAs(t.cells[1], STOP)
  {
    var stores := CoordinatorStoresStop(c, s, 1, |STOP|);
    OverlayReads(s.cells[1], STOP);
    var e := Event(1, 0, false);
    ExecSnoc(c, s, stores, e);
    events := stores + [e];
    assert START[2] != STOP[2];
  }

  // A subscriber that is slow to look: Stop overwrites its Start, and it waits for
  // Start, and the coordinator for it, for ever, though no call has failed and every
  // publisher has stored Stop after its Start.
  lemma {:induction false} SlowSubscriberIsStuck(c: Config) returns (events: seq<Event>)
    requires c.n >= 2 && c.n % 2 == 0
    ensures Initial(c, Fresh(c)) && Blank(Fresh(c).cells)
    ensures Throughout(c, Fresh(c), events, NoFailure) && Throughout(c, Fresh(c), events, StopAfterStart)
    ensures var s := Exec(c, Fresh(c), events);
      && (forall i :: 0 <= i < c.n ==> s.children[i] != Exited(false))
      && s.children[1] == SubWait(map[]) && SubLost(c, s, 1) && ReadsAs(s.cells[1], STOP)
      && StuckForEver(c, s)
  {
    hide Exec, Throughout, StuckForEver, SubLost, ReadsAs;
    FreshIsInitial(c);
    var init := Fresh(c);
    var before, start, rest := StopFirstSubscriber(c);
    var more := OverwriteStart(c, Exec(c, init, before));
    ExecConcat(c, init, before, more);
    events := before + more;
    NoFailureThroughout(c, init, events);
    BroadcastFirst(c, init, start, rest + more);
    assert start + (rest + more) == events;
    InitialInv(c, init);
    InvAlways(c, init, events);
    LostIsStuck(c, Exec(c, init, events), 1);
  }

  // Each rule of the order is needed: for an even number of children there is a run that
  // obeys the others throughout and after which nothing finishes.
  lemma {:induction false} EveryRuleIsNeeded(c: Config, rule: Rule)
    requires c.n >= 2 && c.n % 2 == 0
    ensures Initial(c, Fresh(c))
    ensures exists events ::
      && (forall other :: other != rule ==> Throughout(c, Fresh(c), events, other))
      && StuckForEver(c, Exec(c, Fresh(c), events))
  {
    hide Throughout, StuckForEver, Exec;
    var events;
    match rule {
      case NoFailure => events := FailedPublisherIsStuck(c);
      case StopAfterStart => events := QuickPublisherIsStuck(c);
      case StartSeenFirst => events := SlowSubscriberIsStuck(c);
    }
    assert forall other :: other != rule ==> Throughout(c, Fresh(c), events, other);
  }

  // ---- Odd numbers of children ----------------------------------------------------------

  // Every publisher is counted, and they are more than max_process / 2.
  ghost predicate Hung(c: Config, s: State) {
    && WellSized(c, s) && c.n % 2 == 1
    && s.coord.Scanning? && s.coord.cell <= c.n && s.coord.count == PubsBelow(s.coord.cell)
    && AgreesWith(s.coord.got, STOP)
    && (forall i :: 0 <= i < c.n && IsPub(i) ==> s.children[i] == Exited(true) && ReadsAs(s.cells[i], STOP))
  }

  lemma {:induction false} HungStays(c: Config, s: State, e: Event)
    requires Hung(c, s)
    ensures Hung(c, Step(c, s, e))
  {
    var s' := Step(c, s, e);
    if e.mover < c.n {
      ChildFrame(c, s, e.mover, e.hint, e.fail);
    } else if s.coord.cell < c.n && IsPub(s.coord.cell) {
      var got := s.coord.got;
      assert ReadsAs(s.cells[s.coord.cell], STOP);
      assert PubsBelow(s.coord.cell + 1) == PubsBelow(s.coord.cell) + 1;
      if Unread(got, STOP) == {} {
        forall k: nat | k < |STOP| ensures k in got {
          assert k !in Unread(got, STOP);
        }
      }
    }
  }

  lemma {:induction false} HungAlong(c: Config, s: State, events: seq<Event>)
    requires Hung(c, s)
    ensures Hung(c, Exec(c, s, events))
    decreases |events|
  {
    hide Step;
    if events == [] {
    } else {
      HungAlong(c, s, events[..|events| - 1]);
      HungStays(c, Exec(c, s, events[..|events| - 1]), events[|events| - 1]);
    }
  }

  lemma {:induction false} HungIsInOrder(c: Config, s: State)
    requires Hung(c, s)
    ensures InOrder(c, s) && !Lost(c, s) && s.coord.Scanning?
  {
    assert 0 in Positions(STOP);
    forall i: nat | i < c.n ensures !LostAt(c, s, i) {
      assert !StopDone(s.coord, i);
    }
  }

  // All publishers finish after the broadcast.
  lemma {:induction false} AllPublishersFinish(c: Config) returns (start: seq<Event>, work: seq<Event>)
    requires c.n % 2 == 1
    ensures WellSized(c, Fresh(c))
    ensures var t := Exec(c, Fresh(c), start); Stage(t.coord) == 1 && t.children == Fresh(c).children
    ensures Hung(c, Exec(c, Fresh(c), start + work))
  {
    hide Step;
    FreshIsInitial(c);
    start := Broadcast(c);
    var s := Exec(c, Fresh(c), start);
    work := RunPubs(c, s, (c.n + 1) / 2);
    ExecConcat(c, Fresh(c), start, work);
  }

  lemma {:induction false} HungIsStuck(c: Config, s: State)
    requires Hung(c, s)
    ensures StuckForEver(c, s)
  {
    hide Exec;
    forall more: seq<Event> ensures !Exec(c, s, more).coord.Done? {
      HungAlong(c, s, more);
      HungIsInOrder(c, Exec(c, s, more));
    }
  }

  // For every odd number of children, one among them, signals given in order and never
  // lost are not enough: all publishers finish, one more than the scan looks for.
  lemma {:induction false} OddHangs(c: Config) returns (events: seq<Event>)
    requires c.n % 2 == 1
    ensures Initial(c, Fresh(c))
    ensures forall rule :: Throughout(c, Fresh(c), events, rule)
    ensures var s := Exec(c, Fresh(c), events); Hung(c, s) && !Lost(c, s) && StuckForEver(c, s)
  {
    hide Throughout, Obeys, Exec, Hung, StuckForEver;
    FreshIsInitial(c);
    var init := Fresh(c);
    var start, work := AllPublishersFinish(c);
    events := start + work;
    var t := Exec(c, init, events);
    HungIsInOrder(c, t);
    HungIsStuck(c, t);
    assert Obeys(c, t, NoFailure);
    NoFailureThroughout(c, init, events);
    NoStopThroughout(c, init, events);
    BroadcastFirst(c, init, start, work);
    forall rule ensures Throughout(c, init, events, rule) {
      match rule { case NoFailure => case StopAfterStart => case StartSeenFirst => }
    }
  }

  // Every process in turn for ever.
  function Turn(c: Config, t: nat): (p: nat)
    ensures p <= c.n
  {
    if t == 0 || Turn(c, t - 1) == c.n then 0 else Turn(c, t - 1) + 1
  }

  lemma {:induction false} TurnComes(c: Config, t: nat, p: nat) returns (u: nat)
    requires p <= c.n
    ensures u >= t && Turn(c, u) == p
    decreases if Turn(c, t) <= p then p - Turn(c, t) else c.n + 1 - Turn(c, t) + p
  {
    if Turn(c, t) == p {
      u := t;
    } else {
      u := TurnComes(c, t + 1, p);
    }
  }

  // The events, and then every process in turn.
  ghost function Onwards(c: Config, events: seq<Event>): nat -> Event {
    (t: nat) => if t < |events| then events[t] else Event(Turn(c, t), 0, false)
  }

  lemma {:induction false} OnwardsIsFair(c: Config, events: seq<Event>)
    ensures Fair(c, Onwards(c, events))
  {
    var run := Onwards(c, events);
    forall p: nat, t: nat | p <= c.n ensures MovesAgain(c, run, p, t) {
      var u := TurnComes(c, t + |events|, p);
      assert Mover(c, run(u)) == p;
    }
  }

  lemma {:induction false} OnwardsBegins(c: Config, init: State, events: seq<Event>, t: nat)
    requires WellSized(c, init) && t <= |events|
    ensures StateAt(c, init, Onwards(c, events), t) == Exec(c, init, events[..t])
  {
    hide Step;
    if t == 0 {
    } else {
      OnwardsBegins(c, init, events, t - 1);
      assert events[..t][..t - 1] == events[..t - 1];
    }
  }

  lemma {:induction false} OnwardsHangs(c: Config, init: State, events: seq<Event>, t: nat)
    requires WellSized(c, init) && t >= |events| && Hung(c, Exec(c, init, events))
    ensures Hung(c, StateAt(c, init, Onwards(c, events), t))
  {
    hide Step, Hung;
    if t == |events| {
      OnwardsBegins(c, init, events, t);
      assert events[..t] == events;
    } else {
      OnwardsHangs(c, init, events, t - 1);
      HungStays(c, StateAt(c, init, Onwards(c, events), t - 1), Onwards(c, events)(t - 1));
    }
  }

  lemma {:induction false} OnwardsInOrder(c: Config, init: State, events: seq<Event>, t: nat)
    requires WellSized(c, init) && Hung(c, Exec(c, init, events))
    requires forall rule :: Throughout(c, init, events, rule)
    ensures var s := StateAt(c, init, Onwards(c, events), t); InOrder(c, s) && !s.coord.Done?
  {
    hide Hung, Obeys, Exec, Step, StateAt;
    HungIsInOrder(c, Exec(c, init, events));
    if t <= |events| {
      OnwardsBegins(c, init, events, t);
      PrefixIsEarlier(c, init, events, t);
      var s := Exec(c, init, events[..t]);
      forall rule ensures Obeys(c, s, rule) {
        assert Throughout(c, init, events, rule);
      }
    } else {
      OnwardsHangs(c, init, events, t);
      HungIsInOrder(c, StateAt(c, init, Onwards(c, events), t));
    }
  }

  lemma {:induction false} OddRunHangs(c: Config) returns (run: nat -> Event)
    requires c.n % 2 == 1
    ensures Initial(c, Fresh(c)) && Fair(c, run) && KeepsOrder(c, Fresh(c), run) && !Finishes(c, Fresh(c), run)
  {
    hide Hung, InOrder, Exec, Step, Fair, Throughout, Onwards;
    var init := Fresh(c);
    var events := OddHangs(c);
    run := Onwards(c, events);
    OnwardsIsFair(c, events);
    forall t: nat ensures InOrder(c, StateAt(c, init, run, t)) && !StateAt(c, init, run, t).coord.Done? {
      OnwardsInOrder(c, init, events, t);
    }
  }

  // Main result: signals given in order are enough for every fair run to finish for
  // exactly the even numbers of children.
  lemma {:induction false} InOrderExactly(c: Config)
    ensures (forall init, run :: Initial(c, init) && Fair(c, run) && KeepsOrder(c, init, run) ==>
               Finishes(c, init, run))
            <==> c.n % 2 == 0
  {
    if c.n % 2 == 0 {
      forall init, run | Initial(c, init) && Fair(c, run) && KeepsOrder(c, init, run)
        ensures Finishes(c, init, run)
      {
        InOrderFinishes(c, init, run);
      }
    } else {
      var run := OddRunHangs(c);
    }
  }
}
