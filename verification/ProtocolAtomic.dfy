/**
 The Start/Stop protocol over cells that are polled in a single step.  Every run of the
 protocol that polls byte by byte ends like a run of this one, and the other way round:
 fetching the bytes one at a time, while they are being overwritten, makes no difference.
 */
module ProtocolAtomic {
  import opened Protocol
  import opened ProtocolSafety
  import opened ProtocolPolls
  import opened ProtocolRuns

  // As Step, but a poll compares the whole cell at once.
  ghost function AtomicStep(c: Config, s: State, e: Event): (s': State)
    requires WellSized(c, s)
    ensures WellSized(c, s')
  {
    if e.mover < c.n then
      match s.children[e.mover]
      case SubWait(_) =>
        if ReadsAs(s.cells[e.mover], START) then s.(children := s.children[e.mover := SubInit]) else s
      case SubRun(_) =>
        if ReadsAs(s.cells[e.mover], STOP) then s.(children := s.children[e.mover := SubDump]) else s
      case _ => Step(c, s, e)
    else
      match s.coord
      case Scanning(i, count, _) =>
        if i < c.n && IsPub(i) then
          s.(coord := Scanning(i + 1, if ReadsAs(s.cells[i], STOP) then count + 1 else count, map[]))
        else Step(c, s, e)
      case _ => Step(c, s, e)
  }

  ghost function AtomicExec(c: Config, s: State, events: seq<Event>): (s': State)
    requires WellSized(c, s)
    ensures WellSized(c, s')
    decreases |events|
  {
    if events == [] then s
    else AtomicStep(c, AtomicExec(c, s, events[..|events| - 1]), events[|events| - 1])
  }

  lemma {:induction false} AtomicSnoc(c: Config, s: State, events: seq<Event>, e: Event)
    requires WellSized(c, s)
    ensures AtomicExec(c, s, events + [e]) == AtomicStep(c, AtomicExec(c, s, events), e)
  {
    assert (events + [e])[..|events + [e]| - 1] == events;
  }

  // No poll is in progress.
  ghost predicate AtRest(c: Config, s: State)
    requires WellSized(c, s)
  {
    forall reader :: 0 <= reader <= c.n ==> PollOf(c, s, reader) == map[]
  }

  // ---- Without the polls in progress ---------------------------------------------------

  ghost function Forgotten(child: Child, ahead: bool): Child {
    match child
    case SubWait(_) => if ahead then SubInit else SubWait(map[])
    case SubRun(_) => SubRun(map[])
    case _ => child
  }

  // The scan's poll in progress is bound to fail.
  ghost predicate Missed(got: Poll) {
    exists k: nat :: k < |STOP| && k in got && got[k] != STOP[k]
  }

  ghost function Settled(c: Config, coord: Coordinator): Coordinator {
    match coord
    case Scanning(i, count, got) =>
      Scanning(if i < c.n && IsPub(i) && Missed(got) then i + 1 else i, count, map[])
    case _ => coord
  }

  // A poll of the scan that is bound to fail counts as failed, and the subscribers in
  // `ahead` as having seen Start.
  ghost function Forget(c: Config, s: State, ahead: set<nat>): (s': State)
    requires WellSized(c, s)
    ensures WellSized(c, s')
  {
    s.(children := seq(c.n, i requires 0 <= i < c.n => Forgotten(s.children[i], i in ahead)),
       coord := Settled(c, s.coord))
  }

  lemma {:induction false} NothingToForget(c: Config, s: State)
    requires WellSized(c, s) && AtRest(c, s)
    ensures Forget(c, s, {}) == s
  {
    assert PollOf(c, s, c.n) == map[];
    forall i | 0 <= i < c.n ensures Forgotten(s.children[i], false) == s.children[i] {
      assert PollOf(c, s, i) == map[];
    }
    assert Forget(c, s, {}).children == s.children;
  }

  ghost predicate Waiters(c: Config, s: State, ahead: set<nat>)
    requires WellSized(c, s)
  {
    forall j :: j in ahead ==> j < c.n && !IsPub(j) && s.children[j].SubWait?
  }

  // ---- One move ---------------------------------------------------------------------------

  // Only its own entry changes when a child moves.
  lemma {:induction false} ForgetAfterChild(c: Config, s: State, i: nat, hint: nat, fail: bool, ahead: set<nat>)
    requires WellSized(c, s) && i < c.n
    ensures var s' := StepChild(c, s, i, hint, fail);
      Forget(c, s', ahead).children == Forget(c, s, ahead).children[i := Forgotten(s'.children[i], i in ahead)]
  {
    hide StepChild, Forgotten;
    ChildFrame(c, s, i, hint, fail);
  }

  // The same move from two states that agree on what the child sees.
  lemma {:induction false} SameMove(c: Config, s: State, t: State, i: nat, hint: nat, fail: bool)
    requires WellSized(c, s) && WellSized(c, t) && i < c.n
    requires t == s.(children := t.children, coord := t.coord) && t.children[i] == s.children[i]
    ensures var s' := StepChild(c, s, i, hint, fail);
      StepChild(c, t, i, hint, fail) ==
      s'.(children := t.children[i := s'.children[i]], coord := t.coord)
  {
    assert t.children[i := t.children[i]] == t.children;
  }

  // A move of a child is one move or none, unless it is a poll of Start that matches.
  lemma {:induction false} ChildMoveIsAtomic(c: Config, s: State, e: Event, ahead: set<nat>) returns (moves: bool)
    requires Inv(c, s) && e.mover < c.n && Waiters(c, s, ahead) && Waiters(c, Step(c, s, e), ahead)
    requires !(s.children[e.mover].SubWait? && Step(c, s, e).children[e.mover].SubInit?)
    ensures var before, after := Forget(c, s, ahead), Forget(c, Step(c, s, e), ahead);
      after == if moves then AtomicStep(c, before, e) else before
  {
    var i, s' := e.mover, Step(c, s, e);
    var before := Forget(c, s, ahead);
    ForgetAfterChild(c, s, i, e.hint, e.fail, ahead);
    if s.children[i].SubWait? || s.children[i].SubRun? {
      moves := PollIsAtomic(c, s, e, ahead);
    } else {
      hide StepChild, Forget;
      moves := true;
      ForgetKeeps(c, s, i, ahead);
      SameMove(c, s, before, i, e.hint, e.fail);
      PollsBeginFresh(c, s, i, e.hint, e.fail);
      ForgetKeeps(c, s', i, ahead);
      ChildFrame(c, s, i, e.hint, e.fail);
    }
  }

  lemma {:induction false} ForgetKeeps(c: Config, s: State, i: nat, ahead: set<nat>)
    requires WellSized(c, s) && i < c.n
    ensures var f := Forget(c, s, ahead);
      && f == s.(children := f.children, coord := Settled(c, s.coord))
      && f.children[i] == Forgotten(s.children[i], i in ahead)
  {
  }

  lemma {:induction false} PollsBeginFresh(c: Config, s: State, i: nat, hint: nat, fail: bool)
    requires WellSized(c, s) && i < c.n && !s.children[i].SubWait? && !s.children[i].SubRun?
    ensures var child := StepChild(c, s, i, hint, fail).children[i]; Forgotten(child, false) == child
  {
  }

  lemma {:induction false} PollIsAtomic(c: Config, s: State, e: Event, ahead: set<nat>) returns (moves: bool)
    requires Inv(c, s) && e.mover < c.n && Waiters(c, s, ahead) && Waiters(c, Step(c, s, e), ahead)
    requires s.children[e.mover].SubWait? || s.children[e.mover].SubRun?
    requires !(s.children[e.mover].SubWait? && Step(c, s, e).children[e.mover].SubInit?)
    ensures var before, after := Forget(c, s, ahead), Forget(c, Step(c, s, e), ahead);
      after == if moves then AtomicStep(c, before, e) else before
  {
    var i, s' := e.mover, Step(c, s, e);
    var before := Forget(c, s, ahead);
    assert ChildInv(c, s, i);
    assert s'.cells == s.cells;
    ForgetAfterChild(c, s, i, e.hint, e.fail, ahead);
    moves := s.children[i].SubRun? && s'.children[i].SubDump?;
    if moves {
      SubscriberStopIsThere(c, s, i);
    } else {
      assert before.children[i := before.children[i]] == before.children;
    }
  }

  // A subscriber's poll of Start that matches was ahead already.
  lemma {:induction false} MatchIsAhead(c: Config, s: State, e: Event, ahead: set<nat>)
    requires WellSized(c, s) && e.mover < c.n && e.mover !in ahead
    requires s.children[e.mover].SubWait? && Step(c, s, e).children[e.mover].SubInit?
    ensures Forget(c, Step(c, s, e), ahead) == Forget(c, s, ahead + {e.mover})
  {
    assert Forget(c, Step(c, s, e), ahead).children == Forget(c, s, ahead + {e.mover}).children;
  }

  lemma {:induction false} CoordMoveIsAtomic(c: Config, s: State, e: Event, ahead: set<nat>) returns (moves: bool)
    requires Inv(c, s) && e.mover >= c.n && Waiters(c, s, ahead)
    ensures var before, after := Forget(c, s, ahead), Forget(c, Step(c, s, e), ahead);
      after == if moves then AtomicStep(c, before, e) else before
  {
    var s' := Step(c, s, e);
    var before, after := Forget(c, s, ahead), Forget(c, s', ahead);
    CoordLeavesChildren(c, s, e.hint);
    assert after.children == before.children;
    match s.coord {
      case Scanning(i, count, got) =>
        assert !Missed(map[]);
        if i < c.n && IsPub(i) {
          moves := ScanMoveIsAtomic(c, s, e.hint);
        } else {
          moves := true;
        }
      case _ =>
        moves := true;
    }
  }

  // A fetch that settles the poll, or the comparison if none did, is the poll.
  lemma {:induction false} ScanMoveIsAtomic(c: Config, s: State, hint: nat) returns (moves: bool)
    requires Inv(c, s) && s.coord.Scanning? && s.coord.cell < c.n && IsPub(s.coord.cell)
    ensures var i, count := s.coord.cell, s.coord.count;
      Settled(c, StepCoordinator(c, s, hint).coord) ==
      if moves then Scanning(i + 1, if ReadsAs(s.cells[i], STOP) then count + 1 else count, map[])
      else Settled(c, s.coord)
    ensures moves ==> !Missed(s.coord.got)
  {
    var i, count, got := s.coord.cell, s.coord.count, s.coord.got;
    var s' := StepCoordinator(c, s, hint);
    assert !Missed(map[]);
    if Unread(got, STOP) != {} {
      var k := Pick(Unread(got, STOP), hint);
      var got' := s'.coord.got;
      assert forall m: nat :: m in got ==> m in got' && got'[m] == got[m];
      if Missed(got) {
        var m: nat :| m < |STOP| && m in got && got[m] != STOP[m];
        assert got'[m] != STOP[m];
        moves := false;
      } else if s.cells[i][k] != STOP[k] {
        assert got'[k] != STOP[k];
        moves := true;
      } else {
        assert !Missed(got');
        moves := false;
      }
    } else {
      forall k: nat | k < |STOP| ensures k in got {
        assert k !in Unread(got, STOP);
      }
      if Matches(got, STOP) {
        MatchedStopIsThere(c, s);
        moves := true;
      } else {
        assert Missed(got);
        moves := false;
      }
    }
  }

  // A subscriber whose cell reads Start may go ahead.
  lemma {:induction false} GoAhead(c: Config, s: State, ahead: set<nat>, j: nat)
    requires WellSized(c, s) && j < c.n && j !in ahead && s.children[j].SubWait? && ReadsAs(s.cells[j], START)
    ensures AtomicStep(c, Forget(c, s, ahead), Event(j, 0, false)) == Forget(c, s, ahead + {j})
  {
    assert AtomicStep(c, Forget(c, s, ahead), Event(j, 0, false)).children == Forget(c, s, ahead + {j}).children;
  }

  // ---- Whole runs ---------------------------------------------------------------------------

  ghost predicate AllSeen(c: Config, s: State, events: seq<Event>, ahead: set<nat>)
    requires WellSized(c, s)
  {
    forall j :: j in ahead ==> j < c.n && !IsPub(j) && SeenStart(c, s, events, j)
  }

  // Only the process that moves, or that whose cell is being stored, newly sees Start.
  lemma {:induction false} SeenBefore(c: Config, s: State, events: seq<Event>, j: nat)
    requires Inv(c, s) && events != [] && j < c.n && !IsPub(j) && SeenStart(c, s, events, j)
    ensures var prefix, e := events[..|events| - 1], events[|events| - 1];
      var t := Exec(c, s, prefix);
      || SeenStart(c, s, prefix, j)
      || (ReadsAs(Exec(c, s, events).cells[j], START)
          && (e.mover == j || (e.mover >= c.n && (t.coord.Starting? || t.coord.Stopping?) && t.coord.cell == j)))
  {
    hide ReadsAs;
    var prefix, e := events[..|events| - 1], events[|events| - 1];
    var t := Exec(c, s, prefix);
    if e.mover < c.n {
      ChildFrame(c, t, e.mover, e.hint, e.fail);
      InvAlways(c, s, prefix);
      assert ChildInv(c, t, e.mover);
    } else {
      CoordLeavesChildren(c, t, e.hint);
    }
  }

  // The subscriber that a move may let see Start.
  ghost function Affected(c: Config, t: State, e: Event): nat {
    if e.mover < c.n then e.mover
    else if t.coord.Starting? || t.coord.Stopping? then t.coord.cell else c.n
  }

  lemma {:induction false} SplitSeen(c: Config, s: State, events: seq<Event>, ahead: set<nat>)
    returns (known: set<nat>)
    requires Inv(c, s) && events != [] && AllSeen(c, s, events, ahead)
    ensures var prefix := events[..|events| - 1];
      var x := Affected(c, Exec(c, s, prefix), events[|events| - 1]);
      && AllSeen(c, s, prefix, known)
      && (ahead == known
          || (x in ahead && known == ahead - {x} && ReadsAs(Exec(c, s, events).cells[x], START)))
  {
    hide ReadsAs, Exec, SeenStart;
    var prefix := events[..|events| - 1];
    var x := Affected(c, Exec(c, s, prefix), events[|events| - 1]);
    forall j | j in ahead && j != x ensures SeenStart(c, s, prefix, j) {
      SeenBefore(c, s, events, j);
    }
    if x in ahead && !SeenStart(c, s, prefix, x) {
      SeenBefore(c, s, events, x);
      known := ahead - {x};
    } else {
      known := ahead;
    }
  }

  lemma {:induction false} SeenWaits(c: Config, s: State, events: seq<Event>, ahead: set<nat>)
    requires WellSized(c, s) && AllSeen(c, s, events, ahead)
    ensures Waiters(c, Exec(c, s, events), ahead)
  {
  }

  lemma {:induction false} OnlyOwnPollEnds(c: Config, s: State, events: seq<Event>, ahead: set<nat>)
    requires Inv(c, s) && events != [] && AllSeen(c, s, events, ahead)
    requires var prefix, e := events[..|events| - 1], events[|events| - 1];
      var t := Exec(c, s, prefix);
      e.mover < c.n && t.children[e.mover].SubWait? && Step(c, t, e).children[e.mover].SubInit?
      && PollOf(c, s, e.mover) == map[]
    ensures var prefix, e := events[..|events| - 1], events[|events| - 1];
      e.mover !in ahead && AllSeen(c, s, prefix, ahead + {e.mover})
  {
    hide Exec, StepCoordinator, ReadsAs, SeenStart;
    var prefix, e := events[..|events| - 1], events[|events| - 1];
    var t := Exec(c, s, prefix);
    assert prefix + [e] == events;
    ExecSnoc(c, s, prefix, e);
    SeenWaits(c, s, events, ahead);
    InvAlways(c, s, prefix);
    assert ChildInv(c, t, e.mover);
    MatchedHasSeen(c, s, prefix, e.mover);
    forall j | j in ahead ensures SeenStart(c, s, prefix, j) {
      SeenBefore(c, s, events, j);
    }
  }

  // After any run, and however many of the subscribers that have seen Start are let go
  // ahead, an atomic run has come to the same.
  lemma {:induction false} Simulates(c: Config, init: State, events: seq<Event>, ahead: set<nat>)
    returns (atomic: seq<Event>)
    requires Initial(c, init) && AllSeen(c, init, events, ahead)
    ensures AtomicExec(c, init, atomic) == Forget(c, Exec(c, init, events), ahead)
    decreases |events|
  {
    hide Step, AtomicStep, Forget, SeenStart, ChildInv, CoordInv, Initial, PollOf;
    InitialRests(c, init);
    if events == [] {
      SeenWaits(c, init, events, ahead);
      assert ahead == {};
      NothingToForget(c, init);
      atomic := [];
    } else {
      var prefix, e := events[..|events| - 1], events[|events| - 1];
      var s, t := Exec(c, init, prefix), Exec(c, init, events);
      InvAlways(c, init, prefix);
      if e.mover < c.n && s.children[e.mover].SubWait? && t.children[e.mover].SubInit? {
        OnlyOwnPollEnds(c, init, events, ahead);
        atomic := Simulates(c, init, prefix, ahead + {e.mover});
        MatchIsAhead(c, s, e, ahead);
      } else {
        var known := SplitSeen(c, init, events, ahead);
        var x := Affected(c, s, e);
        SeenWaits(c, init, prefix, known);
        SeenWaits(c, init, events, ahead);
        atomic := Simulates(c, init, prefix, known);
        var moves;
        if e.mover < c.n {
          moves := ChildMoveIsAtomic(c, s, e, known);
        } else {
          moves := CoordMoveIsAtomic(c, s, e, known);
        }
        if moves {
          AtomicSnoc(c, init, atomic, e);
          atomic := atomic + [e];
        }
        if known != ahead {
          GoAhead(c, t, known, x);
          AtomicSnoc(c, init, atomic, Event(x, 0, false));
          atomic := atomic + [Event(x, 0, false)];
          assert known + {x} == ahead;
        }
      }
    }
  }

  lemma {:induction false} InitialRests(c: Config, init: State)
    requires Initial(c, init)
    ensures Inv(c, init) && AtRest(c, init)
    ensures forall j :: 0 <= j < c.n ==> PollOf(c, init, j) == map[] && !init.children[j].SubWait?
  {
  }

  // ---- And back -------------------------------------------------------------------------------

  lemma {:induction false} WaitFetches(c: Config, s: State, j: nat, k: nat) returns (events: seq<Event>)
    requires WellSized(c, s) && j < c.n && s.children[j] == SubWait(map[]) && k <= |START|
    ensures Exec(c, s, events) == s.(children := s.children[j := SubWait(Fetched(s.cells[j], k))])
  {
    if k == 0 {
      events := [];
      assert Fetched(s.cells[j], 0) == map[];
    } else {
      events := WaitFetches(c, s, j, k - 1);
      var e, got := Event(j, k - 1, false), Fetched(s.cells[j], k - 1);
      ExecSnoc(c, s, events, e);
      assert k - 1 in Unread(got, START);
      assert got[k - 1 := s.cells[j][k - 1]] == Fetched(s.cells[j], k);
      events := events + [e];
    }
  }

  lemma {:induction false} RunFetches(c: Config, s: State, j: nat, k: nat) returns (events: seq<Event>)
    requires WellSized(c, s) && j < c.n && s.children[j] == SubRun(map[]) && k <= |STOP|
    ensures Exec(c, s, events) == s.(children := s.children[j := SubRun(Fetched(s.cells[j], k))])
  {
    if k == 0 {
      events := [];
      assert Fetched(s.cells[j], 0) == map[];
    } else {
      events := RunFetches(c, s, j, k - 1);
      var e, got := Event(j, k - 1, false), Fetched(s.cells[j], k - 1);
      ExecSnoc(c, s, events, e);
      assert k - 1 in Unread(got, STOP);
      assert got[k - 1 := s.cells[j][k - 1]] == Fetched(s.cells[j], k);
      events := events + [e];
    }
  }

  lemma {:induction false} FetchedWhole(cell: string, msg: string)
    requires |msg| <= |cell|
    ensures Unread(Fetched(cell, |msg|), msg) == {}
    ensures Matches(Fetched(cell, |msg|), msg) <==> ReadsAs(cell, msg)
  {
  }

  // A subscriber fetches all bytes and compares them, nobody else moving.
  lemma {:induction false} WholePoll(c: Config, s: State, e: Event) returns (events: seq<Event>)
    requires WellSized(c, s) && e.mover < c.n
    requires s.children[e.mover] == SubWait(map[]) || s.children[e.mover] == SubRun(map[])
    ensures Exec(c, s, events) == AtomicStep(c, s, e)
  {
    hide ReadsAs, Matches, Unread;
    var j := e.mover;
    var fetches;
    if s.children[j].SubWait? {
      fetches := WaitFetches(c, s, j, |START|);
      FetchedWhole(s.cells[j], START);
    } else {
      fetches := RunFetches(c, s, j, |STOP|);
      FetchedWhole(s.cells[j], STOP);
    }
    ExecSnoc(c, s, fetches, e);
    events := fetches + [e];
    assert s.children[j := s.children[j]] == s.children;
  }

  // An atomic move from a state at rest, byte by byte.
  lemma {:induction false} MoveByBytes(c: Config, s: State, e: Event) returns (events: seq<Event>)
    requires WellSized(c, s) && AtRest(c, s)
    ensures Exec(c, s, events) == AtomicStep(c, s, e)
  {
    hide Step, ReadsAs;
    if e.mover < c.n {
      assert PollOf(c, s, e.mover) == map[];
    } else {
      assert PollOf(c, s, c.n) == map[];
    }
    if e.mover < c.n && (s.children[e.mover].SubWait? || s.children[e.mover].SubRun?) {
      events := WholePoll(c, s, e);
    } else if e.mover >= c.n && s.coord.Scanning? && s.coord.cell < c.n && IsPub(s.coord.cell) {
      events := ScanCell(c, s, s.coord.cell, s.coord.count);
    } else {
      ExecSnoc(c, s, [], e);
      assert [] + [e] == [e];
      events := [e];
    }
  }

  lemma {:induction false} AtomicRests(c: Config, s: State, e: Event)
    requires WellSized(c, s) && AtRest(c, s)
    ensures AtRest(c, AtomicStep(c, s, e))
  {
    var s' := AtomicStep(c, s, e);
    forall reader | 0 <= reader <= c.n ensures PollOf(c, s', reader) == map[] {
      assert PollOf(c, s, reader) == map[];
      if e.mover < c.n {
        ChildFrame(c, s, e.mover, e.hint, e.fail);
      }
    }
  }

  lemma {:induction false} ByBytes(c: Config, s: State, atomic: seq<Event>) returns (events: seq<Event>)
    requires WellSized(c, s) && AtRest(c, s)
    ensures Exec(c, s, events) == AtomicExec(c, s, atomic) && AtRest(c, AtomicExec(c, s, atomic))
    decreases |atomic|
  {
    hide AtomicStep, AtRest, Exec;
    if atomic == [] {
      events := [];
      assert Exec(c, s, []) == s by { ExecNothing(c, s); }
    } else {
      var prefix, e := atomic[..|atomic| - 1], atomic[|atomic| - 1];
      events := ByBytes(c, s, prefix);
      var t := AtomicExec(c, s, prefix);
      var more := MoveByBytes(c, t, e);
      AtomicRests(c, t, e);
      ExecConcat(c, s, events, more);
      events := events + more;
    }
  }

  lemma {:induction false} ExecNothing(c: Config, s: State)
    requires WellSized(c, s)
    ensures Exec(c, s, []) == s
  {
  }

  // Main result: the protocol that polls byte by byte and the one that polls in single
  // steps reach the same states, leaving aside those in which a poll is in progress.
  lemma {:induction false} AtomicExactly(c: Config, init: State, t: State)
    requires Initial(c, init) && WellSized(c, t) && AtRest(c, t)
    ensures (exists events :: Exec(c, init, events) == t) <==> (exists atomic :: AtomicExec(c, init, atomic) == t)
  {
    hide Exec, AtomicExec, Forget;
    if events :| Exec(c, init, events) == t {
      var atomic := Simulates(c, init, events, {});
      NothingToForget(c, t);
      assert AtomicExec(c, init, atomic) == t;
    }
    if atomic :| AtomicExec(c, init, atomic) == t {
      InitialRests(c, init);
      var events := ByBytes(c, init, atomic);
      assert Exec(c, init, events) == t;
    }
  }
}
