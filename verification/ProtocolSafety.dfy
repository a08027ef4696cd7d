/**
 Safety of the Start/Stop protocol: an inductive invariant of every run, and what
 it says about stopping subscribers and about polls.
 */
module ProtocolSafety {
  import opened Protocol

  // Publisher i has stored byte k of its Stop.
  ghost predicate PubWrote(child: Child, k: nat) {
    child == Exited(true) || (child.PubStop? && k !in child.pending)
  }

  ghost predicate PubBegun(child: Child) {
    child == Exited(true) || child.PubStop?
  }

  // The subscriber has fetched byte k of Start, in the poll in progress or in the
  // one that let it through.
  ghost predicate SawStart(child: Child, k: nat)
    requires k < |START|
  {
    match child
    case SubWait(got) => k in got && got[k] == START[k]
    case SubInit => true
    case SubRun(_) => true
    case SubDump => true
    case Exited(handshake) => handshake
    case _ => false
  }

  ghost predicate PubInv(c: Config, s: State, i: nat)
    requires WellSized(c, s) && i < c.n
  {
    var child, cell := s.children[i], s.cells[i];
    && (child.PubSetup? || child.PubSend? || child.PubStop? || child.Exited?)
    && (child.PubSetup? ==> s.sent[i] == 0)
    && s.sent[i] <= c.total
    && (PubBegun(child) ==> PubWorkDone(c, s, i))
    && (forall k: nat :: k < |START| && StartWrote(s.coord, i, k) ==>
          cell[k] == START[k] || (k < |STOP| && cell[k] == STOP[k] && PubWrote(child, k)))
  }

  ghost predicate SubInv(c: Config, s: State, j: nat)
    requires WellSized(c, s) && j < c.n
  {
    var child, cell := s.children[j], s.cells[j];
    && (child.SubSetup? || child.SubWait? || child.SubInit? || child.SubRun? || child.SubDump? || child.Exited?)
    && (forall k: nat :: k < |START| && StartWrote(s.coord, j, k) ==>
          cell[k] == (if k < |STOP| && StopWrote(s.coord, j, k) then STOP[k] else START[k]))
    && (forall k: nat :: k < |STOP| && SawStart(child, k) && !StopWrote(s.coord, j, k) ==>
          cell[k] == START[k])
    && (forall k: nat :: k < |STOP| && START[k] != STOP[k] ==>
          && (child.SubRun? && k in child.got && child.got[k] == STOP[k] ==> StopWrote(s.coord, j, k))
          && (child.SubDump? || child == Exited(true) ==> StopWrote(s.coord, j, k)))
  }

  ghost predicate ChildInv(c: Config, s: State, i: nat)
    requires WellSized(c, s) && i < c.n
  {
    if IsPub(i) then PubInv(c, s, i) else SubInv(c, s, i)
  }

  // Publishers among the first i children.
  function PubsBelow(i: nat): nat {
    (i + 1) / 2
  }

  ghost predicate PubCellsReadStop(c: Config, s: State, bound: nat)
    requires WellSized(c, s)
  {
    forall i :: 0 <= i < bound && i < c.n && IsPub(i) ==> ReadsAs(s.cells[i], STOP)
  }

  // A scan that has counted max_process / 2 has counted every publisher, unless the
  // number of children is odd.
  ghost predicate AllCounted(c: Config, s: State)
    requires WellSized(c, s)
  {
    c.n % 2 == 0 ==> PubCellsReadStop(c, s, c.n)
  }

  ghost predicate CoordInv(c: Config, s: State)
    requires WellSized(c, s)
  {
    match s.coord
    case Starting(_, _) => true
    case Scanning(i, count, got) =>
      && i <= c.n
      && count <= PubsBelow(i)
      && (count == PubsBelow(i) ==> PubCellsReadStop(c, s, i))
      && (i < c.n && IsPub(i) ==>
            forall k: nat :: k < |STOP| && k in got && got[k] == STOP[k] ==> s.cells[i][k] == STOP[k])
    case Stopping(_, _) => AllCounted(c, s)
    case Waiting(i) => AllCounted(c, s) && i <= c.n && forall j :: 0 <= j < i ==> s.children[j].Exited?
    case Done => AllCounted(c, s) && forall j :: 0 <= j < c.n ==> s.children[j].Exited?
  }

  ghost predicate Inv(c: Config, s: State) {
    && WellSized(c, s)
    && (forall i :: 0 <= i < c.n ==> ChildInv(c, s, i))
    && CoordInv(c, s)
  }

  lemma {:induction false} InitialInv(c: Config, s: State)
    requires Initial(c, s)
    ensures Inv(c, s)
  {
  }

  // What one move of a child leaves alone.
  lemma {:induction false} ChildFrame(c: Config, s: State, i: nat, hint: nat, fail: bool)
    requires WellSized(c, s) && i < c.n
    ensures var s' := StepChild(c, s, i, hint, fail);
      && s'.coord == s.coord
      && (forall j :: 0 <= j < c.n && j != i ==>
            s'.cells[j] == s.cells[j] && s'.children[j] == s.children[j]
            && s'.sent[j] == s.sent[j] && s'.flushed[j] == s.flushed[j])
      && (!s.children[i].PubStop? ==> s'.cells[i] == s.cells[i])
  {
  }

  lemma {:induction false} ChildStepKeepsChild(c: Config, s: State, i: nat, hint: nat, fail: bool)
    requires WellSized(c, s) && i < c.n && ChildInv(c, s, i)
    ensures ChildInv(c, StepChild(c, s, i, hint, fail), i)
  {
    if IsPub(i) {
      PubStepKeepsPub(c, s, i, hint, fail);
    } else {
      SubStepKeepsSub(c, s, i, hint, fail);
    }
  }

  lemma {:induction false} PubStepKeepsPub(c: Config, s: State, i: nat, hint: nat, fail: bool)
    requires WellSized(c, s) && i < c.n && PubInv(c, s, i)
    ensures PubInv(c, StepChild(c, s, i, hint, fail), i)
  {
    var s' := StepChild(c, s, i, hint, fail);
    if s.children[i].PubStop? && s.children[i].pending != {} {
      var k := Pick(s.children[i].pending, hint);
      assert k in Positions(STOP);
      assert s'.cells[i] == s.cells[i][k := STOP[k]];
    }
  }

  lemma {:induction false} SubStepKeepsSub(c: Config, s: State, j: nat, hint: nat, fail: bool)
    requires WellSized(c, s) && j < c.n && SubInv(c, s, j)
    ensures SubInv(c, StepChild(c, s, j, hint, fail), j)
  {
    var s' := StepChild(c, s, j, hint, fail);
    assert s'.cells == s.cells && s'.coord == s.coord;
    if s.children[j].SubRun? && Unread(s.children[j].got, STOP) == {} && Matches(s.children[j].got, STOP) {
      forall k: nat | k < |STOP| ensures k in s.children[j].got && s.children[j].got[k] == STOP[k] {}
    }
  }

  // A publisher only ever stores bytes of Stop.
  lemma {:induction false} ChildStepKeepsCoord(c: Config, s: State, i: nat, hint: nat, fail: bool)
    requires Inv(c, s) && i < c.n
    ensures CoordInv(c, StepChild(c, s, i, hint, fail))
  {
    var s' := StepChild(c, s, i, hint, fail);
    ChildFrame(c, s, i, hint, fail);
    assert ChildInv(c, s, i);
    if s.children[i].PubStop? && s.children[i].pending != {} {
      var k := Pick(s.children[i].pending, hint);
      assert k in Positions(STOP);
      assert s'.cells[i] == s.cells[i][k := STOP[k]];
      assert IsPub(i);
      assert forall j :: 0 <= j < c.n && ReadsAs(s.cells[j], STOP) ==> ReadsAs(s'.cells[j], STOP);
    } else {
      assert s'.cells == s.cells;
    }
  }

  lemma {:induction false} CoordStepKeepsChild(c: Config, s: State, hint: nat, i: nat)
    requires WellSized(c, s) && i < c.n && ChildInv(c, s, i)
    ensures ChildInv(c, StepCoordinator(c, s, hint), i)
  {
    hide StepCoordinator, PubInv, SubInv;
    if IsPub(i) {
      CoordStepKeepsPub(c, s, hint, i);
    } else {
      CoordStepKeepsSub(c, s, hint, i);
    }
  }

  lemma {:induction false} CoordStepKeepsPub(c: Config, s: State, hint: nat, i: nat)
    requires WellSized(c, s) && i < c.n && IsPub(i) && PubInv(c, s, i)
    ensures PubInv(c, StepCoordinator(c, s, hint), i)
  {
    if s.coord.Starting? && s.coord.cell < c.n && s.coord.pending != {} {
      assert Pick(s.coord.pending, hint) in Positions(START);
    }
  }

  lemma {:induction false} CoordStepKeepsSub(c: Config, s: State, hint: nat, i: nat)
    requires WellSized(c, s) && i < c.n && !IsPub(i) && SubInv(c, s, i)
    ensures SubInv(c, StepCoordinator(c, s, hint), i)
  {
    if s.coord.Stopping? {
      StoppingKeepsSub(c, s, hint, i);
    } else if s.coord.Starting? && s.coord.cell < c.n && s.coord.pending != {} {
      assert Pick(s.coord.pending, hint) in Positions(START);
    }
  }

  lemma {:induction false} StoppingKeepsSub(c: Config, s: State, hint: nat, i: nat)
    requires WellSized(c, s) && i < c.n && !IsPub(i) && SubInv(c, s, i) && s.coord.Stopping?
    ensures SubInv(c, StepCoordinator(c, s, hint), i)
  {
    if s.coord.cell < c.n && !IsPub(s.coord.cell) && s.coord.pending != {} {
      assert Pick(s.coord.pending, hint) in Positions(STOP);
    }
  }

  lemma {:induction false} CoordStepKeepsCoord(c: Config, s: State, hint: nat)
    requires Inv(c, s)
    ensures CoordInv(c, StepCoordinator(c, s, hint))
  {
    var s' := StepCoordinator(c, s, hint);
    match s.coord {
      case Scanning(i, count, got) =>
        if i >= c.n {
        } else if !IsPub(i) {
          assert PubsBelow(i + 1) == PubsBelow(i);
        } else if Unread(got, STOP) != {} {
        } else {
          assert PubsBelow(i + 1) == PubsBelow(i) + 1;
          if Matches(got, STOP) {
            MatchedStopIsThere(c, s);
          }
        }
      case _ =>
    }
  }

  // Polls of a publisher's cell: when the coordinator counts a Stop, the cell as a
  // whole reads Stop at that instant, however the fetches and the writes overlapped.
  lemma {:induction false} MatchedStopIsThere(c: Config, s: State)
    requires Inv(c, s)
    requires s.coord.Scanning? && s.coord.cell < c.n && IsPub(s.coord.cell) && Matches(s.coord.got, STOP)
    ensures ReadsAs(s.cells[s.coord.cell], STOP)
  {
    var cell := s.cells[s.coord.cell];
    assert forall k: nat :: k < |STOP| ==> cell[k] == STOP[k];
    assert STOP <= cell;
  }

  lemma {:induction false} StepKeepsInv(c: Config, s: State, e: Event)
    requires Inv(c, s)
    ensures Inv(c, Step(c, s, e))
  {
    var s' := Step(c, s, e);
    if e.mover < c.n {
      ChildFrame(c, s, e.mover, e.hint, e.fail);
      assert ChildInv(c, s, e.mover);
      ChildStepKeepsChild(c, s, e.mover, e.hint, e.fail);
      forall i | 0 <= i < c.n ensures ChildInv(c, s', i) {
        assert ChildInv(c, s, i);
      }
      ChildStepKeepsCoord(c, s, e.mover, e.hint, e.fail);
    } else {
      forall i | 0 <= i < c.n ensures ChildInv(c, s', i) {
        assert ChildInv(c, s, i);
        CoordStepKeepsChild(c, s, e.hint, i);
      }
      CoordStepKeepsCoord(c, s, e.hint);
    }
  }

  lemma {:induction false} InvAlways(c: Config, s: State, events: seq<Event>)
    requires Inv(c, s)
    ensures Inv(c, Exec(c, s, events))
    decreases |events|
  {
    if events == [] {
    } else {
      InvAlways(c, s, events[..|events| - 1]);
      StepKeepsInv(c, Exec(c, s, events[..|events| - 1]), events[|events| - 1]);
    }
  }

  // The invariant says that a stopped subscriber means finished publishers.
  lemma {:induction false} InvIsSafe(c: Config, s: State)
    requires Inv(c, s) && c.n % 2 == 0
    ensures Safe(c, s)
  {
    if j :| 0 <= j < c.n && StopReached(c, s, j) {
      assert ChildInv(c, s, j);
      assert StopWrote(s.coord, j, 2) || StopBegun(s.coord, j) by {
        assert START[2] != STOP[2];
      }
      assert s.coord.Stopping? || s.coord.Waiting? || s.coord.Done?;
      forall i | 0 <= i < c.n && IsPub(i) ensures PubWorkDone(c, s, i) {
        assert ChildInv(c, s, i);
        assert s.cells[i][2] == STOP[2] != START[2] by {
          assert ReadsAs(s.cells[i], STOP);
        }
        assert StartWrote(s.coord, i, 2);
      }
    }
  }

  // Main result: with an even number of children, whatever the cells held before
  // and however the processes interleave, no subscriber is told to stop, or leaves
  // its run loop, before every publisher has made all its sends and written its
  // results.
  lemma {:induction false} SafetyForEvenCounts(c: Config, init: State, events: seq<Event>)
    requires Initial(c, init) && c.n % 2 == 0
    ensures Safe(c, Exec(c, init, events))
  {
    InitialInv(c, init);
    InvAlways(c, init, events);
    InvIsSafe(c, Exec(c, init, events));
  }
}
