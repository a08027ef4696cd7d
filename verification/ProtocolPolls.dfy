/**
 Torn messages never fake a signal.  A poll is assembled from bytes fetched one at
 a time while the cell is being overwritten; nevertheless the outcome of every poll,
 whether it matches or not, is that of one instant, inside the poll, at which the cell
 as a whole read as the message, or did not, as if the cell were read in a single step
 at that instant.  (ProtocolAtomic puts such steps together to whole runs.)
 */
module ProtocolPolls {
  import opened Protocol
  import opened ProtocolSafety

  // The poll in progress of a process; the coordinator is any number from c.n.
  ghost function PollOf(c: Config, s: State, reader: nat): Poll
    requires WellSized(c, s)
  {
    if reader >= c.n then (if s.coord.Scanning? then s.coord.got else map[])
    else
      match s.children[reader]
      case SubWait(got) => got
      case SubRun(got) => got
      case _ => map[]
  }

  // The cell that it is a poll of.
  ghost function CellOf(c: Config, s: State, reader: nat): nat
    requires WellSized(c, s)
  {
    if reader >= c.n && s.coord.Scanning? then s.coord.cell else reader
  }

  // At some instant of the run so far the cell of i read as msg, or did not.
  ghost predicate AtSomeInstant(c: Config, s: State, events: seq<Event>, i: nat, msg: string, outcome: bool)
    requires WellSized(c, s) && i < c.n
  {
    exists p: nat :: p <= |events| && ReadsAs(Exec(c, s, events[..p]).cells[i], msg) == outcome
  }

  // ---- Polls that do not match ----------------------------------------------------

  ghost predicate HeldOnce(c: Config, s: State, events: seq<Event>, i: nat, k: nat, b: char)
    requires WellSized(c, s) && i < c.n && k < SIZE
  {
    exists p: nat :: p <= |events| && Exec(c, s, events[..p]).cells[i][k] == b
  }

  ghost predicate AllHeldOnce(c: Config, s: State, events: seq<Event>, i: nat, got: Poll)
    requires WellSized(c, s)
  {
    forall k :: k in got ==> i < c.n && k < SIZE && HeldOnce(c, s, events, i, k, got[k])
  }

  // One move leaves a poll alone, drops it, or adds a byte of the cell as it is.
  lemma {:induction false} PollMoves(c: Config, t: State, e: Event, reader: nat)
    requires WellSized(c, t)
    ensures var t' := Step(c, t, e);
      var got, got', i := PollOf(c, t, reader), PollOf(c, t', reader), CellOf(c, t, reader);
      || got' == map[]
      || (CellOf(c, t', reader) == i
          && forall k :: k in got' ==>
               (k in got && got'[k] == got[k]) || (k < SIZE && i < c.n && got'[k] == t.cells[i][k]))
  {
    if reader < c.n && e.mover < c.n && e.mover != reader {
      ChildFrame(c, t, e.mover, e.hint, e.fail);
    }
  }

  lemma {:induction false} HeldLater(c: Config, s: State, events: seq<Event>, e: Event, i: nat, k: nat, b: char)
    requires WellSized(c, s) && i < c.n && k < SIZE && HeldOnce(c, s, events, i, k, b)
    ensures HeldOnce(c, s, events + [e], i, k, b)
  {
    hide Exec;
    var p: nat :| p <= |events| && Exec(c, s, events[..p]).cells[i][k] == b;
    assert (events + [e])[..p] == events[..p];
  }

  lemma {:induction false} HeldNow(c: Config, s: State, events: seq<Event>, e: Event, i: nat, k: nat)
    requires WellSized(c, s) && i < c.n && k < SIZE
    ensures HeldOnce(c, s, events + [e], i, k, Exec(c, s, events).cells[i][k])
  {
    hide Exec;
    assert (events + [e])[..|events|] == events;
  }

  lemma {:induction false} HeldAlways(c: Config, s: State, events: seq<Event>, reader: nat)
    requires WellSized(c, s) && PollOf(c, s, reader) == map[]
    ensures var t := Exec(c, s, events); AllHeldOnce(c, s, events, CellOf(c, t, reader), PollOf(c, t, reader))
    decreases |events|
  {
    hide Step, HeldOnce, PollOf, CellOf;
    if events == [] {
    } else {
      var prefix, e := events[..|events| - 1], events[|events| - 1];
      HeldAlways(c, s, prefix, reader);
      assert events == prefix + [e];
      var t, t' := Exec(c, s, prefix), Exec(c, s, events);
      PollMoves(c, t, e, reader);
      var i, got := CellOf(c, t', reader), PollOf(c, t', reader);
      forall k | k in got ensures i < c.n && k < SIZE && HeldOnce(c, s, events, i, k, got[k]) {
        if k in PollOf(c, t, reader) && got[k] == PollOf(c, t, reader)[k] {
          HeldLater(c, s, prefix, e, i, k, got[k]);
        } else {
          HeldNow(c, s, prefix, e, i, k);
        }
      }
    }
  }

  // A byte that does not fit was in the cell when it was fetched.
  lemma {:induction false} MismatchHasAnInstant(c: Config, s: State, events: seq<Event>, reader: nat, msg: string)
    requires WellSized(c, s) && PollOf(c, s, reader) == map[] && |msg| <= SIZE
    requires var t := Exec(c, s, events);
      CellOf(c, t, reader) < c.n && Unread(PollOf(c, t, reader), msg) == {} && !Matches(PollOf(c, t, reader), msg)
    ensures AtSomeInstant(c, s, events, CellOf(c, Exec(c, s, events), reader), msg, false)
  {
    var t := Exec(c, s, events);
    var i, got := CellOf(c, t, reader), PollOf(c, t, reader);
    HeldAlways(c, s, events, reader);
    var k: nat :| k < |msg| && !(k in got && got[k] == msg[k]);
    assert k !in Unread(got, msg);
    assert HeldOnce(c, s, events, i, k, got[k]);
    var p: nat :| p <= |events| && Exec(c, s, events[..p]).cells[i][k] == got[k];
    assert !ReadsAs(Exec(c, s, events[..p]).cells[i], msg);
  }

  // ---- Polls for Stop --------------------------------------------------------------

  // A subscriber that leaves its run loop: at that instant its cell reads Stop and
  // every byte in which Stop differs from Start has been stored by the coordinator.
  lemma {:induction false} SubscriberStopIsThere(c: Config, s: State, j: nat)
    requires Inv(c, s) && j < c.n && !IsPub(j)
    requires s.children[j].SubRun? && Matches(s.children[j].got, STOP)
    ensures ReadsAs(s.cells[j], STOP) && StopBegun(s.coord, j)
  {
    assert SubInv(c, s, j) by { assert ChildInv(c, s, j); }
    var cell := s.cells[j];
    forall k: nat | k < |STOP| ensures cell[k] == STOP[k] {
      assert StartWrote(s.coord, j, k) by {
        assert START[2] != STOP[2];
        assert StopWrote(s.coord, j, 2);
      }
    }
    assert StopWrote(s.coord, j, 2) && 2 in Positions(STOP) by {
      assert START[2] != STOP[2];
    }
  }

  // The scan's poll of a publisher's cell: begun in s, and complete after `events`.
  lemma {:induction false} ScanPollHasAnInstant(c: Config, s: State, events: seq<Event>)
    requires Inv(c, s) && PollOf(c, s, c.n) == map[]
    requires var t := Exec(c, s, events);
      t.coord.Scanning? && t.coord.cell < c.n && IsPub(t.coord.cell) && Unread(t.coord.got, STOP) == {}
    ensures var t := Exec(c, s, events);
      AtSomeInstant(c, s, events, t.coord.cell, STOP, Matches(t.coord.got, STOP))
  {
    var t := Exec(c, s, events);
    if Matches(t.coord.got, STOP) {
      InvAlways(c, s, events);
      MatchedStopIsThere(c, t);
      assert events[..|events|] == events;
    } else {
      MismatchHasAnInstant(c, s, events, c.n, STOP);
    }
  }

  // The poll of a subscriber in its run loop.
  lemma {:induction false} StopPollHasAnInstant(c: Config, s: State, events: seq<Event>, j: nat)
    requires Inv(c, s) && j < c.n && !IsPub(j) && PollOf(c, s, j) == map[]
    requires var t := Exec(c, s, events); t.children[j].SubRun? && Unread(t.children[j].got, STOP) == {}
    ensures AtSomeInstant(c, s, events, j, STOP, Matches(Exec(c, s, events).children[j].got, STOP))
  {
    var t := Exec(c, s, events);
    if Matches(t.children[j].got, STOP) {
      InvAlways(c, s, events);
      SubscriberStopIsThere(c, t, j);
      assert events[..|events|] == events;
    } else {
      MismatchHasAnInstant(c, s, events, j, STOP);
    }
  }

  // ---- Polls for Start --------------------------------------------------------------

  // Subscriber j polls for Start, and in the poll in progress its cell has read so.
  ghost predicate SeenStart(c: Config, s: State, events: seq<Event>, j: nat)
    requires WellSized(c, s) && j < c.n
    decreases |events|
  {
    var t := Exec(c, s, events);
    && t.children[j].SubWait?
    && (ReadsAs(t.cells[j], START)
        || (events != [] && SeenStart(c, s, events[..|events| - 1], j)
            && (events[|events| - 1].mover == j ==> t.children[j].got != map[])))
  }

  lemma {:induction false} SeenHasAnInstant(c: Config, s: State, events: seq<Event>, j: nat)
    requires WellSized(c, s) && j < c.n && SeenStart(c, s, events, j)
    ensures AtSomeInstant(c, s, events, j, START, true)
    decreases |events|
  {
    if ReadsAs(Exec(c, s, events).cells[j], START) {
      assert events[..|events|] == events;
    } else {
      var prefix := events[..|events| - 1];
      SeenHasAnInstant(c, s, prefix, j);
      var p: nat :| p <= |prefix| && ReadsAs(Exec(c, s, prefix[..p]).cells[j], START);
      assert prefix[..p] == events[..p];
    }
  }

  // Some byte of Stop is in place and the poll has not fetched that byte of Start.
  ghost predicate Doomed(coord: Coordinator, j: nat, got: Poll) {
    exists k: nat :: k < |STOP| && START[k] != STOP[k] && StopWrote(coord, j, k)
                     && !(k in got && got[k] == START[k])
  }

  // Stop has changed nothing yet, and what was fetched of Start is still there.
  ghost predicate StillThere(coord: Coordinator, cell: string, j: nat, got: Poll)
    requires |cell| == SIZE
  {
    && (forall k: nat :: k < |STOP| && START[k] != STOP[k] ==> !StopWrote(coord, j, k))
    && (forall k: nat :: k < |START| && k in got && got[k] == START[k] ==> cell[k] == START[k])
  }

  // The first byte of Stop that differs from Start overwrites a complete Start.
  lemma {:induction false} CompleteBeforeStop(c: Config, s: State, j: nat, hint: nat)
    requires WellSized(c, s) && j < c.n && !IsPub(j) && SubInv(c, s, j)
    requires forall k: nat :: k < |STOP| && START[k] != STOP[k] ==> !StopWrote(s.coord, j, k)
    requires exists k: nat :: k < |STOP| && START[k] != STOP[k]
                              && StopWrote(StepCoordinator(c, s, hint).coord, j, k)
    ensures ReadsAs(s.cells[j], START)
  {
    assert START[2] != STOP[2];
    var cell := s.cells[j];
    assert s.coord.Stopping?;
    forall k: nat | k < |START| ensures cell[k] == START[k] {
      assert StartWrote(s.coord, j, k);
    }
  }

  // How things stand with a poll for Start, apart from the past.
  ghost predicate Standing(t: State, j: nat)
    requires j < |t.cells| == |t.children| && |t.cells[j]| == SIZE
  {
    t.children[j].SubWait? ==>
      || Doomed(t.coord, j, t.children[j].got)
      || StillThere(t.coord, t.cells[j], j, t.children[j].got)
  }

  ghost predicate Tracked(c: Config, s: State, events: seq<Event>, j: nat)
    requires WellSized(c, s) && j < c.n
  {
    SeenStart(c, s, events, j) || Standing(Exec(c, s, events), j)
  }

  lemma {:induction false} OwnMoveStands(c: Config, t: State, j: nat, hint: nat, fail: bool)
    requires WellSized(c, t) && j < c.n && !IsPub(j) && SubInv(c, t, j) && t.children[j].SubWait? && Standing(t, j)
    ensures Standing(StepChild(c, t, j, hint, fail), j)
  {
    var t' := StepChild(c, t, j, hint, fail);
    assert t'.coord == t.coord && t'.cells == t.cells;
  }

  lemma {:induction false} CoordMoveStands(c: Config, t: State, j: nat, hint: nat)
    requires WellSized(c, t) && j < c.n && !IsPub(j) && SubInv(c, t, j) && t.children[j].SubWait? && Standing(t, j)
    ensures Standing(StepCoordinator(c, t, hint), j) || ReadsAs(t.cells[j], START)
  {
    var t' := StepCoordinator(c, t, hint);
    var got := t.children[j].got;
    if Doomed(t.coord, j, got) {
      var k: nat :| k < |STOP| && START[k] != STOP[k] && StopWrote(t.coord, j, k) && !(k in got && got[k] == START[k]);
      assert StopWrote(t'.coord, j, k);
    } else if exists k: nat :: k < |STOP| && START[k] != STOP[k] && StopWrote(t'.coord, j, k) {
      CompleteBeforeStop(c, t, j, hint);
    }
  }

  // A poll for Start that begins.
  lemma {:induction false} BeginningStands(t: State, j: nat)
    requires j < |t.cells| == |t.children| && |t.cells[j]| == SIZE
    requires t.children[j].SubWait? ==> t.children[j].got == map[]
    ensures Standing(t, j)
  {
    if exists k: nat :: k < |STOP| && START[k] != STOP[k] && StopWrote(t.coord, j, k) {
      assert Doomed(t.coord, j, map[]);
    }
  }

  lemma {:induction false} TrackedStep(c: Config, s: State, events: seq<Event>, e: Event, j: nat)
    requires Inv(c, s) && j < c.n && !IsPub(j)
    requires Tracked(c, s, events, j)
    ensures Tracked(c, s, events + [e], j)
  {
    hide StepChild, StepCoordinator, ChildInv, CoordInv, Doomed, StillThere, Exec;
    var t := Exec(c, s, events);
    ExecSnoc(c, s, events, e);
    var t' := Exec(c, s, events + [e]);
    InvAlways(c, s, events);
    InvGives(c, t, j);
    assert (events + [e])[..|events|] == events;
    if !t.children[j].SubWait? || (e.mover == j && t'.children[j].SubWait? && t'.children[j].got == map[]) {
      if !t.children[j].SubWait? { WaitBegins(c, t, e, j); }
      BeginningStands(t', j);
    } else if e.mover == j {
      if !SeenStart(c, s, events, j) { OwnMoveStands(c, t, j, e.hint, e.fail); }
    } else if e.mover < c.n {
      ChildFrame(c, t, e.mover, e.hint, e.fail);
    } else {
      CoordLeavesChildren(c, t, e.hint);
      if !SeenStart(c, s, events, j) { CoordMoveStands(c, t, j, e.hint); }
    }
  }

  lemma {:induction false} CoordLeavesChildren(c: Config, t: State, hint: nat)
    requires WellSized(c, t)
    ensures StepCoordinator(c, t, hint).children == t.children
  {
  }

  lemma {:induction false} WaitBegins(c: Config, t: State, e: Event, j: nat)
    requires WellSized(c, t) && j < c.n && !IsPub(j) && SubInv(c, t, j) && !t.children[j].SubWait?
    ensures var t' := Step(c, t, e); t'.children[j].SubWait? ==> t'.children[j].got == map[]
  {
    if e.mover < c.n {
      ChildFrame(c, t, e.mover, e.hint, e.fail);
    }
  }

  lemma {:induction false} InvGives(c: Config, s: State, j: nat)
    requires Inv(c, s) && j < c.n && !IsPub(j)
    ensures SubInv(c, s, j)
  {
    assert ChildInv(c, s, j);
  }

  lemma {:induction false} TrackedAlways(c: Config, s: State, events: seq<Event>, j: nat)
    requires Inv(c, s) && j < c.n && !IsPub(j) && PollOf(c, s, j) == map[]
    ensures Tracked(c, s, events, j)
    decreases |events|
  {
    if events == [] {
      BeginningStands(s, j);
    } else {
      var prefix, e := events[..|events| - 1], events[|events| - 1];
      TrackedAlways(c, s, prefix, j);
      TrackedStep(c, s, prefix, e, j);
      assert prefix + [e] == events;
    }
  }

  // A poll that matches has seen Start.
  lemma {:induction false} MatchedHasSeen(c: Config, s: State, events: seq<Event>, j: nat)
    requires Inv(c, s) && j < c.n && !IsPub(j) && PollOf(c, s, j) == map[]
    requires var t := Exec(c, s, events); t.children[j].SubWait? && Matches(t.children[j].got, START)
    ensures SeenStart(c, s, events, j)
  {
    hide Exec;
    TrackedAlways(c, s, events, j);
    var t := Exec(c, s, events);
    if !SeenStart(c, s, events, j) {
      StillThereReads(t, j);
    }
  }

  lemma {:induction false} StillThereReads(t: State, j: nat)
    requires j < |t.cells| == |t.children| && |t.cells[j]| == SIZE
    requires t.children[j].SubWait? && Matches(t.children[j].got, START) && Standing(t, j)
    ensures ReadsAs(t.cells[j], START)
  {
    var got := t.children[j].got;
    assert !Doomed(t.coord, j, got);
    assert forall k: nat :: k < |START| ==> t.cells[j][k] == START[k];
  }

  // Main result on polls of Start: from a state s in which subscriber j begins a
  // poll, if the poll is complete after `events`, then at one of the instants in
  // between the cell as a whole read Start if it matches, and did not if it does not.
  lemma {:induction false} StartPollHasAnInstant(c: Config, s: State, events: seq<Event>, j: nat)
    requires Inv(c, s) && j < c.n && !IsPub(j) && PollOf(c, s, j) == map[]
    requires var t := Exec(c, s, events); t.children[j].SubWait? && Unread(t.children[j].got, START) == {}
    ensures AtSomeInstant(c, s, events, j, START, Matches(Exec(c, s, events).children[j].got, START))
  {
    if Matches(Exec(c, s, events).children[j].got, START) {
      MatchedHasSeen(c, s, events, j);
      SeenHasAnInstant(c, s, events, j);
    } else {
      MismatchHasAnInstant(c, s, events, j, START);
    }
  }

  // ---- Cells that start out zeroed -----------------------------------------

  ghost predicate Blank(cells: seq<string>) {
    forall i :: 0 <= i < |cells| ==> |cells[i]| == SIZE && forall k :: 0 <= k < SIZE ==> cells[i][k] == '\0'
  }

  // Whatever a subscriber's cell holds has been put there by the coordinator.
  ghost predicate OnlyWritten(c: Config, s: State, j: nat)
    requires WellSized(c, s) && j < c.n
  {
    forall k: nat :: k < SIZE && s.cells[j][k] != '\0' ==> k < |START| && StartWrote(s.coord, j, k)
  }

  lemma {:induction false} OnlyWrittenStep(c: Config, t: State, e: Event, j: nat)
    requires WellSized(c, t) && j < c.n && !IsPub(j) && SubInv(c, t, j) && OnlyWritten(c, t, j)
    ensures OnlyWritten(c, Step(c, t, e), j)
  {
    if e.mover < c.n {
      hide StepChild;
      ChildFrame(c, t, e.mover, e.hint, e.fail);
      if e.mover == j { assert !t.children[j].PubStop?; }
    } else {
      var t' := Step(c, t, e);
      if t.coord.Stopping? && t.coord.cell == j && t.coord.pending != {} {
        assert Pick(t.coord.pending, e.hint) in Positions(STOP);
      }
    }
  }

  lemma {:induction false} OnlyWrittenAlways(c: Config, init: State, events: seq<Event>, j: nat)
    requires Initial(c, init) && Blank(init.cells) && j < c.n && !IsPub(j)
    ensures OnlyWritten(c, Exec(c, init, events), j)
    decreases |events|
  {
    hide Step, SubInv;
    if events == [] {
    } else {
      var prefix, e := events[..|events| - 1], events[|events| - 1];
      OnlyWrittenAlways(c, init, prefix, j);
      InitialInv(c, init);
      InvAlways(c, init, prefix);
      InvGives(c, Exec(c, init, prefix), j);
      OnlyWrittenStep(c, Exec(c, init, prefix), e, j);
    }
  }

  lemma {:induction false} StartWroteStays(c: Config, s: State, e: Event, j: nat, k: nat)
    requires WellSized(c, s) && k in Positions(START) && StartWrote(s.coord, j, k)
    ensures StartWrote(Step(c, s, e).coord, j, k)
  {
  }

  lemma {:induction false} WrittenStaysWritten(c: Config, s: State, before: seq<Event>, after: seq<Event>, j: nat, k: nat)
    requires WellSized(c, s) && k in Positions(START) && StartWrote(Exec(c, s, before).coord, j, k)
    ensures StartWrote(Exec(c, s, before + after).coord, j, k)
    decreases |after|
  {
    if after == [] {
      assert before + after == before;
    } else {
      var prefix, e := after[..|after| - 1], after[|after| - 1];
      WrittenStaysWritten(c, s, before, prefix, j, k);
      assert before + after == (before + prefix) + [e];
      ExecSnoc(c, s, before + prefix, e);
      StartWroteStays(c, Exec(c, s, before + prefix), e, j, k);
    }
  }

  // If the cell has read Start, the coordinator has stored every letter of it.
  lemma {:induction false} ReadStartWasWritten(c: Config, init: State, events: seq<Event>, j: nat, k: nat)
    requires Initial(c, init) && Blank(init.cells) && j < c.n && !IsPub(j)
    requires AtSomeInstant(c, init, events, j, START, true) && k < |START| - 1
    ensures StartWrote(Exec(c, init, events).coord, j, k)
  {
    var p: nat :| p <= |events| && ReadsAs(Exec(c, init, events[..p]).cells[j], START);
    OnlyWrittenAlways(c, init, events[..p], j);
    assert Exec(c, init, events[..p]).cells[j][k] == START[k] != '\0';
    WrittenStaysWritten(c, init, events[..p], events[p..], j, k);
    assert events[..p] + events[p..] == events;
  }

  // Over zeroed cells a subscriber polls Start only once the coordinator has stored
  // every letter of it ...
  lemma {:induction false} StartIsGenuine(c: Config, init: State, events: seq<Event>, j: nat, k: nat)
    requires Initial(c, init) && Blank(init.cells) && j < c.n && !IsPub(j)
    requires var t := Exec(c, init, events); t.children[j].SubWait? && Matches(t.children[j].got, START)
    requires k < |START| - 1
    ensures StartWrote(Exec(c, init, events).coord, j, k)
  {
    InitialInv(c, init);
    MatchedHasSeen(c, init, events, j);
    SeenHasAnInstant(c, init, events, j);
    ReadStartWasWritten(c, init, events, j, k);
  }

  // ... and Stop only once the coordinator has begun to store that.
  lemma {:induction false} StopIsGenuine(c: Config, init: State, events: seq<Event>, j: nat)
    requires Initial(c, init) && j < c.n && !IsPub(j)
    requires var t := Exec(c, init, events); t.children[j].SubRun? && Matches(t.children[j].got, STOP)
    ensures StopBegun(Exec(c, init, events).coord, j)
  {
    InitialInv(c, init);
    InvAlways(c, init, events);
    SubscriberStopIsThere(c, Exec(c, init, events), j);
  }
}
