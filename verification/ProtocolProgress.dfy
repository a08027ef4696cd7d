/**
 Progress of the Start/Stop protocol.  A fair run gets the coordinator past its last
 wait exactly when some scan counts max_process / 2 publishers and no subscriber misses
 its Start; for an even number of children that is exactly when no signal is ever lost.
 The proof ranks every process; no move raises a rank, and at any time some process is
 bound to lower its own.
 */
module ProtocolProgress {
  import opened Basics
  import opened Protocol
  import opened ProtocolSafety

  // ---- Lost signals -----------------------------------------------------------

  // Publisher i is gone, its Start has been stored, and its cell does not read Stop.
  ghost predicate PubLost(c: Config, s: State, i: nat)
    requires WellSized(c, s) && i < c.n
  {
    IsPub(i) && s.children[i].Exited? && StartDone(s.coord, i) && !ReadsAs(s.cells[i], STOP)
  }

  // The poll agrees with Start and is past the bytes in which Stop differs.
  ghost predicate CanStillMatch(got: Poll) {
    && (forall k: nat :: k < |START| && k in got ==> got[k] == START[k])
    && (forall k: nat :: k < |STOP| && START[k] != STOP[k] ==> k in got)
  }

  // Subscriber j still waits for Start, but its cell has already become Stop.
  ghost predicate SubLost(c: Config, s: State, j: nat)
    requires WellSized(c, s) && j < c.n
  {
    && !IsPub(j) && s.children[j].SubWait? && StopDone(s.coord, j)
    && !CanStillMatch(s.children[j].got)
  }

  ghost predicate LostAt(c: Config, s: State, i: nat)
    requires WellSized(c, s) && i < c.n
  {
    PubLost(c, s, i) || SubLost(c, s, i)
  }

  ghost predicate Lost(c: Config, s: State)
    requires WellSized(c, s)
  {
    exists i: nat :: i < c.n && LostAt(c, s, i)
  }

  // A lost signal stays lost ...
  lemma {:induction false} LostStays(c: Config, s: State, e: Event, i: nat)
    requires Inv(c, s) && i < c.n && LostAt(c, s, i)
    ensures LostAt(c, Step(c, s, e), i)
  {
    var s' := Step(c, s, e);
    assert ChildInv(c, s, i);
    if e.mover < c.n {
      ChildFrame(c, s, e.mover, e.hint, e.fail);
      if SubLost(c, s, i) && e.mover == i {
        StoppedSubStaysLost(c, s, i, e.hint, e.fail);
      }
    } else {
      if PubLost(c, s, i) {
        assert forall k :: k in Positions(START) ==> StartWrote(s'.coord, i, k);
        if s.coord.Starting? && s.coord.cell == i { assert s.coord.pending == {}; }
        assert s'.cells[i] == s.cells[i];
      } else {
        assert forall k :: k in Positions(STOP) ==> StopWrote(s'.coord, i, k);
      }
    }
  }

  lemma {:induction false} StoppedSubStaysLost(c: Config, s: State, j: nat, hint: nat, fail: bool)
    requires WellSized(c, s) && j < c.n && SubInv(c, s, j) && SubLost(c, s, j)
    ensures SubLost(c, StepChild(c, s, j, hint, fail), j)
  {
    var got := s.children[j].got;
    assert START[2] != STOP[2];
    forall k: nat | k < |STOP| ensures s.cells[j][k] == STOP[k] {
      assert k in Positions(STOP);
      assert StopWrote(s.coord, j, k);
    }
    if Unread(got, START) == {} {
      forall k: nat | k < |START| ensures k in got {
        assert k !in Unread(got, START);
      }
    }
  }

  // ... and keeps the coordinator from finishing: a lost Start always, and a lost Stop
  // when the scan has to count every publisher.
  lemma {:induction false} LostNotDone(c: Config, s: State, i: nat)
    requires Inv(c, s) && i < c.n
    requires SubLost(c, s, i) || (c.n % 2 == 0 && PubLost(c, s, i))
    ensures !s.coord.Done?
  {
  }

  // Nothing stands in the way of the next moves: no subscriber has missed its Start and,
  // if the coordinator is scanning, it has to count every publisher and no Stop is lost.
  ghost predicate Unblocked(c: Config, s: State)
    requires WellSized(c, s)
  {
    && (forall j: nat :: j < c.n ==> !SubLost(c, s, j))
    && (s.coord.Scanning? ==> c.n % 2 == 0 && forall i: nat :: i < c.n ==> !PubLost(c, s, i))
  }

  // ---- Ranks ------------------------------------------------------------------

  function Gap(n: nat, i: nat): nat {
    if i < n then n - i else 0
  }

  ghost predicate AgreesWith(got: Poll, msg: string) {
    forall k: nat :: k < |msg| && k in got ==> got[k] == msg[k]
  }

  ghost predicate PubsGone(c: Config, s: State)
    requires WellSized(c, s)
  {
    forall i :: 0 <= i < c.n && IsPub(i) ==> s.children[i].Exited?
  }

  // Moves left in the present scan, and in a whole one.
  ghost function ScanLeft(c: Config, i: nat, got: Poll): nat {
    if i >= c.n then 1 else (c.n - i - 1) * 6 + |Unread(got, STOP)| + 2
  }

  function ScanAll(c: Config): nat {
    c.n * 6 + 1
  }

  function AboveWaiting(c: Config): nat {
    c.n + 2
  }

  function AboveStopping(c: Config): nat {
    AboveWaiting(c) + 6 * c.n + 6
  }

  function AboveScanning(c: Config): nat {
    AboveStopping(c) + 2 * ScanAll(c) + 1
  }

  ghost function CoordRank(c: Config, s: State): nat
    requires WellSized(c, s)
  {
    match s.coord
    case Starting(i, pending) => AboveScanning(c) + 7 * Gap(c.n, i) + |pending|
    case Scanning(i, count, got) =>
      if !PubsGone(c, s) then AboveStopping(c) + 2 * ScanAll(c)
      else if count == PubsBelow(i) && AgreesWith(got, STOP) then AboveStopping(c) + ScanLeft(c, i, got)
      else AboveStopping(c) + ScanAll(c) + ScanLeft(c, i, got)
    case Stopping(i, pending) => AboveWaiting(c) + 6 * Gap(c.n, i) + |pending|
    case Waiting(i) => Gap(c.n, i) + 1
    case Done => 0
  }

  ghost function ChildRank(c: Config, s: State, i: nat): nat
    requires WellSized(c, s) && i < c.n
  {
    match s.children[i]
    case PubSetup => c.total + 8
    case PubSend => Gap(c.total, s.sent[i]) + 7
    case PubStop(pending) => |pending| + 1
    case SubSetup => 42
    case SubWait(got) => if StopDone(s.coord, i) then 16 + |Unread(got, START)| else 40
    case SubInit => 15
    case SubRun(got) =>
      if !StopDone(s.coord, i) then 14
      else if AgreesWith(got, STOP) then 2 + |Unread(got, STOP)|
      else 8 + |Unread(got, STOP)|
    case SubDump => 1
    case Exited(_) => 0
  }

  // The rank of every child, then the coordinator's.
  ghost function Ranks(c: Config, s: State): (r: seq<nat>)
    requires WellSized(c, s)
    ensures |r| == c.n + 1
  {
    seq(c.n, i requires 0 <= i < c.n => ChildRank(c, s, i)) + [CoordRank(c, s)]
  }

  function Mover(c: Config, e: Event): nat {
    if e.mover < c.n then e.mover else c.n
  }

  lemma {:induction false} UnreadSize(got: Poll, msg: string)
    ensures |Unread(got, msg)| <= |msg|
  {
    UpTo(|msg|);
    var all := set k: nat {:trigger msg[k]} | 0 <= k < |msg|;
    assert all == set k: nat | 0 <= k < |msg| && InRange(k);
    SubsetSize(Unread(got, msg), all);
  }

  predicate InRange(k: nat) {
    true
  }

  lemma {:induction false} UpTo(n: nat)
    ensures |set k: nat | 0 <= k < n && InRange(k)| == n
  {
    if n == 0 {
    } else {
      UpTo(n - 1);
      assert InRange(n - 1);
      assert (set k: nat | 0 <= k < n && InRange(k)) == (set k: nat | 0 <= k < n - 1 && InRange(k)) + {n - 1};
    }
  }

  lemma {:induction false} PositionsSize(msg: string)
    ensures |Positions(msg)| == |msg|
  {
    UpTo(|msg|);
    assert Positions(msg) == set k: nat | 0 <= k < |msg| && InRange(k);
  }

  lemma {:induction false} FetchLowers(got: Poll, cell: string, msg: string, hint: nat)
    requires Unread(got, msg) != {} && |msg| <= |cell|
    ensures |Unread(Fetch(got, cell, msg, hint), msg)| == |Unread(got, msg)| - 1
  {
    var k := Pick(Unread(got, msg), hint);
    assert Unread(Fetch(got, cell, msg, hint), msg) == Unread(got, msg) - {k};
  }

  lemma {:induction false} FreshPoll(msg: string)
    ensures |Unread(map[], msg)| == |msg|
  {
    PositionsSize(msg);
    assert Unread(map[], msg) == Positions(msg);
  }

  // ---- A child's move -----------------------------------------------------------

  lemma {:induction false} ChildLowersOwn(c: Config, s: State, i: nat, hint: nat, fail: bool)
    requires Inv(c, s) && i < c.n
    requires !SubLost(c, s, i)
    ensures var s' := StepChild(c, s, i, hint, fail);
      && ChildRank(c, s', i) <= ChildRank(c, s, i)
      && (IsPub(i) || s.coord.Waiting? ==> ChildRank(c, s, i) > 0 ==> ChildRank(c, s', i) < ChildRank(c, s, i))
  {
    assert ChildInv(c, s, i);
    PositionsSize(STOP);
    FreshPoll(STOP);
    if IsPub(i) {
    } else {
      match s.children[i] {
        case SubSetup => FreshPoll(START);
        case SubWait(got) => SubWaitLowers(c, s, i, hint, fail);
        case SubRun(got) => SubRunLowers(c, s, i, hint, fail);
        case _ =>
      }
    }
  }

  lemma {:induction false} SubWaitLowers(c: Config, s: State, j: nat, hint: nat, fail: bool)
    requires Inv(c, s) && j < c.n && !IsPub(j) && s.children[j].SubWait? && !SubLost(c, s, j)
    ensures var s' := StepChild(c, s, j, hint, fail);
      && ChildRank(c, s', j) <= ChildRank(c, s, j)
      && (StopDone(s.coord, j) ==> ChildRank(c, s', j) < ChildRank(c, s, j))
  {
    var got := s.children[j].got;
    if Unread(got, START) != {} {
      FetchLowers(got, s.cells[j], START, hint);
    } else if StopDone(s.coord, j) {
      forall k: nat | k < |START| ensures k in got && got[k] == START[k] {
        assert k !in Unread(got, START);
      }
      assert Matches(got, START);
    }
  }

  lemma {:induction false} SubRunLowers(c: Config, s: State, j: nat, hint: nat, fail: bool)
    requires Inv(c, s) && j < c.n && !IsPub(j) && s.children[j].SubRun?
    ensures var s' := StepChild(c, s, j, hint, fail);
      && ChildRank(c, s', j) <= ChildRank(c, s, j)
      && (StopDone(s.coord, j) ==> ChildRank(c, s', j) < ChildRank(c, s, j))
  {
    var got := s.children[j].got;
    UnreadSize(got, STOP);
    FreshPoll(STOP);
    assert SubInv(c, s, j) by { assert ChildInv(c, s, j); }
    if Unread(got, STOP) != {} {
      FetchLowers(got, s.cells[j], STOP, hint);
      var k := Pick(Unread(got, STOP), hint);
      if StopDone(s.coord, j) {
        assert k in Positions(STOP);
        assert s.cells[j][k] == STOP[k];
      }
    } else {
      forall k: nat | k < |STOP| ensures k in got {
        assert k !in Unread(got, STOP);
      }
    }
  }

  lemma {:induction false} ChildMoveKeepsCoordRank(c: Config, s: State, i: nat, hint: nat, fail: bool)
    requires WellSized(c, s) && i < c.n
    ensures CoordRank(c, StepChild(c, s, i, hint, fail)) <= CoordRank(c, s)
  {
    var s' := StepChild(c, s, i, hint, fail);
    if s.coord.Scanning? {
      UnreadSize(s.coord.got, STOP);
      ChildFrame(c, s, i, hint, fail);
      if PubsGone(c, s) && IsPub(i) { assert s.children[i].Exited?; }
      if s.coord.cell < c.n { assert (c.n - s.coord.cell - 1) * 6 <= c.n * 6 - 6; }
    }
  }

  lemma {:induction false} ChildMoveRanks(c: Config, s: State, i: nat, hint: nat, fail: bool)
    requires Inv(c, s) && i < c.n
    requires !SubLost(c, s, i)
    ensures var s' := StepChild(c, s, i, hint, fail);
      && (forall p :: 0 <= p <= c.n ==> Ranks(c, s')[p] <= Ranks(c, s)[p])
  {
    hide StepChild, CoordRank, SubLost;
    var s' := StepChild(c, s, i, hint, fail);
    assert ChildInv(c, s, i);
    ChildFrame(c, s, i, hint, fail);
    ChildLowersOwn(c, s, i, hint, fail);
    ChildMoveKeepsCoordRank(c, s, i, hint, fail);
    forall p | 0 <= p <= c.n ensures Ranks(c, s')[p] <= Ranks(c, s)[p] {
      if p < c.n && p != i {
        assert ChildRank(c, s', p) == ChildRank(c, s, p);
      }
    }
  }

  // ---- The coordinator's move -----------------------------------------------------

  lemma {:induction false} ExitedPubReadsStop(c: Config, s: State, i: nat)
    requires Inv(c, s) && s.coord.Scanning? && PubsGone(c, s) && Unblocked(c, s)
    requires i < c.n && IsPub(i)
    ensures ReadsAs(s.cells[i], STOP)
  {
    assert !PubLost(c, s, i);
    assert s.children[i].Exited?;
  }

  lemma {:induction false} ScanLowers(c: Config, s: State, hint: nat)
    requires Inv(c, s) && s.coord.Scanning? && PubsGone(c, s) && Unblocked(c, s)
    ensures CoordRank(c, StepCoordinator(c, s, hint)) < CoordRank(c, s)
  {
    var i, count, got := s.coord.cell, s.coord.count, s.coord.got;
    var s' := StepCoordinator(c, s, hint);
    assert PubsGone(c, s');
    PositionsSize(STOP);
    FreshPoll(STOP);
    UnreadSize(got, STOP);
    if i >= c.n {
      assert c.n > 0 ==> ScanLeft(c, 0, map[]) == ScanAll(c);
    } else if !IsPub(i) {
      assert PubsBelow(i + 1) == PubsBelow(i);
      ScanLeftNext(c, i, got);
    } else {
      ExitedPubReadsStop(c, s, i);
      if Unread(got, STOP) != {} {
        FetchLowers(got, s.cells[i], STOP, hint);
      } else {
        assert PubsBelow(i + 1) == PubsBelow(i) + 1;
        ScanLeftNext(c, i, got);
        forall k: nat | k < |STOP| ensures k in got {
          assert k !in Unread(got, STOP);
        }
      }
    }
  }

  lemma {:induction false} ScanLeftNext(c: Config, i: nat, got: Poll)
    requires i < c.n
    ensures ScanLeft(c, i + 1, map[]) < ScanLeft(c, i, got)
  {
    FreshPoll(STOP);
    if i + 1 < c.n { assert (c.n - i - 1) * 6 == (c.n - (i + 1) - 1) * 6 + 6; }
  }

  lemma {:induction false} CoordStoreLowers(c: Config, s: State, hint: nat)
    requires WellSized(c, s) && (s.coord.Starting? || s.coord.Stopping?)
    ensures CoordRank(c, StepCoordinator(c, s, hint)) < CoordRank(c, s)
  {
    PositionsSize(STOP);
    PositionsSize(START);
    var s' := StepCoordinator(c, s, hint);
    if s.coord.Starting? && s.coord.cell >= c.n { ScanAtMost(c, s'); }
  }

  lemma {:induction false} CoordLowersOwn(c: Config, s: State, hint: nat)
    requires Inv(c, s) && Unblocked(c, s)
    ensures var s' := StepCoordinator(c, s, hint);
      && CoordRank(c, s') <= CoordRank(c, s)
      && (s.coord.Starting? || s.coord.Stopping? || (s.coord.Scanning? && PubsGone(c, s))
          || (s.coord.Waiting? && (s.coord.child < c.n ==> s.children[s.coord.child].Exited?))
          ==> CoordRank(c, s') < CoordRank(c, s))
  {
    hide ChildInv, Unblocked, CoordInv;
    if s.coord.Starting? || s.coord.Stopping? {
      hide StepCoordinator, CoordRank;
      CoordStoreLowers(c, s, hint);
    } else if s.coord.Scanning? {
      if PubsGone(c, s) {
        ScanLowers(c, s, hint);
      } else {
        ScanStays(c, s, hint);
      }
    }
  }

  // While a publisher is still there, the scan has no rank to lose.
  lemma {:induction false} ScanStays(c: Config, s: State, hint: nat)
    requires WellSized(c, s) && s.coord.Scanning? && !PubsGone(c, s)
    ensures CoordRank(c, StepCoordinator(c, s, hint)) <= CoordRank(c, s)
  {
    PositionsSize(STOP);
    var s' := StepCoordinator(c, s, hint);
    assert s'.children == s.children;
    assert !PubsGone(c, s') by {
      var i :| 0 <= i < c.n && IsPub(i) && !s.children[i].Exited?;
      assert !s'.children[i].Exited?;
    }
  }

  lemma {:induction false} ScanAtMost(c: Config, s: State)
    requires WellSized(c, s) && s.coord == Scanning(0, 0, map[])
    ensures CoordRank(c, s) < AboveScanning(c)
  {
    FreshPoll(STOP);
    assert c.n > 0 ==> ScanLeft(c, 0, map[]) == ScanAll(c);
  }

  lemma {:induction false} CoordMoveChildRank(c: Config, s: State, hint: nat, p: nat)
    requires WellSized(c, s) && p < c.n
    ensures ChildRank(c, StepCoordinator(c, s, hint), p) <= ChildRank(c, s, p)
  {
    var s' := StepCoordinator(c, s, hint);
    assert StopDone(s.coord, p) ==> StopDone(s'.coord, p) by {
      if StopDone(s.coord, p) {
        forall k | k in Positions(STOP) ensures StopWrote(s'.coord, p, k) {
          assert StopWrote(s.coord, p, k);
        }
      }
    }
    if s.children[p].SubWait? { UnreadSize(s.children[p].got, START); }
    if s.children[p].SubRun? { UnreadSize(s.children[p].got, STOP); }
  }

  lemma {:induction false} CoordMoveRanks(c: Config, s: State, hint: nat)
    requires Inv(c, s) && Unblocked(c, s)
    ensures var s' := StepCoordinator(c, s, hint);
      forall p :: 0 <= p <= c.n ==> Ranks(c, s')[p] <= Ranks(c, s)[p]
  {
    var s' := StepCoordinator(c, s, hint);
    CoordLowersOwn(c, s, hint);
    forall p | 0 <= p <= c.n ensures Ranks(c, s')[p] <= Ranks(c, s)[p] {
      if p < c.n { CoordMoveChildRank(c, s, hint, p); }
    }
  }

  // ---- The process that is bound to move down --------------------------------------

  ghost predicate ActivePub(r: seq<nat>, i: nat) {
    i < |r| && IsPub(i) && r[i] > 0
  }

  // Determined by the ranks alone, so it changes only when a rank does.
  ghost function Helpful(c: Config, r: seq<nat>): nat
    requires |r| == c.n + 1
  {
    if r[c.n] >= AboveScanning(c) then c.n
    else if exists i: nat :: i < c.n && ActivePub(r, i) then
      var i: nat :| i < c.n && ActivePub(r, i); i
    else if r[c.n] >= AboveWaiting(c) || r[c.n] == 0 then c.n
    else
      var i := c.n + 1 - r[c.n];
      if i < c.n && r[i] > 0 then i else c.n
  }

  lemma {:induction false} HelpfulInRange(c: Config, r: seq<nat>)
    requires |r| == c.n + 1
    ensures Helpful(c, r) <= c.n
  {
  }

  lemma {:induction false} CoordRankBands(c: Config, s: State)
    requires Inv(c, s)
    ensures s.coord.Starting? <==> CoordRank(c, s) >= AboveScanning(c)
    ensures s.coord.Waiting? ==> CoordRank(c, s) == c.n - s.coord.child + 1
    ensures s.coord.Waiting? || s.coord.Done? <==> CoordRank(c, s) < AboveWaiting(c)
    ensures s.coord.Done? <==> CoordRank(c, s) == 0
  {
    if s.coord.Scanning? {
      UnreadSize(s.coord.got, STOP);
      if s.coord.cell < c.n { assert (c.n - s.coord.cell - 1) * 6 <= c.n * 6 - 6; }
    }
    if s.coord.Stopping? {
      PositionsSize(STOP);
      SubsetSize(s.coord.pending, Positions(STOP));
    }
  }

  lemma {:induction false} HelpfulLowers(c: Config, s: State, e: Event)
    requires Inv(c, s) && Unblocked(c, s)
    requires !s.coord.Done? && Mover(c, e) == Helpful(c, Ranks(c, s))
    ensures var p := Mover(c, e); Ranks(c, Step(c, s, e))[p] < Ranks(c, s)[p]
  {
    var s', p, r := Step(c, s, e), Mover(c, e), Ranks(c, s);
    CoordRankBands(c, s);
    assert r[c.n] == CoordRank(c, s);
    if p < c.n {
      assert e.mover == p && r[p] == ChildRank(c, s, p);
      assert !SubLost(c, s, p);
      ChildLowersOwn(c, s, p, e.hint, e.fail);
    } else {
      assert s.coord.Starting? || PubsGone(c, s) by {
        if !s.coord.Starting? {
          forall i: nat | i < c.n && IsPub(i) ensures s.children[i].Exited? {
            assert !ActivePub(r, i);
            assert r[i] == ChildRank(c, s, i);
            assert ChildInv(c, s, i);
          }
        }
      }
      if s.coord.Waiting? && s.coord.child < c.n {
        var i := s.coord.child;
        assert r[i] == ChildRank(c, s, i);
        assert ChildInv(c, s, i);
      }
      CoordLowersOwn(c, s, e.hint);
    }
  }

  // ---- Infinite runs ----------------------------------------------------------------

  ghost function StateAt(c: Config, init: State, run: nat -> Event, t: nat): (s: State)
    requires WellSized(c, init)
    ensures WellSized(c, s)
  {
    if t == 0 then init else Step(c, StateAt(c, init, run, t - 1), run(t - 1))
  }

  ghost predicate MovesAgain(c: Config, run: nat -> Event, p: nat, t: nat) {
    exists u: nat :: u >= t && Mover(c, run(u)) == p
  }

  // Every process moves again and again.
  ghost predicate Fair(c: Config, run: nat -> Event) {
    forall p: nat, t: nat :: p <= c.n ==> MovesAgain(c, run, p, t)
  }

  ghost predicate NeverLost(c: Config, init: State, run: nat -> Event)
    requires WellSized(c, init)
  {
    forall t: nat :: !Lost(c, StateAt(c, init, run, t))
  }

  // No subscriber ever waits for a Start that is gone.
  ghost predicate StartNeverMissed(c: Config, init: State, run: nat -> Event)
    requires WellSized(c, init)
  {
    forall t: nat, j: nat :: j < c.n ==> !SubLost(c, StateAt(c, init, run, t), j)
  }

  // Some scan counts max_process / 2, and the coordinator turns to the subscribers.
  ghost predicate ScanSucceeds(c: Config, init: State, run: nat -> Event)
    requires WellSized(c, init)
  {
    exists t: nat :: StateAt(c, init, run, t).coord.Stopping?
  }

  ghost predicate Finishes(c: Config, init: State, run: nat -> Event)
    requires WellSized(c, init)
  {
    exists t: nat :: StateAt(c, init, run, t).coord.Done?
  }

  ghost predicate AlwaysUnblocked(c: Config, init: State, run: nat -> Event)
    requires WellSized(c, init)
  {
    forall t: nat :: Unblocked(c, StateAt(c, init, run, t))
  }

  lemma {:induction false} InvAt(c: Config, init: State, run: nat -> Event, t: nat)
    requires Inv(c, init)
    ensures Inv(c, StateAt(c, init, run, t))
  {
    if t == 0 {
    } else {
      InvAt(c, init, run, t - 1);
      StepKeepsInv(c, StateAt(c, init, run, t - 1), run(t - 1));
    }
  }

  function Total(r: seq<nat>): nat {
    if r == [] then 0 else r[0] + Total(r[1..])
  }

  lemma {:induction false} TotalDrops(a: seq<nat>, b: seq<nat>)
    requires |a| == |b| && forall p :: 0 <= p < |a| ==> a[p] <= b[p]
    ensures Total(a) <= Total(b)
    ensures a != b ==> Total(a) < Total(b)
  {
    if a == [] {
    } else {
      TotalDrops(a[1..], b[1..]);
      assert a == [a[0]] + a[1..] && b == [b[0]] + b[1..];
    }
  }

  lemma {:induction false} MoveRanks(c: Config, s: State, e: Event)
    requires Inv(c, s) && Unblocked(c, s)
    ensures forall p :: 0 <= p <= c.n ==> Ranks(c, Step(c, s, e))[p] <= Ranks(c, s)[p]
  {
    if e.mover < c.n {
      assert !SubLost(c, s, e.mover);
      ChildMoveRanks(c, s, e.mover, e.hint, e.fail);
    } else {
      CoordMoveRanks(c, s, e.hint);
    }
  }

  ghost function RanksAt(c: Config, init: State, run: nat -> Event, t: nat): (r: seq<nat>)
    requires WellSized(c, init)
    ensures |r| == c.n + 1
  {
    Ranks(c, StateAt(c, init, run, t))
  }

  // One move of a run that is never blocked: the ranks stay or drop, and drop for sure
  // when the helpful process moves.
  lemma {:induction false} RanksFall(c: Config, init: State, run: nat -> Event, t: nat)
    requires Inv(c, init) && AlwaysUnblocked(c, init, run)
    requires !StateAt(c, init, run, t).coord.Done?
    ensures var r, r' := RanksAt(c, init, run, t), RanksAt(c, init, run, t + 1);
      && (r' == r || Total(r') < Total(r))
      && (Mover(c, run(t)) == Helpful(c, r) ==> r' != r)
      && (r' == r ==> !StateAt(c, init, run, t + 1).coord.Done?)
  {
    var s, s' := StateAt(c, init, run, t), StateAt(c, init, run, t + 1);
    InvAt(c, init, run, t);
    InvAt(c, init, run, t + 1);
    assert Unblocked(c, s);
    MoveRanks(c, s, run(t));
    TotalDrops(Ranks(c, s'), Ranks(c, s));
    if Mover(c, run(t)) == Helpful(c, Ranks(c, s)) { HelpfulLowers(c, s, run(t)); }
    CoordRankBands(c, s);
    CoordRankBands(c, s');
    assert Ranks(c, s)[c.n] == CoordRank(c, s) && Ranks(c, s')[c.n] == CoordRank(c, s');
  }

  // ---- Fair descent ------------------------------------------------------------------

  // At time t the measure drops, or nothing changes and the awaited process did not move.
  ghost predicate Falls(measure: nat -> nat, awaited: nat -> nat, mover: nat -> nat, t: nat) {
    || measure(t + 1) < measure(t)
    || (measure(t + 1) == measure(t) && awaited(t + 1) == awaited(t) && mover(t) != awaited(t))
  }

  ghost predicate Answered(awaited: nat -> nat, mover: nat -> nat, t: nat) {
    exists u: nat :: t <= u && mover(u) == awaited(t)
  }

  lemma {:induction false} Descends(measure: nat -> nat, awaited: nat -> nat, mover: nat -> nat,
                                    done: nat -> bool, t: nat, u: nat)
    returns (end: nat)
    requires forall t :: done(t) || Falls(measure, awaited, mover, t)
    requires forall t :: Answered(awaited, mover, t)
    requires t <= u && mover(u) == awaited(t)
    ensures done(end)
    decreases measure(t), u - t
  {
    if done(t) {
      end := t;
    } else {
      assert Falls(measure, awaited, mover, t);
      if measure(t + 1) < measure(t) {
        assert Answered(awaited, mover, t + 1);
        var v: nat :| t + 1 <= v && mover(v) == awaited(t + 1);
        end := Descends(measure, awaited, mover, done, t + 1, v);
      } else {
        end := Descends(measure, awaited, mover, done, t + 1, u);
      }
    }
  }

  lemma {:induction false} UnblockedFinishes(c: Config, init: State, run: nat -> Event)
    requires Inv(c, init) && Fair(c, run) && AlwaysUnblocked(c, init, run)
    ensures Finishes(c, init, run)
  {
    hide RanksAt, Helpful, StateAt, Total, AlwaysUnblocked, Mover;
    var measure := (t: nat) => if WellSized(c, init) then Total(RanksAt(c, init, run, t)) else 0;
    var awaited := (t: nat) => if WellSized(c, init) then Helpful(c, RanksAt(c, init, run, t)) else 0;
    var mover := (t: nat) => Mover(c, run(t));
    var done := (t: nat) => WellSized(c, init) && StateAt(c, init, run, t).coord.Done?;
    forall t: nat ensures done(t) || Falls(measure, awaited, mover, t) {
      if !done(t) { RanksFall(c, init, run, t); }
    }
    forall t: nat ensures Answered(awaited, mover, t) {
      HelpfulInRange(c, RanksAt(c, init, run, t));
      assert MovesAgain(c, run, awaited(t), t);
      var u: nat :| u >= t && Mover(c, run(u)) == awaited(t);
      assert mover(u) == awaited(t);
    }
    assert Answered(awaited, mover, 0);
    var u: nat :| 0 <= u && mover(u) == awaited(0);
    var end := Descends(measure, awaited, mover, done, 0, u);
  }

  lemma {:induction false} LostEverAfter(c: Config, init: State, run: nat -> Event, t: nat, u: nat, i: nat)
    requires Inv(c, init) && t <= u && i < c.n
    ensures SubLost(c, StateAt(c, init, run, t), i) ==> SubLost(c, StateAt(c, init, run, u), i)
    ensures PubLost(c, StateAt(c, init, run, t), i) ==> PubLost(c, StateAt(c, init, run, u), i)
    decreases u
  {
    hide Step, ChildInv, CoordInv;
    if t < u {
      LostEverAfter(c, init, run, t, u - 1, i);
      var s := StateAt(c, init, run, u - 1);
      InvAt(c, init, run, u - 1);
      if LostAt(c, s, i) { LostStays(c, s, run(u - 1), i); }
    }
  }

  // How far the coordinator has come.
  ghost function Stage(coord: Coordinator): nat {
    match coord
    case Starting(_, _) => 0
    case Scanning(_, _, _) => 1
    case Stopping(_, _) => 2
    case Waiting(_) => 3
    case Done => 4
  }

  lemma {:induction false} StageStep(c: Config, s: State, e: Event)
    requires WellSized(c, s)
    ensures Stage(s.coord) <= Stage(Step(c, s, e).coord) <= Stage(s.coord) + 1
  {
    hide StepChild;
    if e.mover < c.n { ChildFrame(c, s, e.mover, e.hint, e.fail); }
  }

  lemma {:induction false} StageGrows(c: Config, init: State, run: nat -> Event, t: nat, u: nat)
    requires WellSized(c, init) && t <= u
    ensures Stage(StateAt(c, init, run, t).coord) <= Stage(StateAt(c, init, run, u).coord)
    decreases u
  {
    if t < u {
      StageGrows(c, init, run, t, u - 1);
      StageStep(c, StateAt(c, init, run, u - 1), run(u - 1));
    }
  }

  // Nobody gets past the subscribers' cells without storing Stop in them.
  lemma {:induction false} StoppedBefore(c: Config, init: State, run: nat -> Event, t: nat)
    requires WellSized(c, init) && Stage(init.coord) <= 2 <= Stage(StateAt(c, init, run, t).coord)
    ensures ScanSucceeds(c, init, run)
  {
    if t == 0 || Stage(StateAt(c, init, run, t).coord) == 2 {
      assert StateAt(c, init, run, t).coord.Stopping?;
    } else {
      StageStep(c, StateAt(c, init, run, t - 1), run(t - 1));
      StoppedBefore(c, init, run, t - 1);
    }
  }

  ghost function Later(run: nat -> Event, d: nat): nat -> Event {
    (u: nat) => run(d + u)
  }

  lemma {:induction false} StateLater(c: Config, init: State, run: nat -> Event, d: nat, t: nat)
    requires WellSized(c, init)
    ensures StateAt(c, StateAt(c, init, run, d), Later(run, d), t) == StateAt(c, init, run, d + t)
  {
    hide Step;
    if t == 0 {
    } else {
      StateLater(c, init, run, d, t - 1);
    }
  }

  lemma {:induction false} FairLater(c: Config, run: nat -> Event, d: nat)
    requires Fair(c, run)
    ensures Fair(c, Later(run, d))
  {
    var later := Later(run, d);
    forall p: nat, t: nat | p <= c.n ensures MovesAgain(c, later, p, t) {
      assert MovesAgain(c, run, p, d + t);
      var u: nat :| u >= d + t && Mover(c, run(u)) == p;
      assert Mover(c, later(u - d)) == p;
    }
  }

  // Once the coordinator stores Stop in the subscribers' cells, only a subscriber that
  // has missed its Start can keep a fair run from finishing.
  lemma {:induction false} StoppingFinishes(c: Config, init: State, run: nat -> Event)
    requires Inv(c, init) && Fair(c, run) && ScanSucceeds(c, init, run) && StartNeverMissed(c, init, run)
    ensures Finishes(c, init, run)
  {
    hide ChildInv, CoordInv, Step, SubLost;
    var d: nat :| StateAt(c, init, run, d).coord.Stopping?;
    var s, later := StateAt(c, init, run, d), Later(run, d);
    InvAt(c, init, run, d);
    FairLater(c, run, d);
    forall t: nat ensures Unblocked(c, StateAt(c, s, later, t)) {
      StateLater(c, init, run, d, t);
      StageGrows(c, init, run, d, d + t);
    }
    UnblockedFinishes(c, s, later);
    var t: nat :| StateAt(c, s, later, t).coord.Done?;
    StateLater(c, init, run, d, t);
  }

  lemma {:induction false} FinishedIsUnhindered(c: Config, init: State, run: nat -> Event, t: nat, u: nat, i: nat)
    requires Inv(c, init) && StateAt(c, init, run, t).coord.Done? && i < c.n
    ensures !SubLost(c, StateAt(c, init, run, u), i)
    ensures c.n % 2 == 0 ==> !PubLost(c, StateAt(c, init, run, u), i)
  {
    hide ChildInv, CoordInv, SubLost, PubLost;
    var v := if t <= u then u else t;
    InvAt(c, init, run, v);
    StageGrows(c, init, run, t, v);
    LostEverAfter(c, init, run, u, v, i);
    var s := StateAt(c, init, run, v);
    if SubLost(c, s, i) || (c.n % 2 == 0 && PubLost(c, s, i)) { LostNotDone(c, s, i); }
  }

  lemma {:induction false} NotLostIsUnblocked(c: Config, s: State)
    requires WellSized(c, s) && c.n % 2 == 0 && !Lost(c, s)
    ensures Unblocked(c, s)
  {
    forall i: nat | i < c.n ensures !SubLost(c, s, i) && !PubLost(c, s, i) {
      assert !LostAt(c, s, i);
    }
  }

  // Main result: for any number of children a fair run gets the coordinator past its
  // last wait if and only if some scan counts max_process / 2 and no subscriber misses
  // its Start; for an even number, if and only if it never loses a signal.
  lemma {:induction false} ProgressExactly(c: Config, init: State, run: nat -> Event)
    requires Initial(c, init) && Fair(c, run)
    ensures Finishes(c, init, run) <==> ScanSucceeds(c, init, run) && StartNeverMissed(c, init, run)
    ensures c.n % 2 == 0 ==> (Finishes(c, init, run) <==> NeverLost(c, init, run))
  {
    hide ChildInv, CoordInv, SubLost, PubLost, Step;
    InitialInv(c, init);
    if Finishes(c, init, run) {
      var t: nat :| StateAt(c, init, run, t).coord.Done?;
      StoppedBefore(c, init, run, t);
      forall u: nat, i: nat | i < c.n
        ensures !SubLost(c, StateAt(c, init, run, u), i)
        ensures c.n % 2 == 0 ==> !PubLost(c, StateAt(c, init, run, u), i)
      {
        FinishedIsUnhindered(c, init, run, t, u, i);
      }
    }
    if ScanSucceeds(c, init, run) && StartNeverMissed(c, init, run) {
      StoppingFinishes(c, init, run);
    }
    if c.n % 2 == 0 && NeverLost(c, init, run) {
      forall t: nat ensures Unblocked(c, StateAt(c, init, run, t)) {
        NotLostIsUnblocked(c, StateAt(c, init, run, t));
      }
      UnblockedFinishes(c, init, run);
    }
  }
}
