/**
 The Start/Stop protocol between one coordinator (`run_tests`) and its children
 (`pub_test`, `sub_test`), as a state machine.

 Every child shares one memory cell with the coordinator and nothing else.  The
 cells are not synchronised: a message is stored one byte at a time, in any
 order, and a poll fetches one byte at a time, in any order, so writes and polls
 of the same cell may overlap freely.  An `Event` names the process that moves
 and resolves that process's choices; a run is a sequence of events.
 */
module Protocol {

  // Bytes of one shared cell.
  const SIZE: nat := 128

  // The two messages, with the terminator that `memcpy` copies along.
  const START: string := "Start\0"
  const STOP: string := "Stop\0"

  // n children, of which those with an even number are publishers; a publisher
  // sends `total` messages.
  datatype Config = Config(n: nat, total: nat)

  // Bytes fetched by the poll in progress.
  type Poll = map<nat, char>

  datatype Child =
    | PubSetup
    | PubSend
    | PubStop(pending: set<nat>)
    | SubSetup
    | SubWait(got: Poll)
    | SubInit
    | SubRun(got: Poll)
    | SubDump
      // `handshake`: a publisher that has stored its Stop, a subscriber that has polled one
    | Exited(handshake: bool)

  datatype Coordinator =
    | Starting(cell: nat, pending: set<nat>)
    | Scanning(cell: nat, count: nat, got: Poll)
    | Stopping(cell: nat, pending: set<nat>)
    | Waiting(child: nat)
    | Done

  // `sent` and `flushed` are what a publisher has done outside the cells: messages
  // sent, and whether it has been through the step that writes its result file.
  datatype State = State(
    cells: seq<string>,
    children: seq<Child>,
    coord: Coordinator,
    sent: seq<nat>,
    flushed: seq<bool>)

  // Process `mover` makes its next move.  `hint` picks the byte when there is a
  // choice; `fail` makes a call that can fail do so.
  datatype Event = Event(mover: nat, hint: nat, fail: bool)

  predicate IsPub(i: nat) {
    i % 2 == 0
  }

  ghost function Positions(msg: string): set<nat> {
    set k: nat {:trigger msg[k]} | 0 <= k < |msg|
  }

  ghost function Unread(got: Poll, msg: string): set<nat> {
    set k: nat | 0 <= k < |msg| && k !in got
  }

  // The comparison `msg == std::string(ptr)` as made from the bytes fetched.
  ghost predicate Matches(got: Poll, msg: string) {
    forall k: nat :: k < |msg| ==> k in got && got[k] == msg[k]
  }

  // The cell as a whole reads as msg, terminator included.
  predicate ReadsAs(cell: string, msg: string) {
    msg <= cell
  }

  ghost function Pick(candidates: set<nat>, hint: nat): (k: nat)
    requires candidates != {}
    ensures k in candidates
  {
    if hint in candidates then hint else
    var k :| k in candidates; k
  }

  ghost function Fetch(got: Poll, cell: string, msg: string, hint: nat): Poll
    requires Unread(got, msg) != {} && |msg| <= |cell|
  {
    var k := Pick(Unread(got, msg), hint);
    got[k := cell[k]]
  }

  ghost predicate WellSized(c: Config, s: State) {
    && |s.cells| == |s.children| == |s.sent| == |s.flushed| == c.n
    && (forall i :: 0 <= i < c.n ==> |s.cells[i]| == SIZE)
    && (s.coord.Starting? ==> s.coord.pending <= Positions(START))
    && (s.coord.Stopping? ==> s.coord.pending <= Positions(STOP))
    && (forall i :: 0 <= i < c.n && s.children[i].PubStop? ==> s.children[i].pending <= Positions(STOP))
  }

  ghost function StepCoordinator(c: Config, s: State, hint: nat): (s': State)
    requires WellSized(c, s)
    ensures WellSized(c, s')
  {
    match s.coord
    case Starting(i, pending) =>
      if i >= c.n then s.(coord := Scanning(0, 0, map[]))
      else if pending == {} then s.(coord := Starting(i + 1, Positions(START)))
      else
        var k := Pick(pending, hint);
        s.(cells := s.cells[i := s.cells[i][k := START[k]]], coord := Starting(i, pending - {k}))
    case Scanning(i, count, got) =>
      if i >= c.n then
        s.(coord := if count == c.n / 2 then Stopping(0, Positions(STOP)) else Scanning(0, 0, map[]))
      else if !IsPub(i) then s.(coord := Scanning(i + 1, count, map[]))
      else if Unread(got, STOP) != {} then
        s.(coord := Scanning(i, count, Fetch(got, s.cells[i], STOP, hint)))
      else s.(coord := Scanning(i + 1, if Matches(got, STOP) then count + 1 else count, map[]))
    case Stopping(i, pending) =>
      if i >= c.n then s.(coord := Waiting(0))
      else if IsPub(i) || pending == {} then s.(coord := Stopping(i + 1, Positions(STOP)))
      else
        var k := Pick(pending, hint);
        s.(cells := s.cells[i := s.cells[i][k := STOP[k]]], coord := Stopping(i, pending - {k}))
    case Waiting(i) =>
      if i >= c.n then s.(coord := Done)
      else if s.children[i].Exited? then s.(coord := Waiting(i + 1))
      else s
    case Done => s
  }

  ghost function StepChild(c: Config, s: State, i: nat, hint: nat, fail: bool): (s': State)
    requires WellSized(c, s) && i < c.n
    ensures WellSized(c, s')
  {
    match s.children[i]
    case PubSetup =>
      s.(children := s.children[i := if fail then Exited(false) else PubSend])
    case PubSend =>
      if s.sent[i] < c.total then
        if fail then s.(children := s.children[i := Exited(false)])
        else s.(sent := s.sent[i := s.sent[i] + 1])
      else
        s.(flushed := s.flushed[i := true], children := s.children[i := PubStop(Positions(STOP))])
    case PubStop(pending) =>
      if pending == {} then s.(children := s.children[i := Exited(true)])
      else
        var k := Pick(pending, hint);
        s.(cells := s.cells[i := s.cells[i][k := STOP[k]]],
           children := s.children[i := PubStop(pending - {k})])
    case SubSetup =>
      s.(children := s.children[i := if fail then Exited(false) else SubWait(map[])])
    case SubWait(got) =>
      s.(children := s.children[i :=
           if Unread(got, START) != {} then SubWait(Fetch(got, s.cells[i], START, hint))
           else if Matches(got, START) then SubInit
           else SubWait(map[])])
    case SubInit =>
      s.(children := s.children[i := if fail then Exited(false) else SubRun(map[])])
    case SubRun(got) =>
      s.(children := s.children[i :=
           if Unread(got, STOP) != {} then SubRun(Fetch(got, s.cells[i], STOP, hint))
           else if Matches(got, STOP) then SubDump
           else SubRun(map[])])
    case SubDump =>
      s.(children := s.children[i := Exited(true)])
    case Exited(_) => s
  }

  // The children are processes 0 .. n-1; every other number is the coordinator.
  ghost function Step(c: Config, s: State, e: Event): (s': State)
    requires WellSized(c, s)
    ensures WellSized(c, s')
  {
    if e.mover < c.n then StepChild(c, s, e.mover, e.hint, e.fail) else StepCoordinator(c, s, e.hint)
  }

  // Any contents of the cells: the shared memory objects may survive an earlier run.
  ghost predicate Initial(c: Config, s: State) {
    && WellSized(c, s)
    && s.coord == Starting(0, Positions(START))
    && (forall i :: 0 <= i < c.n ==>
          s.children[i] == (if IsPub(i) then PubSetup else SubSetup) && s.sent[i] == 0 && !s.flushed[i])
  }

  ghost function Exec(c: Config, s: State, events: seq<Event>): (s': State)
    requires WellSized(c, s)
    ensures WellSized(c, s')
    decreases |events|
  {
    if events == [] then s
    else Step(c, Exec(c, s, events[..|events| - 1]), events[|events| - 1])
  }

  // ---- Observations ---------------------------------------------------------

  // The coordinator has stored byte k of Start in cell i.
  ghost predicate StartWrote(coord: Coordinator, i: nat, k: nat) {
    coord.Starting? ==> i < coord.cell || (i == coord.cell && k !in coord.pending)
  }

  // The coordinator has stored byte k of Stop in cell i.
  ghost predicate StopWrote(coord: Coordinator, i: nat, k: nat) {
    match coord
    case Starting(_, _) => false
    case Scanning(_, _, _) => false
    case Stopping(j, pending) => i < j || (i == j && k !in pending)
    case Waiting(_) => true
    case Done => true
  }

  ghost predicate StartDone(coord: Coordinator, i: nat) {
    forall k :: k in Positions(START) ==> StartWrote(coord, i, k)
  }

  ghost predicate StopBegun(coord: Coordinator, i: nat) {
    exists k :: k in Positions(STOP) && StopWrote(coord, i, k)
  }

  ghost predicate StopDone(coord: Coordinator, i: nat) {
    forall k :: k in Positions(STOP) ==> StopWrote(coord, i, k)
  }

  // All sends made and the results written.
  ghost predicate PubWorkDone(c: Config, s: State, i: nat)
    requires WellSized(c, s) && i < c.n
  {
    s.sent[i] == c.total && s.flushed[i]
  }

  // Subscriber j has been told to stop, or believes it has.
  ghost predicate StopReached(c: Config, s: State, j: nat)
    requires WellSized(c, s) && j < c.n
  {
    !IsPub(j) && (StopBegun(s.coord, j) || s.children[j].SubDump? || s.children[j] == Exited(true))
  }

  // No subscriber is stopped while a publisher still has work to do.
  ghost predicate Safe(c: Config, s: State)
    requires WellSized(c, s)
  {
    (exists j :: 0 <= j < c.n && StopReached(c, s, j)) ==>
      forall i :: 0 <= i < c.n && IsPub(i) ==> PubWorkDone(c, s, i)
  }

  lemma {:induction false} ExecSnoc(c: Config, s: State, events: seq<Event>, e: Event)
    requires WellSized(c, s)
    ensures Exec(c, s, events + [e]) == Step(c, Exec(c, s, events), e)
  {
    assert (events + [e])[..|events + [e]| - 1] == events;
  }
}
