/** The subscriber's side of the data path: `CustomListener`. */
module Listener {
  import opened Basics
  import opened Decimal
  import opened Text
  import opened Messages

  datatype Status = Ok | InvalidArgument

  // The fields of a listener.
  datatype Tally = Tally(arrived: int, bytes: int, durations: seq<real>, counter: int)

  const ZERO: Tally := Tally(0, 0, [], 0)

  // The payload, read as a C string; None when it is empty.
  datatype Arrival = Arrival(now: TimeSpec, payload: Option<string>)

  // The first piece splits into exactly two at the point.
  predicate Stamped(data: string) {
    var pieces := Pieces(data, "|");
    |pieces| > 0 && pieces[0] != "" && |Pieces(pieces[0], ".")| == 2
  }

  // onReceive reads the second piece of every stamped message without looking whether
  // there is one.
  predicate Readable(a: Arrival) {
    a.payload.Some? && Stamped(a.payload.value) ==> |Pieces(a.payload.value, "|")| >= 2
  }

  predicate Accepted(a: Arrival) {
    a.payload.Some? && Stamped(a.payload.value)
  }

  predicate AllReadable(arrivals: seq<Arrival>) {
    forall i :: 0 <= i < |arrivals| ==> Readable(arrivals[i])
  }

  predicate AllAccepted(arrivals: seq<Arrival>) {
    forall i :: 0 <= i < |arrivals| ==> Accepted(arrivals[i])
  }

  function SentTime(data: string): TimeSpec
    requires Stamped(data)
  {
    var time := Pieces(Pieces(data, "|")[0], ".");
    TimeSpec(StrToL(time[0]), StrToL(time[1]))
  }

  // The fields and the status after one message, branch by branch.
  function Receive(t: Tally, a: Arrival): (Tally, Status)
    requires Readable(a)
  {
    if !Accepted(a) then (t, InvalidArgument)
    else
      var data := a.payload.value;
      var pieces := Pieces(data, "|");
      var t1 := t.(durations := t.durations + [Duration(a.now, SentTime(data))],
                   arrived := t.arrived + 1,
                   bytes := t.bytes + |data|);
      if pieces[1] == "" then (t1, InvalidArgument)
      else
        (t1.(counter := if t1.counter == 0 then StrToL(pieces[1]) else t1.counter,
             bytes := t1.bytes + |data|), Ok)
  }

  class CustomListener {
    var countArrived: int
    var messagesSize: int
    var durationVec: seq<real>
    var counter: int

    function Fields(): Tally
      reads this
    {
      Tally(countArrived, messagesSize, durationVec, counter)
    }

    constructor ()
      ensures Fields() == ZERO
    {
      countArrived, messagesSize, durationVec, counter := 0, 0, [], 0;
    }

    method OnReceive(now: TimeSpec, payload: Option<string>) returns (status: Status)
      requires Readable(Arrival(now, payload))
      modifies this
      ensures (Fields(), status) == Receive(old(Fields()), Arrival(now, payload))
      ensures status == Ok ==>
        && payload.Some? && Stamped(payload.value)
        && |durationVec| == |old(durationVec)| + 1 && durationVec[..|old(durationVec)|] == old(durationVec)
        && Lasts(durationVec[|old(durationVec)|], SentTime(payload.value), now)
    {
      hide Pieces, StrToL, Duration, Lasts;
      if payload.None? { return InvalidArgument; }
      var data := payload.value;
      var splitData := Split(data, "|");
      if |splitData| == 0 { return InvalidArgument; }
      if splitData[0] == "" { return InvalidArgument; }
      var time := Split(splitData[0], ".");
      if |time| != 2 { return InvalidArgument; }
      var sentTime := TimeSpec(StrToL(time[0]), StrToL(time[1]));
      var duration := Duration(now, sentTime);
      DurationLasts(now, sentTime);
      durationVec := durationVec + [duration];
      countArrived := countArrived + 1;
      messagesSize := messagesSize + |data|;
      if splitData[1] == "" { return InvalidArgument; }
      if counter == 0 {
        counter := StrToL(splitData[1]);
      }
      messagesSize := messagesSize + |data|;
      return Ok;
    }
  }

  // ---- Over every sequence of messages --------------------------------------------------

  function ReceiveAll(t: Tally, arrivals: seq<Arrival>): Tally
    requires AllReadable(arrivals)
  {
    if arrivals == [] then t
    else Receive(ReceiveAll(t, arrivals[..|arrivals| - 1]), arrivals[|arrivals| - 1]).0
  }

  // The messages that count.
  function Kept(arrivals: seq<Arrival>): (kept: seq<Arrival>)
    ensures AllAccepted(kept) && (AllReadable(arrivals) ==> AllReadable(kept))
  {
    if arrivals == [] then []
    else
      var last := arrivals[|arrivals| - 1];
      Kept(arrivals[..|arrivals| - 1]) + if Accepted(last) then [last] else []
  }

  function Latencies(kept: seq<Arrival>): (d: seq<real>)
    requires AllAccepted(kept)
    ensures |d| == |kept|
  {
    if kept == [] then []
    else
      var last := kept[|kept| - 1];
      Latencies(kept[..|kept| - 1]) + [Duration(last.now, SentTime(last.payload.value))]
  }

  function TotalSize(kept: seq<Arrival>): nat
    requires AllAccepted(kept)
  {
    if kept == [] then 0 else TotalSize(kept[..|kept| - 1]) + |kept[|kept| - 1].payload.value|
  }

  function CounterOf(a: Arrival): int
    requires Accepted(a) && Readable(a)
  {
    StrToL(Pieces(a.payload.value, "|")[1])
  }

  // The first counter that is not zero, or zero.
  function FirstNonZero(kept: seq<Arrival>): int
    requires AllAccepted(kept) && AllReadable(kept)
  {
    if kept == [] then 0
    else if CounterOf(kept[0]) != 0 then CounterOf(kept[0])
    else FirstNonZero(kept[1..])
  }

  lemma {:induction false} FirstNonZeroSnoc(kept: seq<Arrival>, a: Arrival)
    requires AllAccepted(kept) && AllReadable(kept) && Accepted(a) && Readable(a)
    ensures AllAccepted(kept + [a]) && AllReadable(kept + [a])
    ensures FirstNonZero(kept + [a]) == if FirstNonZero(kept) != 0 then FirstNonZero(kept) else CounterOf(a)
  {
    hide CounterOf, Accepted, Readable;
    if kept == [] {
      assert (kept + [a])[1..] == [];
    } else {
      FirstNonZeroSnoc(kept[1..], a);
      assert (kept + [a])[1..] == kept[1..] + [a];
    }
  }

  lemma {:induction false} SecondPieceNotEmpty(data: string)
    requires |Pieces(data, "|")| >= 2
    ensures Pieces(data, "|")[1] != ""
  {
    hide Pieces;
    PiecesAreClean(data, "|");
    assert Pieces(data, "|")[1] in Pieces(data, "|");
  }

  // A message is rejected exactly when its stamp does not parse, and then it changes
  // nothing: the branch that rejects after counting is never taken.
  lemma {:induction false} RejectedChangeNothing(t: Tally, a: Arrival)
    requires Readable(a)
    ensures Receive(t, a).1 == Ok <==> Accepted(a)
    ensures Accepted(a) <==>
            && a.payload.Some? && |Pieces(a.payload.value, "|")| >= 1
            && |Pieces(Pieces(a.payload.value, "|")[0], ".")| == 2
    ensures Receive(t, a).1 == InvalidArgument ==> Receive(t, a).0 == t
  {
    hide Pieces, StrToL;
    if Accepted(a) { SecondPieceNotEmpty(a.payload.value); }
    if a.payload.Some? {
      PiecesAreClean(a.payload.value, "|");
      var pieces := Pieces(a.payload.value, "|");
      assert |pieces| >= 1 ==> pieces[0] in pieces;
    }
  }

  lemma {:induction false} LatenciesLast(kept: seq<Arrival>)
    requires AllAccepted(kept)
    ensures forall k :: 0 <= k < |kept| ==>
              Lasts(Latencies(kept)[k], SentTime(kept[k].payload.value), kept[k].now)
  {
    hide Lasts, Duration, SentTime, Stamped;
    if kept == [] {
    } else {
      var n := |kept| - 1;
      LatenciesLast(kept[..n]);
      DurationLasts(kept[n].now, SentTime(kept[n].payload.value));
    }
  }

  // The fields of a new listener after any messages.
  lemma {:induction false} TallyIsHistory(arrivals: seq<Arrival>)
    requires AllReadable(arrivals)
    ensures var kept, t := Kept(arrivals), ReceiveAll(ZERO, arrivals);
      && t.arrived == |t.durations|
      && t.durations == Latencies(kept)
      && t.bytes == 2 * TotalSize(kept)
      && t.counter == FirstNonZero(kept)
    ensures var kept, t := Kept(arrivals), ReceiveAll(ZERO, arrivals);
      |t.durations| == |kept|
      && forall k :: 0 <= k < |kept| ==> Lasts(t.durations[k], SentTime(kept[k].payload.value), kept[k].now)
  {
    hide Pieces, StrToL, Stamped, SentTime, Lasts, Duration;
    LatenciesLast(Kept(arrivals));
    if arrivals == [] {
    } else {
      var n := |arrivals| - 1;
      var last := arrivals[n];
      TallyIsHistory(arrivals[..n]);
      if Accepted(last) {
        AcceptedStep(ReceiveAll(ZERO, arrivals[..n]), last);
        FirstNonZeroSnoc(Kept(arrivals[..n]), last);
        assert Kept(arrivals)[..|Kept(arrivals)| - 1] == Kept(arrivals[..n]);
      } else {
        assert Kept(arrivals) == Kept(arrivals[..n]);
      }
    }
  }

  lemma {:induction false} AcceptedStep(t: Tally, a: Arrival)
    requires Readable(a) && Accepted(a)
    ensures Receive(t, a).0 == Tally(
              t.arrived + 1,
              t.bytes + 2 * |a.payload.value|,
              t.durations + [Duration(a.now, SentTime(a.payload.value))],
              if t.counter == 0 then CounterOf(a) else t.counter)
  {
    hide Pieces, StrToL;
    SecondPieceNotEmpty(a.payload.value);
  }

  // ---- From publisher to listener ---------------------------------------------------------

  // A message built by the publisher is accepted; the listener gets back the stamp and
  // the round, and records the time from the stamp to its own clock.
  lemma {:induction false} MessageRoundTrip(t: Tally, now: TimeSpec, tm: TimeSpec, i: nat, filler: string)
    requires Reading(tm) && i <= LONG_MAX && Alphanumeric(filler)
    ensures var a := Arrival(now, Some(Message(tm, i, filler)));
      && Readable(a) && Accepted(a)
      && SentTime(a.payload.value) == tm && CounterOf(a) == i
      && Receive(t, a).1 == Ok
    ensures var t' := Receive(t, Arrival(now, Some(Message(tm, i, filler)))).0;
      && t'.arrived == t.arrived + 1
      && t'.bytes == t.bytes + 2 * |Message(tm, i, filler)|
      && t'.counter == (if t.counter == 0 then i else t.counter)
      && |t'.durations| == |t.durations| + 1 && t'.durations[..|t.durations|] == t.durations
      && Lasts(t'.durations[|t.durations|], tm, now)
  {
    hide Pieces, StrToL, Message, Stamp, Duration, Lasts;
    DurationLasts(now, tm);
    MessagePieces(tm, i, filler);
    StampPieces(tm);
    StrToLOfPrint(tm.sec);
    StrToLOfPrint(tm.nsec);
    StrToLOfPrint(i);
    var a := Arrival(now, Some(Message(tm, i, filler)));
    assert Readable(a) && Accepted(a);
    AcceptedStep(t, a);
    RejectedChangeNothing(t, a);
  }
}
