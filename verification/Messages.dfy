/** The publisher's side of the data path: timestamped messages and the send loop. */
module Messages {
  import opened Decimal
  import opened Text

  const MSG_SIZE: int := 200
  const ROUNDS: nat := 100000
  const SIZE_T: int := 0x1_0000_0000_0000_0000

  datatype TimeSpec = TimeSpec(sec: int, nsec: int)

  // getDuration, in seconds
  function Duration(end: TimeSpec, start: TimeSpec): real {
    (end.sec as real + end.nsec as real * 0.000000001)
    - (start.sec as real + start.nsec as real * 0.000000001)
  }

  // d is the time from start to end, to the nanosecond.
  ghost predicate Lasts(d: real, start: TimeSpec, end: TimeSpec) {
    d * 1000000000.0 == ((end.sec - start.sec) * 1000000000 + end.nsec - start.nsec) as real
  }

  lemma {:induction false} DurationLasts(end: TimeSpec, start: TimeSpec)
    ensures Lasts(Duration(end, start), start, end)
  {
  }

  // A reading of the monotonic clock.
  predicate Reading(tm: TimeSpec) {
    0 <= tm.sec <= LONG_MAX && 0 <= tm.nsec <= LONG_MAX
  }

  function Stamp(tm: TimeSpec): string
    requires Reading(tm)
  {
    Print(tm.sec) + "." + Print(tm.nsec)
  }

  function Prefix(tm: TimeSpec, i: nat): string
    requires Reading(tm)
  {
    Stamp(tm) + "|" + Print(i) + "|"
  }

  // msg_size - len is computed as an unsigned 64-bit number; when it is not zero, that
  // many random characters are appended.
  function FillerLength(len: nat): nat {
    (MSG_SIZE - len) % SIZE_T
  }

  predicate Alphanumeric(s: string) {
    forall i :: 0 <= i < |s| ==> 'a' <= s[i] <= 'z' || 'A' <= s[i] <= 'Z' || '0' <= s[i] <= '9'
  }

  function Message(tm: TimeSpec, i: nat, filler: string): string
    requires Reading(tm)
  {
    Prefix(tm, i) + filler
  }

  // ---- What a message looks like ------------------------------------------------------

  lemma {:induction false} DigitsAreClean(s: string)
    requires AllDigits(s) && s != ""
    ensures Clean(s, '.') && Clean(s, '|')
  {
    assert forall i :: 0 <= i < |s| ==> IsDigit(s[i]);
  }

  lemma {:induction false} LongHasNineteenDigits()
    ensures LONG_MAX < Power10(19)
  {
    assert Power10(19) == 10000000000000000000 by {
      assert Power10(5) == 100000;
      assert Power10(10) == 10000000000;
      assert Power10(15) == 1000000000000000;
    }
  }

  // For every clock reading and round the prefix is far shorter than the message, so
  // the subtraction in FillerLength never wraps around.
  lemma {:induction false} PrefixIsShort(tm: TimeSpec, i: nat)
    requires Reading(tm) && i < ROUNDS
    ensures |Prefix(tm, i)| <= 46 && FillerLength(|Prefix(tm, i)|) == MSG_SIZE - |Prefix(tm, i)|
  {
    LongHasNineteenDigits();
    PrintLength(tm.sec, 19);
    PrintLength(tm.nsec, 19);
    assert Power10(5) == 100000;
    PrintLength(i, 5);
  }

  // A message has exactly msg_size characters if and only if its prefix has no more;
  // otherwise the length of the filler wraps around.
  lemma {:induction false} MessageSizeExactly(tm: TimeSpec, i: nat, filler: string)
    requires Reading(tm) && |Prefix(tm, i)| < SIZE_T && |filler| == FillerLength(|Prefix(tm, i)|)
    ensures |Message(tm, i, filler)| == MSG_SIZE <==> |Prefix(tm, i)| <= MSG_SIZE
  {
    hide Prefix;
  }

  // Every message that the publisher can build has exactly msg_size characters.
  lemma {:induction false} MessageSize(tm: TimeSpec, i: nat, filler: string)
    requires Reading(tm) && i < ROUNDS && |filler| == FillerLength(|Prefix(tm, i)|)
    ensures |Message(tm, i, filler)| == 200
  {
    PrefixIsShort(tm, i);
  }

  lemma {:induction false} StampPieces(tm: TimeSpec)
    requires Reading(tm)
    ensures Pieces(Stamp(tm), ".") == [Print(tm.sec), Print(tm.nsec)]
    ensures Clean(Stamp(tm), '|')
  {
    DigitsAreClean(Print(tm.sec));
    DigitsAreClean(Print(tm.nsec));
    PiecesStep(Print(tm.sec), '.', Print(tm.nsec));
    PiecesOfOne(Print(tm.nsec), '.');
  }

  // Split at '|', a message falls into its stamp, its round and its filler.
  lemma {:induction false} MessagePieces(tm: TimeSpec, i: nat, filler: string)
    requires Reading(tm) && Alphanumeric(filler)
    ensures Pieces(Message(tm, i, filler), "|") == [Stamp(tm), Print(i)] + NonEmpty(filler)
    ensures |Message(tm, i, filler)| == |Print(tm.sec)| + |Print(tm.nsec)| + |Print(i)| + |filler| + 3
  {
    hide Pieces, Print;
    StampPieces(tm);
    DigitsAreClean(Print(i));
    var tail := Print(i) + "|" + filler;
    assert Message(tm, i, filler) == Stamp(tm) + "|" + tail;
    PiecesStep(Stamp(tm), '|', tail);
    PiecesStep(Print(i), '|', filler);
    if filler == "" {
      PiecesOfNothing("|");
    } else {
      PiecesOfOne(filler, '|');
    }
  }

  // ---- The send loop --------------------------------------------------------------------

  // One send: the clock for the stamp, the random filler, the clock before and after,
  // and whether the transport took it.
  datatype Send = Send(tm: TimeSpec, filler: string, start: TimeSpec, end: TimeSpec, ok: bool)

  ghost predicate WellFed(round: seq<Send>, i: nat) {
    forall j :: 0 <= j < |round| ==>
      && Reading(round[j].tm)
      && Alphanumeric(round[j].filler)
      && |round[j].filler| == FillerLength(|Prefix(round[j].tm, i)|)
  }

  // A script has a round for every value of i and in it a send for every URI.
  ghost predicate Script(feed: seq<seq<Send>>) {
    |feed| == ROUNDS && forall i :: 0 <= i < |feed| ==> WellFed(feed[i], i)
  }

  function RoundTexts(round: seq<Send>, i: nat): (texts: seq<string>)
    requires WellFed(round, i)
    ensures |texts| == |round|
  {
    if round == [] then []
    else
      var last := round[|round| - 1];
      RoundTexts(round[..|round| - 1], i) + [Message(last.tm, i, last.filler)]
  }

  function RoundTimes(round: seq<Send>): (times: seq<real>)
    ensures |times| == |round|
  {
    if round == [] then []
    else RoundTimes(round[..|round| - 1]) + [Duration(round[|round| - 1].end, round[|round| - 1].start)]
  }

  // The messages of the first n rounds, and the durations recorded in them: none in
  // the first.
  function Texts(feed: seq<seq<Send>>, n: nat): seq<string>
    requires Script(feed) && n <= |feed|
  {
    if n == 0 then [] else Texts(feed, n - 1) + RoundTexts(feed[n - 1], n - 1)
  }

  function Times(feed: seq<seq<Send>>, n: nat): seq<real>
    requires n <= |feed|
  {
    if n <= 1 then [] else Times(feed, n - 1) + RoundTimes(feed[n - 1])
  }

  ghost predicate AllTaken(feed: seq<seq<Send>>) {
    forall i :: 0 <= i < |feed| ==> RoundTaken(feed[i])
  }

  ghost predicate RoundTaken(round: seq<Send>) {
    forall j :: 0 <= j < |round| ==> round[j].ok
  }

  // The send at i, j is the first to fail, and the last to be made.
  ghost predicate GaveUpAt(feed: seq<seq<Send>>, sent: seq<string>, i: nat, j: nat)
    requires Script(feed)
  {
    && i < |feed| && j < |feed[i]|
    && !feed[i][j].ok
    && (forall i' :: 0 <= i' < i ==> RoundTaken(feed[i']))
    && RoundTaken(feed[i][..j])
    && sent == Texts(feed, i) + RoundTexts(feed[i][..j + 1], i)
  }

  lemma {:induction false} RoundStep(round: seq<Send>, i: nat, j: nat)
    requires WellFed(round, i) && j < |round|
    ensures RoundTexts(round[..j + 1], i) ==
            RoundTexts(round[..j], i) + [Message(round[j].tm, i, round[j].filler)]
    ensures RoundTimes(round[..j + 1]) == RoundTimes(round[..j]) + [Duration(round[j].end, round[j].start)]
  {
    assert round[..j + 1][..j] == round[..j];
  }

  // The publisher's nested loops.  When a send fails it gives up at once.
  method Publish(feed: seq<seq<Send>>) returns (sent: seq<string>, pubVec: seq<real>, ok: bool)
    requires Script(feed)
    ensures ok <==> AllTaken(feed)
    ensures ok ==> sent == Texts(feed, ROUNDS) && pubVec == Times(feed, ROUNDS)
    ensures !ok ==> exists i, j :: GaveUpAt(feed, sent, i, j)
    ensures forall k :: 0 <= k < |sent| ==> |sent[k]| == 200
  {
    hide RoundTexts, RoundTimes, FillerLength, Duration, Prefix, Message, Print;
    sent, pubVec := [], [];
    for i := 0 to |feed|
      invariant sent == Texts(feed, i) && pubVec == Times(feed, i)
      invariant forall i' :: 0 <= i' < i ==> RoundTaken(feed[i'])
      invariant forall k :: 0 <= k < |sent| ==> |sent[k]| == MSG_SIZE
    {
      var round := feed[i];
      ghost var texts, times := sent, pubVec;
      EmptyRound(i);
      for j := 0 to |round|
        invariant sent == texts + RoundTexts(round[..j], i)
        invariant pubVec == times + if i == 0 then [] else RoundTimes(round[..j])
        invariant forall j' :: 0 <= j' < j ==> round[j'].ok
        invariant forall k :: 0 <= k < |sent| ==> |sent[k]| == MSG_SIZE
      {
        var send := round[j];
        RoundStep(round, i, j);
        var s := Print(send.tm.sec) + "." + Print(send.tm.nsec) + "|" + Print(i) + "|";
        MessageText(send.tm, i, send.filler);
        if FillerLength(|s|) > 0 {
          s := s + send.filler;
        }
        MessageSize(send.tm, i, send.filler);
        sent := sent + [s];
        if !send.ok {
          assert !RoundTaken(feed[i]);
          assert GaveUpAt(feed, sent, i, j);
          return sent, pubVec, false;
        }
        if i != 0 {
          pubVec := pubVec + [Duration(send.end, send.start)];
        }
      }
      assert round[..|round|] == round;
    }
    ok := true;
  }

  lemma {:induction false} MessageText(tm: TimeSpec, i: nat, filler: string)
    requires Reading(tm)
    ensures var s := Print(tm.sec) + "." + Print(tm.nsec) + "|" + Print(i) + "|";
      && s == Prefix(tm, i) && s + filler == Message(tm, i, filler)
      && (filler == "" ==> s == Message(tm, i, filler))
  {
    hide Print;
    assert Prefix(tm, i) + "" == Prefix(tm, i);
  }

  lemma {:induction false} EmptyRound(i: nat)
    ensures RoundTexts([], i) == [] && RoundTimes([]) == []
  {
  }

  lemma {:induction false} RoundAt(round: seq<Send>, i: nat, j: nat)
    requires WellFed(round, i) && j < |round|
    ensures RoundTexts(round, i)[j] == Message(round[j].tm, i, round[j].filler)
    ensures Lasts(RoundTimes(round)[j], round[j].start, round[j].end)
  {
    hide Message, Duration, Lasts;
    var n := |round| - 1;
    if j == n {
      DurationLasts(round[n].end, round[n].start);
    } else {
      RoundAt(round[..n], i, j);
    }
  }

  // Of u sends a round, the message of send j of round i, and the duration recorded of
  // it; none is recorded in the first round.
  lemma {:induction false} SendsAt(feed: seq<seq<Send>>, u: nat, n: nat, i: nat, j: nat)
    requires Script(feed) && n <= |feed| && (forall k :: 0 <= k < |feed| ==> |feed[k]| == u)
    requires i < n && j < u
    ensures 0 <= i * u + j < |Texts(feed, n)|
    ensures Texts(feed, n)[i * u + j] == Message(feed[i][j].tm, i, feed[i][j].filler)
    ensures i > 0 ==> 0 <= (i - 1) * u + j < |Times(feed, n)|
    ensures i > 0 ==> Lasts(Times(feed, n)[(i - 1) * u + j], feed[i][j].start, feed[i][j].end)
  {
    hide RoundTexts, RoundTimes, Message, Lasts;
    PublishCounts(feed, u, n);
    PublishCounts(feed, u, n - 1);
    OneMore(n, u);
    OneMore(n - 1, u);
    OneMore(i, u);
    if i == n - 1 {
      RoundAt(feed[i], i, j);
    } else {
      SendsAt(feed, u, n - 1, i, j);
    }
  }

  // A publisher of u URIs makes ROUNDS * u sends and records a duration for all but
  // the first u.
  lemma {:induction false} PublishCounts(feed: seq<seq<Send>>, u: nat, n: nat)
    requires Script(feed) && n <= |feed| && forall i :: 0 <= i < |feed| ==> |feed[i]| == u
    ensures |Texts(feed, n)| == n * u
    ensures |Times(feed, n)| == if n == 0 then 0 else (n - 1) * u
    ensures |feed| == 100000
  {
    hide RoundTexts, RoundTimes;
    if n == 0 {
    } else {
      PublishCounts(feed, u, n - 1);
      OneMore(n, u);
      OneMore(n - 1, u);
    }
  }

  lemma {:induction false} OneMore(n: int, u: nat)
    ensures n * u == (n - 1) * u + u
  {
  }
}
