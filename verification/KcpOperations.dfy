/** What each operation of a conversation does, field by field: the segments it
    builds, the entries it queues and sweeps, and everything it leaves alone. */
module KcpOperations {
  import opened ByteStrings
  import opened KcpSegment
  import opened Kcp
  import opened KcpSender
  import opened KcpRetransmit
  import opened KcpReceiver

  // --------------------------------------------------------------- send

  /** Which messages are taken, and what is said to the others. */
  lemma TakenExactly(st: State, message: Bytes)
    ensures SendOutcomeOf(st, message) == RefusedClosed <==> st.closed
    ensures SendOutcomeOf(st, message) == RefusedTooLong
            <==> !st.closed && |message| > 256 * 1376
    ensures SendOutcomeOf(st, message) == Sent <==> !st.closed && |message| <= 256 * 1376
  {
  }

  lemma RefusedChangesNothing(st: State, message: Bytes, clock: Clock)
    requires st.closed || |message| > 256 * 1376
    ensures Send(st, message, clock) == st
  {
    TakenExactly(st, message);
  }

  /** How many pushes a message takes. */
  predicate Takes(message: Bytes, count: nat) {
    count >= 1 && |message| <= count * 1376 && (count > 1 ==> (count - 1) * 1376 < |message|)
  }

  /** The push of chunk `k` out of `count`, all its fields. */
  predicate IsPush(push: Segment, st: State, message: Bytes, count: nat, k: nat, clock: Clock)
    requires k < count && Takes(message, count)
  {
    && push.conversation == st.conversation && push.command == 0x51
    && push.fragment == count - 1 - k && push.window == 512
    && push.timestamp == clock(2 * k) % 0x1_0000_0000
    && push.sequence == st.nextSend + k && push.unacknowledged == st.nextReceive
    && push.data == message[k * 1376..if k == count - 1 then |message| else (k + 1) * 1376]
  }

  lemma ChunkBounds(message: Bytes, count: nat, k: nat)
    requires Takes(message, count) && k < count
    ensures ChunkCount(message) == count
    ensures ChunkAt(message, k)
            == message[k * 1376..if k == count - 1 then |message| else (k + 1) * 1376]
  {
    assert k * 1376 <= |message|;
    if k < count - 1 {
      assert (k + 1) * 1376 <= (count - 1) * 1376;
    }
  }

  /** The first `n` pushes of a message, and the entries that wait for them. */
  predicate Queues(st: State, after: State, message: Bytes, count: nat, n: nat, clock: Clock)
    requires n <= count && Takes(message, count)
  {
    && |after.transmitted| == |st.transmitted| + n && |after.pending| == |st.pending| + n
    && after.transmitted[..|st.transmitted|] == st.transmitted
    && after.pending[..|st.pending|] == st.pending
    && (forall j :: |st.transmitted| <= j < |after.transmitted| ==>
          IsPush(after.transmitted[j], st, message, count, j - |st.transmitted|, clock))
    && (forall j :: |st.pending| <= j < |after.pending| ==>
          var k := j - |st.pending|;
          && after.pending[j].sequence == st.nextSend + k
          && after.pending[j].raw == after.transmitted[|st.transmitted| + k]
          && after.pending[j].sentAt == clock(2 * k + 1) % 0x1_0000_0000
          && after.pending[j].transmits == 1)
    && after == st.(nextSend := st.nextSend + n, pending := after.pending,
                    transmitted := after.transmitted)
  }

  lemma PushOneQueues(st: State, before: State, message: Bytes, count: nat, n: nat, clock: Clock)
    requires n < count && Takes(message, count) && Queues(st, before, message, count, n, clock)
    requires n < ChunkCount(message)
    ensures Queues(st, PushOne(before, message, n, clock), message, count, n + 1, clock)
  {
    ChunkBounds(message, count, n);
    var after := PushOne(before, message, n, clock);
    var raw := PushOf(before, message, n, Now(clock, 2 * n));
    var entry := Pending(before.nextSend, raw, Now(clock, 2 * n + 1), 1);
    assert IsPush(raw, st, message, count, n, clock);
    hide ChunkAt, ChunkCount, PushOf, IsPush, Takes;
    assert after.transmitted == before.transmitted + [raw];
    assert after.pending == before.pending + [entry];
    assert after.transmitted[..|st.transmitted|] == before.transmitted[..|st.transmitted|];
    assert after.pending[..|st.pending|] == before.pending[..|st.pending|];
  }

  lemma NothingQueued(st: State, message: Bytes, count: nat, clock: Clock)
    requires Takes(message, count)
    ensures Queues(st, st, message, count, 0, clock)
  {
  }

  lemma {:induction false} PushUpToQueuesExactly(st: State, message: Bytes, count: nat, n: nat,
                                                 clock: Clock)
    requires Takes(message, count) && n <= count && n <= ChunkCount(message)
    ensures Queues(st, PushUpTo(st, message, n, clock), message, count, n, clock)
  {
    hide PushUpTo, PushOne, Queues, ChunkCount, Takes;
    PushUpToSteps(st, message, n, clock);
    if n == 0 {
      NothingQueued(st, message, count, clock);
    } else {
      PushUpToQueuesExactly(st, message, count, n - 1, clock);
      PushOneQueues(st, PushUpTo(st, message, n - 1, clock), message, count, n - 1, clock);
    }
  }

  /** A message that is taken is cut into pieces of 1376 bytes and what is left, one
      push each: under the conversation's own id, counting down, with a window of
      512, the clock as it was read for that push, the next sequences and the receive
      sequence. Each is transmitted and queued once, and nothing else changes but
      that the retransmit task runs. */
  lemma SendExactly(st: State, message: Bytes, count: nat, clock: Clock)
    requires !st.closed && |message| <= 256 * 1376 && Takes(message, count)
    ensures var after := Send(st, message, clock);
            after.armed && Queues(st, after.(armed := st.armed), message, count, count, clock)
  {
    TakenExactly(st, message);
    ChunkBounds(message, count, 0);
    PushUpToQueuesExactly(st, message, count, count, clock);
    hide PushUpTo, Queues, ChunkCount, Takes;
    var pushed := PushUpTo(st, message, count, clock);
    QueuesKeepsArmed(st, pushed, message, count, count, clock);
    assert Send(st, message, clock).(armed := st.armed) == pushed;
  }

  lemma QueuesKeepsArmed(st: State, after: State, message: Bytes, count: nat, n: nat,
                         clock: Clock)
    requires n <= count && Takes(message, count) && Queues(st, after, message, count, n, clock)
    ensures after.armed == st.armed
  {
  }

  // ------------------------------------------------------------ arrivals

  /** What answers a segment: one acknowledgement for a push, that echoes sequence and
      timestamp and carries the receive sequence reached, the window for a window
      probe, and nothing for anything else. All announce a window of 512. */
  lemma AnswersExactly(st: State, segment: Segment, clock: Clock)
    requires !st.closed
    ensures var after := Input(st, segment, clock);
            after.transmitted
            == st.transmitted
               + (if segment.command == 0x51 then
                    [Segment(st.conversation, 0x52, 0, 512, segment.timestamp, segment.sequence,
                             after.nextReceive, [])]
                  else if segment.command == 0x53 then
                    [Segment(st.conversation, 0x54, 0, 512, clock(0) % 0x1_0000_0000, 0,
                             after.nextReceive, [])]
                  else [])
  {
    InputReplies(st, segment, clock);
    InputReceives(st, segment, clock);
    hide Input, Accept;
  }

  /** What a segment retires: everything below its receive sequence, and for an
      acknowledgement everything up to its sequence, no further than what was sent;
      what waits above stays as it was. */
  lemma RetiresExactly(st: State, segment: Segment, clock: Clock)
    requires Queued(st) && !st.closed
    ensures var after := Input(st, segment, clock);
            var base := st.nextSend - |st.pending|;
            var told := if segment.command == 0x52
                        then Max(segment.unacknowledged, segment.sequence + 1)
                        else segment.unacknowledged;
            var dropped := Max(0, Min(told, st.nextSend) - base);
            && dropped <= |st.pending| && after.pending == st.pending[dropped..]
            && after.nextSend == st.nextSend && !after.closed
  {
    InputMovesBase(st, segment, clock);
    hide Input;
  }

  // --------------------------------------------------------------- sweep

  /** The segments of the entries that have waited 300 ms, in order. */
  function DueRaws(pending: seq<Pending>, now: nat): seq<Segment> {
    if pending == [] then []
    else
      var last := pending[|pending| - 1];
      DueRaws(pending[..|pending| - 1], now)
      + (if now - last.sentAt >= 300 then [last.raw] else [])
  }

  predicate UsedUp(entry: Pending, now: nat) { now - entry.sentAt >= 300 && entry.transmits >= 8 }

  /** The first `n` entries were swept: those due went out once more and are stamped,
      the others are as they were. */
  predicate Swept(st: State, after: State, n: nat, now: nat)
    requires n <= |st.pending|
  {
    && after.transmitted == st.transmitted + DueRaws(st.pending[..n], now)
    && |after.pending| == |st.pending|
    && (forall i :: 0 <= i < |st.pending| ==>
          after.pending[i]
          == if i < n && now - st.pending[i].sentAt >= 300
             then Pending(st.pending[i].sequence, st.pending[i].raw, now,
                          st.pending[i].transmits + 1)
             else st.pending[i])
    && after == st.(pending := after.pending, transmitted := after.transmitted)
  }

  lemma DueRawsMore(pending: seq<Pending>, n: nat, now: nat)
    requires n < |pending|
    ensures DueRaws(pending[..n + 1], now)
            == DueRaws(pending[..n], now)
               + (if now - pending[n].sentAt >= 300 then [pending[n].raw] else [])
  {
    assert pending[..n + 1][..n] == pending[..n];
  }

  lemma SweepEntrySweeps(st: State, before: State, i: nat, now: nat)
    requires i < |st.pending| && Swept(st, before, i, now) && !UsedUp(st.pending[i], now)
    ensures Swept(st, SweepEntry(before, i, now), i + 1, now)
  {
    DueRawsMore(st.pending, i, now);
    hide DueRaws;
    var due := if now - st.pending[i].sentAt >= 300 then [st.pending[i].raw] else [];
    ConcatAssoc(st.transmitted, DueRaws(st.pending[..i], now), due);
    assert SweepEntry(before, i, now).transmitted == before.transmitted + due;
  }

  lemma {:induction false} SweepUpToSweeps(st: State, n: nat, now: nat)
    requires n <= |st.pending| && !st.closed
    requires forall i :: 0 <= i < n ==> !UsedUp(st.pending[i], now)
    ensures Swept(st, SweepUpTo(st, n, now), n, now)
  {
    hide Swept, SweepEntry, UsedUp;
    if n == 0 {
      NothingSwept(st, now);
    } else {
      SweepUpToSweeps(st, n - 1, now);
      SweptStaysOpen(st, SweepUpTo(st, n - 1, now), n - 1, now);
      SweepEntrySweeps(st, SweepUpTo(st, n - 1, now), n - 1, now);
    }
  }

  lemma NothingSwept(st: State, now: nat)
    ensures Swept(st, st, 0, now)
  {
    assert st.pending[..0] == [] && st.transmitted + [] == st.transmitted;
  }

  lemma SweptStaysOpen(st: State, after: State, n: nat, now: nat)
    requires n <= |st.pending| && Swept(st, after, n, now)
    ensures after.closed == st.closed
  {
  }

  /** A sweep in which no due entry has used up its eight transmits: all due entries
      go out, in the order of the queue. */
  lemma SweepExactly(st: State, now: nat)
    requires !st.closed && forall i :: 0 <= i < |st.pending| ==> !UsedUp(st.pending[i], now)
    ensures Swept(st, Sweep(st, now), |st.pending|, now)
  {
    SweepUpToSweeps(st, |st.pending|, now);
  }

  /** A sweep that comes to an entry that has used them up: the due entries before it
      go out, and the conversation is closed. */
  lemma SweepGivesUp(st: State, now: nat, first: nat)
    requires !st.closed && first < |st.pending| && UsedUp(st.pending[first], now)
    requires forall i :: 0 <= i < first ==> !UsedUp(st.pending[i], now)
    ensures Sweep(st, now)
            == st.(transmitted := st.transmitted + DueRaws(st.pending[..first], now),
                   closed := true, armed := false, received := map[], pending := [],
                   handler := false)
  {
    SweepUpToSweeps(st, first, now);
    var before := SweepUpTo(st, first, now);
    hide DueRaws;
    SweptStaysOpen(st, before, first, now);
    assert SweepUpTo(st, first + 1, now) == SweepEntry(before, first, now) == Close(before);
    hide SweepUpTo;
    SweepStaysClosed(st, first + 1, |st.pending|, now);
  }

  // --------------------------------------------------------------- close

  /** Closing drops what was queued, what was held back and the handler, and stops
      the retransmit task; the rest, a half-built message included, stays. */
  lemma ClosesExactly(st: State)
    ensures Close(st)
            == if st.closed then st
               else st.(closed := true, armed := false, received := map[], pending := [],
                        handler := false)
  {
  }

  // ---------------------------------------------------------- whole runs

  /** Everything a conversation has transmitted or waits to have acknowledged. */
  function Known(st: State): set<Segment> {
    (set x | x in st.transmitted) + (set p | p in st.pending :: p.raw)
  }

  /** One segment, and no other, is ever used for a sequence. */
  predicate Agreed(segments: set<Segment>) {
    forall x, y ::
      (x in segments && y in segments && x.command == y.command == 0x51
       && x.sequence == y.sequence) ==>
        x == y
  }

  predicate Announces(segments: set<Segment>, conversation: nat, nextSend: nat) {
    forall x :: x in segments ==>
      && x.conversation == conversation && x.window == 512
      && (x.command == 0x51 ==> x.sequence < nextSend)
  }

  predicate Faithful(st: State, conversation: nat) {
    && st.conversation == conversation && Agreed(Known(st))
    && Announces(Known(st), conversation, st.nextSend)
  }

  /** Nothing new but segments that are no pushes. */
  lemma StaysFaithful(st: State, after: State, conversation: nat)
    requires Faithful(st, conversation) && after.conversation == st.conversation
    requires after.nextSend == st.nextSend
    requires forall x :: x in Known(after) ==>
               x in Known(st)
               || (x.conversation == conversation && x.window == 512 && x.command != 0x51)
    ensures Faithful(after, conversation)
  {
    hide Known;
  }

  lemma {:induction false} DueRawsPending(pending: seq<Pending>, now: nat)
    ensures forall x :: x in DueRaws(pending, now) ==> x in set p | p in pending :: p.raw
  {
    if pending != [] {
      var n := |pending| - 1;
      DueRawsPending(pending[..n], now);
      assert pending[n] in pending;
      assert forall p :: p in pending[..n] ==> p in pending;
    }
  }

  /** The first entry that has used up its transmits, or the length of the queue. */
  function FirstUsedUp(pending: seq<Pending>, now: nat): (f: nat)
    ensures f <= |pending| && (f < |pending| ==> UsedUp(pending[f], now))
    ensures forall i :: 0 <= i < f ==> !UsedUp(pending[i], now)
  {
    if pending == [] || UsedUp(pending[0], now) then 0
    else 1 + FirstUsedUp(pending[1..], now)
  }

  /** What a sweep transmits was waiting. */
  lemma KnownAfterSweep(st: State, after: State, n: nat, now: nat)
    requires n <= |st.pending|
    requires after.transmitted == st.transmitted + DueRaws(st.pending[..n], now)
    requires forall p :: p in after.pending ==>
               exists i :: 0 <= i < |st.pending| && st.pending[i].raw == p.raw
    ensures Known(after) <= Known(st)
  {
    DueRawsPending(st.pending[..n], now);
    assert forall p :: p in st.pending[..n] ==> p in st.pending;
    hide DueRaws;
    forall p | p in after.pending
      ensures p.raw in Known(st)
    {
      var i :| 0 <= i < |st.pending| && st.pending[i].raw == p.raw;
      assert st.pending[i] in st.pending;
    }
  }

  lemma SweptFaithful(st: State, after: State, conversation: nat, now: nat)
    requires Faithful(st, conversation) && Swept(st, after, |st.pending|, now)
    ensures Faithful(after, conversation)
  {
    hide DueRaws, Faithful, Known;
    KnownAfterSweep(st, after, |st.pending|, now);
    StaysFaithful(st, after, conversation);
  }

  lemma GivenUpFaithful(st: State, after: State, conversation: nat, now: nat, first: nat)
    requires Faithful(st, conversation) && first <= |st.pending|
    requires after.transmitted == st.transmitted + DueRaws(st.pending[..first], now)
    requires after.pending == [] && after.nextSend == st.nextSend
    requires after.conversation == st.conversation
    ensures Faithful(after, conversation)
  {
    hide DueRaws, Faithful, Known;
    KnownAfterSweep(st, after, first, now);
    StaysFaithful(st, after, conversation);
  }

  lemma SweepFaithful(st: State, conversation: nat, now: nat)
    requires Faithful(st, conversation) && !st.closed
    ensures Faithful(Sweep(st, now), conversation)
  {
    var first := FirstUsedUp(st.pending, now);
    hide Sweep, DueRaws, UsedUp, Faithful, Swept;
    if first < |st.pending| {
      SweepGivesUp(st, now, first);
      GivenUpFaithful(st, Sweep(st, now), conversation, now, first);
    } else {
      SweepExactly(st, now);
      SweptFaithful(st, Sweep(st, now), conversation, now);
    }
  }

  lemma KnownAfterInput(st: State, after: State, dropped: nat, replies: seq<Segment>)
    requires dropped <= |st.pending| && after.pending == st.pending[dropped..]
    requires after.transmitted == st.transmitted + replies
    ensures forall x :: x in Known(after) ==> x in Known(st) || x in replies
  {
    assert forall p :: p in after.pending ==> p in st.pending;
  }

  lemma InputFaithful(st: State, conversation: nat, segment: Segment, clock: Clock)
    requires Faithful(st, conversation) && Queued(st) && !st.closed
    ensures Faithful(Input(st, segment, clock), conversation)
  {
    var after := Input(st, segment, clock);
    AnswersExactly(st, segment, clock);
    InputReplies(st, segment, clock);
    InputMovesBase(st, segment, clock);
    InputIsRetirements(st, segment, clock);
    FaithfulId(st, conversation);
    hide Input, Faithful, Known, Queued, Accept;
    var replies := Replies(st, segment, clock);
    KnownAfterInput(st, after, |st.pending| - |after.pending|, replies);
    assert forall x :: x in replies ==>
        x.conversation == conversation && x.window == 512 && x.command != 0x51;
    hide Replies;
    StaysFaithful(st, after, conversation);
  }

  lemma FaithfulId(st: State, conversation: nat)
    requires Faithful(st, conversation)
    ensures st.conversation == conversation
  {
  }

  lemma SendFaithful(st: State, conversation: nat, message: Bytes, clock: Clock)
    requires Faithful(st, conversation) && SendOutcomeOf(st, message) == Sent
    ensures Faithful(Send(st, message, clock), conversation)
  {
    TakenExactly(st, message);
    var count := ChunkCount(message);
    SendExactly(st, message, count, clock);
    var after := Send(st, message, clock);
    FaithfulId(st, conversation);
    hide Send, ChunkCount, SendOutcomeOf, Faithful;
    forall x | x in Known(after)
      ensures x in Known(st) || NewPush(st, after, conversation, x)
    {
      NewOrKnown(st, after.(armed := st.armed), message, count, clock, x);
    }
    NewPushesAgree(st, after, conversation);
  }

  /** A push with the next sequences, where its sequence says. */
  predicate NewPush(st: State, after: State, conversation: nat, x: Segment) {
    && x.conversation == conversation && x.window == 512
    && st.nextSend <= x.sequence < after.nextSend
    && |st.transmitted| + x.sequence - st.nextSend < |after.transmitted|
    && after.transmitted[|st.transmitted| + x.sequence - st.nextSend] == x
  }

  lemma NewOrKnown(st: State, after: State, message: Bytes, count: nat, clock: Clock, x: Segment)
    requires Takes(message, count) && Queues(st, after, message, count, count, clock)
    requires x in Known(after)
    ensures x in Known(st) || NewPush(st, after, st.conversation, x)
  {
    if x in after.transmitted {
      var j :| 0 <= j < |after.transmitted| && after.transmitted[j] == x;
      KnownOrNewAt(st, after, message, count, clock, j);
    } else {
      var p :| p in after.pending && p.raw == x;
      var j :| 0 <= j < |after.pending| && after.pending[j] == p;
      if j < |st.pending| {
        assert st.pending[j] == after.pending[..|st.pending|][j] == p;
      } else {
        KnownOrNewAt(st, after, message, count, clock, |st.transmitted| + j - |st.pending|);
      }
    }
  }

  lemma KnownOrNewAt(st: State, after: State, message: Bytes, count: nat, clock: Clock, j: nat)
    requires Takes(message, count) && Queues(st, after, message, count, count, clock)
    requires j < |after.transmitted|
    ensures after.transmitted[j] in Known(st)
            || NewPush(st, after, st.conversation, after.transmitted[j])
  {
    if j < |st.transmitted| {
      assert st.transmitted[j] == after.transmitted[..|st.transmitted|][j];
    } else {
      assert IsPush(after.transmitted[j], st, message, count, j - |st.transmitted|, clock);
    }
  }

  lemma NewPushesAgree(st: State, after: State, conversation: nat)
    requires Faithful(st, conversation) && after.conversation == st.conversation
    requires st.nextSend <= after.nextSend
    requires forall x :: x in Known(after) ==>
               x in Known(st) || NewPush(st, after, conversation, x)
    ensures Faithful(after, conversation)
  {
    hide Known;
  }

  lemma {:induction false} RunFaithful(conversation: nat, events: seq<Event>)
    ensures Faithful(Run(Fresh(conversation), events), conversation)
  {
    if events == [] {
      return;
    }
    var n := |events| - 1;
    RunFaithful(conversation, events[..n]);
    RunKeepsSender(conversation, events[..n]);
    var st := Run(Fresh(conversation), events[..n]);
    hide Run, Input, Sweep, Send, Faithful;
    assert Run(Fresh(conversation), events) == Step(st, events[n]) by {
      RunOnce(conversation, events);
    }
    match events[n]
    case Arrives(segment, clock) =>
      if !st.closed {
        InputFaithful(st, conversation, segment, clock);
      } else {
        assert [events[n]][..0] == [];
        ClosedInput(st, segment, clock);
      }
    case Sends(message, clock) =>
      if SendOutcomeOf(st, message) == Sent {
        SendFaithful(st, conversation, message, clock);
      } else {
        TakenExactly(st, message);
        RefusedChangesNothing(st, message, clock);
      }
    case Sweeps(now) =>
      if !st.closed {
        SweepFaithful(st, conversation, now);
      } else {
        ClosedSweep(st, now);
      }
    case Installs(installed) => QuietFaithful(st, Step(st, events[n]), conversation);
    case Closes => QuietFaithful(st, Step(st, events[n]), conversation);
  }

  lemma RunOnce(conversation: nat, events: seq<Event>)
    requires events != []
    ensures Run(Fresh(conversation), events)
            == Step(Run(Fresh(conversation), events[..|events| - 1]), events[|events| - 1])
  {
  }

  lemma ClosedInput(st: State, segment: Segment, clock: Clock)
    requires st.closed
    ensures Input(st, segment, clock) == st
  {
  }

  lemma ClosedSweep(st: State, now: nat)
    requires st.closed
    ensures Sweep(st, now) == st
  {
  }

  lemma QuietFaithful(st: State, after: State, conversation: nat)
    requires Faithful(st, conversation)
    requires after.conversation == st.conversation && after.nextSend == st.nextSend
    requires after.transmitted == st.transmitted
    requires after.pending == st.pending || after.pending == []
    ensures Faithful(after, conversation)
  {
    assert Known(after) <= Known(st);
  }

  /** In every run, everything a conversation transmits carries its id and announces a
      window of 512, and whatever goes out for a sequence again is what went out for
      it first, byte for byte. */
  lemma ResendsAreIdentical(conversation: nat, events: seq<Event>)
    ensures var sent := Run(Fresh(conversation), events).transmitted;
            && (forall i :: 0 <= i < |sent| ==>
                  sent[i].conversation == conversation && sent[i].window == 512)
            && (forall i, j ::
                  (0 <= i < j < |sent| && sent[i].command == sent[j].command == 0x51
                   && sent[i].sequence == sent[j].sequence) ==>
                    sent[i] == sent[j])
  {
    RunFaithful(conversation, events);
    var st := Run(Fresh(conversation), events);
    hide Run;
    assert forall i :: 0 <= i < |st.transmitted| ==> st.transmitted[i] in Known(st);
    hide Known;
  }
}
