/** The sending half of a conversation over whole runs: what the pending queue
    holds, how often a segment is transmitted, and when the peer is given up. */
module KcpSender {
  import opened ByteStrings
  import opened KcpSegment
  import opened Kcp

  // ---------------------------------------------------- the pending queue

  /** The first sequence not yet retired. */
  function Base(st: State): int { st.nextSend - |st.pending| }

  /** The queue holds exactly the sequences from the base up to the next one to
      send, in order, each with the push that carries it. */
  predicate Queued(st: State) {
    && |st.pending| <= st.nextSend
    && (st.closed ==> st.pending == [])
    && forall i :: 0 <= i < |st.pending| ==>
         && st.pending[i].sequence == Base(st) + i
         && st.pending[i].raw.command == CMD_PUSH
         && st.pending[i].raw.sequence == st.pending[i].sequence
  }

  /** While the conversation is open the retransmit task runs exactly when
      something is pending. */
  predicate ArmedIffPending(st: State) {
    st.armed <==> !st.closed && st.pending != []
  }

  lemma {:induction false} DropBelowIsSuffix(pending: seq<Pending>, unacknowledged: nat, first: nat)
    requires forall i :: 0 <= i < |pending| ==> pending[i].sequence == first + i
    ensures DropBelow(pending, unacknowledged)
            == pending[Max(0, Min(unacknowledged - first, |pending|))..]
  {
    if pending != [] && pending[0].sequence < unacknowledged {
      DropBelowIsSuffix(pending[1..], unacknowledged, first + 1);
    }
  }

  /** The base moved up to `to`, no further than what was sent, and the entries
      above it stayed as they were. */
  predicate BaseMoved(st: State, after: State, to: nat) {
    && Queued(after) && (ArmedIffPending(st) ==> ArmedIffPending(after))
    && after.nextSend == st.nextSend && after.closed == st.closed
    && Base(after) == Max(Base(st), Min(to, st.nextSend))
    && 0 <= Base(after) - Base(st) <= |st.pending|
    && after.pending == st.pending[Base(after) - Base(st)..]
  }

  lemma RetireMovesBase(st: State, unacknowledged: nat)
    requires Queued(st)
    ensures BaseMoved(st, Retire(st, unacknowledged), unacknowledged)
  {
    DropBelowIsSuffix(st.pending, unacknowledged, Base(st));
  }

  lemma MovesCompose(st: State, once: State, twice: State, u: nat, v: nat)
    requires BaseMoved(st, once, u) && BaseMoved(once, twice, v)
    ensures BaseMoved(st, twice, Max(u, v))
  {
    var a, b := Base(once) - Base(st), Base(twice) - Base(once);
    assert |once.pending| == |st.pending| - a && Base(once) <= once.nextSend;
    assert st.pending[a..][b..] == st.pending[a + b..];
  }

  lemma RetireTwice(st: State, u: nat, v: nat)
    requires Queued(st)
    ensures BaseMoved(st, Retire(Retire(st, u), v), Max(u, v))
  {
    RetireMovesBase(st, u);
    RetireMovesBase(Retire(st, u), v);
    MovesCompose(st, Retire(st, u), Retire(Retire(st, u), v), u, v);
  }

  /** What one inbound segment acknowledges: everything below this sequence. */
  function Acknowledged(segment: Segment): nat {
    if segment.command == CMD_ACK then Max(segment.unacknowledged, segment.sequence + 1)
    else segment.unacknowledged
  }

  /** Everything the sending half owns. */
  predicate SameSender(a: State, b: State) {
    && a.conversation == b.conversation && a.nextSend == b.nextSend
    && a.pending == b.pending && a.armed == b.armed && a.closed == b.closed
  }

  lemma {:induction false} DrainKeepsSender(st: State)
    ensures var after := Drain(st);
            && SameSender(st, after) && after.transmitted == st.transmitted
            && after.handler == st.handler && st.nextReceive <= after.nextReceive
    decreases st.received.Keys
  {
    if st.nextReceive in st.received {
      DrainKeepsSender(DrainOne(st));
    }
  }

  lemma AcceptKeepsSender(st: State, segment: Segment)
    ensures var after := Accept(st, segment);
            && SameSender(st, after) && after.transmitted == st.transmitted
            && after.handler == st.handler && st.nextReceive <= after.nextReceive
  {
    if Admissible(st, segment.sequence) {
      DrainKeepsSender(st.(received := st.received[segment.sequence := segment]));
    }
  }

  /** The send side of an inbound segment is the two retirements alone. */
  function Retirements(st: State, segment: Segment): State {
    var once := Retire(st, segment.unacknowledged);
    if segment.command == CMD_ACK then Retire(once, segment.sequence + 1) else once
  }

  /** What an inbound segment is answered with: a push with one
      acknowledgement that echoes its sequence and timestamp and carries the
      receive sequence the delivery advanced, a window probe with the window,
      anything else with nothing. */
  function Replies(st: State, segment: Segment, clock: Clock): seq<Segment> {
    if st.closed then []
    else if segment.command == CMD_PUSH then
      [Segment(st.conversation, CMD_ACK, 0, RECEIVE_WINDOW, segment.timestamp, segment.sequence,
               Accept(st, segment).nextReceive, [])]
    else if segment.command == CMD_WINDOW_ASK then
      [Segment(st.conversation, CMD_WINDOW_TELL, 0, RECEIVE_WINDOW, Now(clock, 0), 0,
               st.nextReceive, [])]
    else []
  }

  /** Everything the receiving half owns. */
  predicate SameReceiver(a: State, b: State) {
    && a.nextReceive == b.nextReceive && a.received == b.received && a.fragments == b.fragments
    && a.handler == b.handler && a.completed == b.completed && a.handed == b.handed
  }

  lemma DrainOneCongruence(a: State, b: State)
    requires SameReceiver(a, b) && a.nextReceive in a.received
    ensures SameReceiver(DrainOne(a), DrainOne(b))
  {
  }

  lemma {:induction false} DrainCongruence(a: State, b: State)
    requires SameReceiver(a, b)
    ensures SameReceiver(Drain(a), Drain(b))
    decreases a.received.Keys
  {
    if a.nextReceive in a.received {
      DrainOneCongruence(a, b);
      DrainCongruence(DrainOne(a), DrainOne(b));
    }
  }

  lemma AcceptCongruence(a: State, b: State, segment: Segment)
    requires SameReceiver(a, b)
    ensures SameReceiver(Accept(a, segment), Accept(b, segment))
  {
    if Admissible(a, segment.sequence) {
      DrainCongruence(a.(received := a.received[segment.sequence := segment]),
                      b.(received := b.received[segment.sequence := segment]));
    }
  }

  /** Each push to an open conversation, with or without a handler, yields
      exactly one acknowledgement; nothing else that arrives yields one. */
  lemma InputReplies(st: State, segment: Segment, clock: Clock)
    ensures Input(st, segment, clock).transmitted
            == st.transmitted + Replies(st, segment, clock)
  {
    if !st.closed && segment.command == CMD_PUSH {
      AcceptCongruence(st, Retire(st, segment.unacknowledged), segment);
      AcceptKeepsSender(Retire(st, segment.unacknowledged), segment);
    }
  }

  lemma InputIsRetirements(st: State, segment: Segment, clock: Clock)
    requires !st.closed
    ensures SameSender(Retirements(st, segment), Input(st, segment, clock))
  {
    if segment.command == CMD_PUSH {
      AcceptKeepsSender(Retire(st, segment.unacknowledged), segment);
    }
  }

  lemma RetirementsMoveBase(st: State, segment: Segment)
    requires Queued(st)
    ensures BaseMoved(st, Retirements(st, segment), Acknowledged(segment))
  {
    RetireMovesBase(st, segment.unacknowledged);
    if segment.command == CMD_ACK {
      RetireTwice(st, segment.unacknowledged, segment.sequence + 1);
    }
  }

  /** One inbound segment moves the base to what it acknowledges and no
      further than what was sent; the entries above stay as they were. */
  lemma InputMovesBase(st: State, segment: Segment, clock: Clock)
    requires Queued(st) && !st.closed
    ensures BaseMoved(st, Input(st, segment, clock), Acknowledged(segment))
  {
    hide Input, Retirements, Acknowledged;
    RetirementsMoveBase(st, segment);
    InputIsRetirements(st, segment, clock);
  }

  // ------------------------------------------------------- transmit counts

  /** How many times a sequence was handed to the connection as a push. */
  function PushCount(transmitted: seq<Segment>, sequence: nat): nat {
    if transmitted == [] then 0
    else
      var last := transmitted[|transmitted| - 1];
      PushCount(transmitted[..|transmitted| - 1], sequence)
      + (if last.command == CMD_PUSH && last.sequence == sequence then 1 else 0)
  }

  lemma PushCountAppend(transmitted: seq<Segment>, segment: Segment, sequence: nat)
    ensures PushCount(transmitted + [segment], sequence)
            == PushCount(transmitted, sequence)
               + (if segment.command == CMD_PUSH && segment.sequence == sequence then 1 else 0)
  {
    assert (transmitted + [segment])[..|transmitted|] == transmitted;
  }

  /** Every pending entry knows how often it went out, nothing unsent went out,
      and nothing went out more than the cap. */
  ghost predicate Counted(st: State) {
    && (forall i :: 0 <= i < |st.pending| ==>
          st.pending[i].sequence < st.nextSend
          && 1 <= st.pending[i].transmits == PushCount(st.transmitted, st.pending[i].sequence))
    && (forall s: nat :: st.nextSend <= s ==> PushCount(st.transmitted, s) == 0)
    && (forall s: nat :: PushCount(st.transmitted, s) <= MAX_RETRANSMITS)
  }

  lemma TransmitOtherKeepsCounted(st: State, segment: Segment)
    requires Counted(st) && segment.command != CMD_PUSH
    ensures Counted(Transmit(st, segment))
  {
    forall s: nat
      ensures PushCount(st.transmitted + [segment], s) == PushCount(st.transmitted, s)
    {
      PushCountAppend(st.transmitted, segment, s);
    }
  }

  lemma PushOneKeepsCounted(st: State, message: Bytes, index: nat, clock: Clock)
    requires index < ChunkCount(message) && Counted(st)
    ensures Counted(PushOne(st, message, index, clock))
  {
    var raw := PushOf(st, message, index, Now(clock, 2 * index));
    forall s: nat
      ensures PushCount(st.transmitted + [raw], s)
              == PushCount(st.transmitted, s) + (if s == st.nextSend then 1 else 0)
    {
      PushCountAppend(st.transmitted, raw, s);
    }
  }

  lemma {:induction false} PushUpToQueues(st: State, message: Bytes, n: nat, clock: Clock)
    requires n <= ChunkCount(message) && Queued(st) && !st.closed
    ensures var after := PushUpTo(st, message, n, clock);
            && Queued(after) && !after.closed
            && Base(after) == Base(st) && after.nextSend == st.nextSend + n
  {
    if n > 0 {
      PushUpToQueues(st, message, n - 1, clock);
    }
  }

  lemma {:induction false} PushUpToKeepsCounted(st: State, message: Bytes, n: nat, clock: Clock)
    requires n <= ChunkCount(message) && Counted(st)
    ensures Counted(PushUpTo(st, message, n, clock))
  {
    hide PushUpTo, PushOne, ChunkCount, Counted;
    PushUpToSteps(st, message, n, clock);
    if n > 0 {
      PushUpToKeepsCounted(st, message, n - 1, clock);
      PushOneKeepsCounted(PushUpTo(st, message, n - 1, clock), message, n - 1, clock);
    }
  }

  lemma {:induction false} SweepUpToKeepsQueue(st: State, n: nat, now: nat)
    requires n <= |st.pending| && Queued(st)
    ensures var after := SweepUpTo(st, n, now);
            && Queued(after) && after.nextSend == st.nextSend
            && (ArmedIffPending(st) ==> ArmedIffPending(after))
  {
    if n > 0 {
      SweepUpToKeepsQueue(st, n - 1, now);
    }
  }

  lemma SweepEntryKeepsCounted(st: State, i: nat, now: nat)
    requires i < |st.pending| && Queued(st) && Counted(st)
    ensures Counted(SweepEntry(st, i, now))
  {
    var entry := st.pending[i];
    if Due(entry, now) && entry.transmits < MAX_RETRANSMITS {
      forall s: nat
        ensures PushCount(st.transmitted + [entry.raw], s)
                == PushCount(st.transmitted, s) + (if s == entry.sequence then 1 else 0)
      {
        PushCountAppend(st.transmitted, entry.raw, s);
      }
    }
  }

  lemma {:induction false} SweepUpToKeepsCounted(st: State, n: nat, now: nat)
    requires n <= |st.pending| && Queued(st) && Counted(st)
    ensures Counted(SweepUpTo(st, n, now))
  {
    if n == 0 || st.closed {
      return;
    }
    var before := SweepUpTo(st, n - 1, now);
    assert SweepUpTo(st, n, now)
           == if before.closed then before else SweepEntry(before, n - 1, now);
    hide SweepUpTo, SweepEntry, Counted, Queued;
    SweepUpToKeepsCounted(st, n - 1, now);
    if !before.closed {
      SweepUpToKeepsQueue(st, n - 1, now);
      SweepEntryKeepsCounted(before, n - 1, now);
    }
  }

  lemma RetirementsKeepCounted(st: State, segment: Segment)
    requires Queued(st) && Counted(st)
    ensures Counted(Retirements(st, segment))
  {
    RetirementsMoveBase(st, segment);
  }

  lemma CountedCongruence(a: State, b: State)
    requires Counted(a) && a.pending == b.pending && a.nextSend == b.nextSend
    requires a.transmitted == b.transmitted
    ensures Counted(b)
  {
  }

  lemma InputKeepsCounted(st: State, segment: Segment, clock: Clock)
    requires Queued(st) && Counted(st) && !st.closed
    ensures Counted(Input(st, segment, clock))
  {
    var after := Input(st, segment, clock);
    var retired := Retirements(st, segment);
    RetirementsKeepCounted(st, segment);
    InputIsRetirements(st, segment, clock);
    InputReplies(st, segment, clock);
    var replies := Replies(st, segment, clock);
    if replies != [] {
      TransmitOtherKeepsCounted(retired, replies[0]);
      CountedCongruence(Transmit(retired, replies[0]), after);
    } else {
      CountedCongruence(retired, after);
    }
  }

  /** What every operation keeps. */
  ghost predicate SenderInvariant(st: State) {
    Queued(st) && ArmedIffPending(st) && Counted(st)
  }

  lemma StepKeepsSender(st: State, event: Event)
    requires SenderInvariant(st)
    ensures SenderInvariant(Step(st, event))
  {
    match event
    case Arrives(segment, clock) =>
      if !st.closed {
        InputMovesBase(st, segment, clock);
        InputKeepsCounted(st, segment, clock);
      }
    case Sends(message, clock) =>
      if SendOutcomeOf(st, message) == Sent {
        PushUpToQueues(st, message, ChunkCount(message), clock);
        PushUpToKeepsCounted(st, message, ChunkCount(message), clock);
      }
    case Sweeps(now) =>
      SweepUpToKeepsQueue(st, |st.pending|, now);
      SweepUpToKeepsCounted(st, |st.pending|, now);
    case Installs(installed) =>
    case Closes =>
  }

  /** In every run the pending queue is the contiguous interval from the base,
      the retransmit loop runs exactly when it is non-empty, and no sequence is ever
      transmitted more than eight times. */
  lemma {:induction false} RunKeepsSender(conversation: nat, events: seq<Event>)
    ensures SenderInvariant(Run(Fresh(conversation), events))
  {
    if events != [] {
      var n := |events| - 1;
      RunKeepsSender(conversation, events[..n]);
      StepKeepsSender(Run(Fresh(conversation), events[..n]), events[n]);
    }
  }
}
