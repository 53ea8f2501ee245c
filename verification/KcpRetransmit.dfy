/** Retransmission over whole runs: when an unanswered conversation gives up,
    and when the `una` values it emits stay in order. */
module KcpRetransmit {
  import opened ByteStrings
  import opened KcpSegment
  import opened Kcp
  import opened KcpSender

  // -------------------------------------------------------- giving up

  lemma {:induction false} PushUpToExtends(st: State, message: Bytes, n: nat, clock: Clock)
    requires n <= ChunkCount(message)
    ensures st.pending <= PushUpTo(st, message, n, clock).pending
    ensures PushUpTo(st, message, n, clock).closed == st.closed
  {
    if n > 0 {
      PushUpToExtends(st, message, n - 1, clock);
    }
  }

  /** Whether the oldest entry is due for retransmission. */
  predicate HeadDue(st: State, now: nat) {
    st.pending != [] && Due(st.pending[0], now)
  }

  lemma {:induction false} SweepUpToHead(st: State, n: nat, now: nat)
    requires 1 <= n <= |st.pending| && !st.closed
    ensures var after := SweepUpTo(st, n, now);
            var head := st.pending[0];
            && (HeadDue(st, now) && head.transmits >= MAX_RETRANSMITS ==> after.closed)
            && (!after.closed ==>
                  && after.pending[0].sequence == head.sequence
                  && after.pending[0].transmits
                     == head.transmits + (if HeadDue(st, now) then 1 else 0))
  {
    if n > 1 {
      SweepUpToHead(st, n - 1, now);
    } else {
      assert SweepUpTo(st, 0, now) == st;
    }
  }

  /** How many sweeps of a run found the oldest entry due. */
  function DueSweeps(st: State, events: seq<Event>): nat {
    if events == [] then 0
    else
      var before := events[..|events| - 1];
      var last := events[|events| - 1];
      DueSweeps(st, before)
      + (if last.Sweeps? && HeadDue(Run(st, before), last.now) then 1 else 0)
  }

  /** The events of a run in which nothing that arrives acknowledges the given
      sequence. */
  predicate NeverAcknowledges(events: seq<Event>, sequence: nat) {
    forall i :: 0 <= i < |events| && events[i].Arrives? ==>
      Acknowledged(events[i].segment) <= sequence
  }

  lemma {:induction false} ClosedStaysClosed(st: State, events: seq<Event>)
    requires st.closed
    ensures Run(st, events).closed && Run(st, events).transmitted == st.transmitted
    ensures Run(st, events).handed == st.handed
  {
    if events != [] {
      ClosedStaysClosed(st, events[..|events| - 1]);
    }
  }

  lemma StepKeepsHead(st: State, event: Event)
    requires SenderInvariant(st) && !st.closed && st.pending != []
    requires event.Arrives? ==> Acknowledged(event.segment) <= st.pending[0].sequence
    ensures var after := Step(st, event);
            var due := event.Sweeps? && HeadDue(st, event.now);
            && (!after.closed ==>
                 && after.pending != [] && after.pending[0].sequence == st.pending[0].sequence
                 && after.pending[0].transmits
                    == st.pending[0].transmits + (if due then 1 else 0))
            && (due && st.pending[0].transmits >= MAX_RETRANSMITS ==> after.closed)
  {
    match event
    case Arrives(segment, clock) => InputMovesBase(st, segment, clock);
    case Sends(message, clock) =>
      if SendOutcomeOf(st, message) == Sent {
        PushUpToExtends(st, message, ChunkCount(message), clock);
      }
    case Sweeps(now) => SweepUpToHead(st, |st.pending|, now);
    case Installs(installed) =>
    case Closes =>
  }

  lemma {:induction false} UnansweredRun(st: State, events: seq<Event>)
    requires SenderInvariant(st) && !st.closed && st.pending != []
    requires NeverAcknowledges(events, st.pending[0].sequence)
    ensures var after := Run(st, events);
            && SenderInvariant(after)
            && (!after.closed ==>
                 && after.pending != [] && after.pending[0].sequence == st.pending[0].sequence
                 && after.pending[0].transmits
                    == st.pending[0].transmits + DueSweeps(st, events) <= MAX_RETRANSMITS)
  {
    if events == [] {
      assert PushCount(st.transmitted, st.pending[0].sequence) <= MAX_RETRANSMITS;
    } else {
      var n := |events| - 1;
      var before := Run(st, events[..n]);
      UnansweredRun(st, events[..n]);
      StepKeepsSender(before, events[n]);
      if before.closed {
        ClosedStaysClosed(before, [events[n]]);
        assert Run(before, [events[n]]) == Step(before, events[n]) by {
          assert [events[n]][..0] == [];
        }
      } else {
        StepKeepsHead(before, events[n]);
        var after := Step(before, events[n]);
        if !after.closed {
          assert PushCount(after.transmitted, after.pending[0].sequence) <= MAX_RETRANSMITS;
        }
      }
    }
  }

  /** With no acknowledgement arriving, whatever else happens, the remaining
      transmits of the oldest entry run out: once more sweeps found it due than
      it has transmits left the conversation has closed, and from then on it
      transmits nothing and hands nothing over. */
  lemma UnansweredGivesUp(st: State, events: seq<Event>, later: seq<Event>)
    requires SenderInvariant(st) && !st.closed && st.pending != []
    requires NeverAcknowledges(events, st.pending[0].sequence)
    requires DueSweeps(st, events) > MAX_RETRANSMITS - st.pending[0].transmits
    ensures var after := Run(st, events);
            && after.closed
            && Run(after, later).transmitted == after.transmitted
            && Run(after, later).handed == after.handed
  {
    UnansweredRun(st, events);
    ClosedStaysClosed(Run(st, events), later);
  }

  // ----------------------------------------------- the order of una values

  predicate UnaSorted(segments: seq<Segment>) {
    forall i, j :: 0 <= i < j < |segments| ==>
      segments[i].unacknowledged <= segments[j].unacknowledged
  }

  /** No segment carries a receive sequence from the future, and the pending
      pushes were built in order. */
  predicate UnaBounded(st: State) {
    && (forall i :: 0 <= i < |st.transmitted| ==>
          st.transmitted[i].unacknowledged <= st.nextReceive)
    && (forall i :: 0 <= i < |st.pending| ==>
          st.pending[i].raw.unacknowledged <= st.nextReceive)
    && (forall i, j :: 0 <= i < j < |st.pending| ==>
          st.pending[i].raw.unacknowledged <= st.pending[j].raw.unacknowledged)
  }

  predicate UnaKept(st: State, after: State) {
    UnaBounded(after) && (UnaSorted(st.transmitted) ==> UnaSorted(after.transmitted))
  }

  lemma PushOneUna(st: State, message: Bytes, index: nat, clock: Clock)
    requires index < ChunkCount(message) && UnaBounded(st)
    ensures var after := PushOne(st, message, index, clock);
            UnaKept(st, after) && after.nextReceive == st.nextReceive
  {
  }

  lemma {:induction false} PushUpToUna(st: State, message: Bytes, n: nat, clock: Clock)
    requires n <= ChunkCount(message) && UnaBounded(st)
    ensures var after := PushUpTo(st, message, n, clock);
            UnaKept(st, after) && after.nextReceive == st.nextReceive
  {
    hide PushUpTo, PushOne, ChunkCount, UnaSorted, UnaBounded;
    PushUpToSteps(st, message, n, clock);
    if n > 0 {
      PushUpToUna(st, message, n - 1, clock);
      PushOneUna(PushUpTo(st, message, n - 1, clock), message, n - 1, clock);
    }
  }

  /** A sweep never touches the segment an entry carries. */
  lemma {:induction false} SweepKeepsRaw(st: State, n: nat, now: nat)
    requires n <= |st.pending| && !SweepUpTo(st, n, now).closed
    ensures var after := SweepUpTo(st, n, now);
            && |after.pending| == |st.pending|
            && (forall i :: 0 <= i < |st.pending| ==> after.pending[i].raw == st.pending[i].raw)
            && (forall i :: n <= i < |st.pending| ==> after.pending[i] == st.pending[i])
  {
    if n > 0 {
      SweepKeepsRaw(st, n - 1, now);
    }
  }

  /** The oldest due entry, or the length of the queue. */
  function FirstDue(pending: seq<Pending>, now: nat): (i: nat)
    ensures i <= |pending|
    ensures i < |pending| ==> Due(pending[i], now)
    ensures forall k :: 0 <= k < i ==> !Due(pending[k], now)
  {
    if pending == [] || Due(pending[0], now) then 0 else 1 + FirstDue(pending[1..], now)
  }

  /** A sweep will resend a push whose `una` is older than the newest one
      already emitted. Only the oldest due entry has to be looked at. */
  predicate ResendsStale(st: State, now: nat) {
    var i := FirstDue(st.pending, now);
    && !st.closed && i < |st.pending| && st.pending[i].transmits < MAX_RETRANSMITS
    && st.transmitted != []
    && st.pending[i].raw.unacknowledged < st.transmitted[|st.transmitted| - 1].unacknowledged
  }

  /** Everything emitted is at most as new as this. */
  predicate UnaBelow(segments: seq<Segment>, una: nat) {
    forall k :: 0 <= k < |segments| ==> segments[k].unacknowledged <= una
  }

  lemma ResendFresh(segments: seq<Segment>, raw: Segment)
    requires UnaSorted(segments)
    requires segments == []
             || segments[|segments| - 1].unacknowledged <= raw.unacknowledged
    ensures UnaSorted(segments + [raw]) && UnaBelow(segments + [raw], raw.unacknowledged)
  {
  }

  /** The sweep so far, with nothing stale: sorted, and below whatever the
      entries still ahead carry. */
  lemma {:induction false} FreshSweep(st: State, n: nat, now: nat)
    requires n <= |st.pending| && UnaBounded(st) && UnaSorted(st.transmitted)
    requires !ResendsStale(st, now)
    ensures var sent := SweepUpTo(st, n, now).transmitted;
            && UnaSorted(sent)
            && (n > FirstDue(st.pending, now) && !SweepUpTo(st, n, now).closed ==>
                  UnaBelow(sent, st.pending[n - 1].raw.unacknowledged))
  {
    if n > FirstDue(st.pending, now) && !st.closed {
      FreshSweep(st, n - 1, now);
      var before := SweepUpTo(st, n - 1, now);
      if n - 1 == FirstDue(st.pending, now) {
        NothingBeforeFirstDue(st, n - 1, now);
      }
      if !before.closed {
        SweepKeepsRaw(st, n - 1, now);
        var entry := before.pending[n - 1];
        if Due(entry, now) && entry.transmits < MAX_RETRANSMITS {
          ResendFresh(before.transmitted, entry.raw);
        }
      }
    } else {
      NothingBeforeFirstDue(st, n, now);
    }
  }

  lemma {:induction false} SweepOnlyAppends(st: State, m: nat, n: nat, now: nat)
    requires m <= n <= |st.pending|
    ensures SweepUpTo(st, m, now).transmitted <= SweepUpTo(st, n, now).transmitted
  {
    if m < n {
      SweepOnlyAppends(st, m, n - 1, now);
    }
  }

  lemma {:induction false} NothingBeforeFirstDue(st: State, n: nat, now: nat)
    requires n <= |st.pending| && (st.closed || n <= FirstDue(st.pending, now))
    ensures SweepUpTo(st, n, now) == st
  {
    if n > 0 && !st.closed {
      NothingBeforeFirstDue(st, n - 1, now);
    }
  }

  /** A sweep keeps the emitted `una` values in order exactly when it resends
      nothing stale. */
  lemma SweepKeepsUnaOrder(st: State, now: nat)
    requires UnaBounded(st) && UnaSorted(st.transmitted)
    ensures UnaSorted(Sweep(st, now).transmitted) <==> !ResendsStale(st, now)
  {
    if ResendsStale(st, now) {
      var i := FirstDue(st.pending, now);
      NothingBeforeFirstDue(st, i, now);
      var at := |st.transmitted|;
      var resent := SweepUpTo(st, i + 1, now).transmitted;
      assert resent == st.transmitted + [st.pending[i].raw];
      SweepOnlyAppends(st, i + 1, |st.pending|, now);
      var all := Sweep(st, now).transmitted;
      assert all[at - 1] == resent[at - 1] && all[at] == resent[at];
    } else {
      FreshSweep(st, |st.pending|, now);
    }
  }

  lemma SweepEntryUna(st: State, i: nat, now: nat)
    requires i < |st.pending| && UnaBounded(st)
    ensures UnaBounded(SweepEntry(st, i, now))
  {
    var raws := SweepEntry(st, i, now).pending;
    assert forall k :: 0 <= k < |raws| ==> raws[k].raw == st.pending[k].raw;
  }

  lemma {:induction false} SweepKeepsUnaBounded(st: State, n: nat, now: nat)
    requires n <= |st.pending| && UnaBounded(st)
    ensures UnaBounded(SweepUpTo(st, n, now))
  {
    if n == 0 || st.closed {
      return;
    }
    var before := SweepUpTo(st, n - 1, now);
    assert SweepUpTo(st, n, now)
           == if before.closed then before else SweepEntry(before, n - 1, now);
    hide SweepUpTo, SweepEntry, UnaBounded;
    SweepKeepsUnaBounded(st, n - 1, now);
    if !before.closed {
      SweepEntryUna(before, n - 1, now);
    }
  }

  /** Retiring entries, receiving more, and answering with the receive sequence
      reached keeps the `una` values in order. */
  lemma AnsweringKeepsUna(st: State, after: State, dropped: nat, replies: seq<Segment>)
    requires UnaBounded(st) && st.nextReceive <= after.nextReceive
    requires dropped <= |st.pending| && after.pending == st.pending[dropped..]
    requires after.transmitted == st.transmitted + replies
    requires |replies| <= 1
    requires forall k :: 0 <= k < |replies| ==> replies[k].unacknowledged == after.nextReceive
    ensures UnaKept(st, after)
  {
    assert forall i :: 0 <= i < |after.pending| ==> after.pending[i] == st.pending[dropped + i];
  }

  lemma RepliesCarryReceived(st: State, segment: Segment, clock: Clock)
    requires !st.closed
    ensures |Replies(st, segment, clock)| <= 1
    ensures forall k :: 0 <= k < |Replies(st, segment, clock)| ==>
              Replies(st, segment, clock)[k].unacknowledged
              == Input(st, segment, clock).nextReceive
  {
    InputReceives(st, segment, clock);
  }

  lemma InputKeepsUna(st: State, segment: Segment, clock: Clock)
    requires SenderInvariant(st) && UnaBounded(st) && !st.closed
    ensures UnaKept(st, Input(st, segment, clock))
  {
    hide Input, Replies, Acknowledged, Accept, Counted;
    var after := Input(st, segment, clock);
    InputMovesBase(st, segment, clock);
    InputReplies(st, segment, clock);
    InputReceives(st, segment, clock);
    RepliesCarryReceived(st, segment, clock);
    AnsweringKeepsUna(st, after, Base(after) - Base(st), Replies(st, segment, clock));
  }

  lemma InputReceives(st: State, segment: Segment, clock: Clock)
    requires !st.closed
    ensures var after := Input(st, segment, clock);
            && after.nextReceive >= st.nextReceive
            && SameReceiver(after, if segment.command == CMD_PUSH then Accept(st, segment) else st)
  {
    if segment.command == CMD_PUSH {
      AcceptCongruence(st, Retire(st, segment.unacknowledged), segment);
      AcceptKeepsSender(st, segment);
    }
  }

  /** Every operation but a stale resend keeps the emitted `una` values in
      order. */
  lemma StepKeepsUna(st: State, event: Event)
    requires SenderInvariant(st) && UnaBounded(st)
    ensures UnaBounded(Step(st, event))
    ensures UnaSorted(st.transmitted) ==>
              (UnaSorted(Step(st, event).transmitted)
               <==> !(event.Sweeps? && ResendsStale(st, event.now)))
  {
    match event
    case Arrives(segment, clock) =>
      if !st.closed {
        InputKeepsUna(st, segment, clock);
      }
    case Sends(message, clock) =>
      if SendOutcomeOf(st, message) == Sent {
        PushUpToUna(st, message, ChunkCount(message), clock);
      }
    case Sweeps(now) =>
      SweepKeepsUnaBounded(st, |st.pending|, now);
      if UnaSorted(st.transmitted) {
        SweepKeepsUnaOrder(st, now);
      }
    case Installs(installed) =>
    case Closes =>
  }

  /** Some sweep of the run resends a stale push. */
  ghost predicate EverResendsStale(st: State, events: seq<Event>) {
    exists i :: 0 <= i < |events| && events[i].Sweeps?
                && ResendsStale(Run(st, events[..i]), events[i].now)
  }

  lemma StepOnlyAppends(st: State, event: Event)
    ensures st.transmitted <= Step(st, event).transmitted
  {
    match event
    case Arrives(segment, clock) => InputReplies(st, segment, clock);
    case Sends(message, clock) =>
      if SendOutcomeOf(st, message) == Sent {
        PushUpToAppends(st, message, ChunkCount(message), clock);
      }
    case Sweeps(now) => SweepOnlyAppends(st, 0, |st.pending|, now);
    case Installs(installed) =>
    case Closes =>
  }

  lemma {:induction false} PushUpToAppends(st: State, message: Bytes, n: nat, clock: Clock)
    requires n <= ChunkCount(message)
    ensures st.transmitted <= PushUpTo(st, message, n, clock).transmitted
  {
    if n > 0 {
      PushUpToAppends(st, message, n - 1, clock);
    }
  }

  lemma EverResendsStaleStep(st: State, events: seq<Event>)
    requires events != []
    ensures var n := |events| - 1;
            EverResendsStale(st, events)
            <==> EverResendsStale(st, events[..n])
                 || (events[n].Sweeps? && ResendsStale(Run(st, events[..n]), events[n].now))
  {
    var n := |events| - 1;
    assert forall i :: 0 <= i < n ==> events[..n][..i] == events[..i];
  }

  /** Over a whole run the `una` values a conversation emits never decrease if
      and only if no sweep resends a push built before a delivery that has been
      acknowledged since. */
  lemma {:induction false} RunUnaOrder(conversation: nat, events: seq<Event>)
    ensures var after := Run(Fresh(conversation), events);
            && UnaBounded(after)
            && (UnaSorted(after.transmitted)
                <==> !EverResendsStale(Fresh(conversation), events))
  {
    if events != [] {
      var n := |events| - 1;
      var before := Run(Fresh(conversation), events[..n]);
      RunUnaOrder(conversation, events[..n]);
      RunKeepsSender(conversation, events[..n]);
      StepKeepsUna(before, events[n]);
      StepOnlyAppends(before, events[n]);
      EverResendsStaleStep(Fresh(conversation), events);
    }
  }

  /** The `una` values do decrease in a run as short as this: send, receive,
      and resend, 300 ms later, the push that was built before the receipt. */
  lemma UnaCanDecrease(clock: Clock)
    ensures var segment := Segment(0, CMD_PUSH, 0, 512, 0, 0, 0, [7]);
            var events := [Sends([1], clock), Arrives(segment, clock),
                           Sweeps(Now(clock, 1) + 300)];
            !UnaSorted(Run(Fresh(0), events).transmitted)
  {
    var segment := Segment(0, CMD_PUSH, 0, 512, 0, 0, 0, [7]);
    var now := Now(clock, 1) + 300;
    var events := [Sends([1], clock), Arrives(segment, clock), Sweeps(now)];
    RunOfThree(Fresh(0), events);
    var raw := PushOf(Fresh(0), [1], 0, Now(clock, 0));
    var s1 := Step(Fresh(0), events[0]);
    assert PushUpTo(Fresh(0), [1], 0, clock) == Fresh(0);
    assert s1.pending == [Pending(0, raw, Now(clock, 1), 1)] && s1.transmitted == [raw];
    ReceiveFirst(s1, segment, clock);
    var s2 := Step(s1, events[1]);
    assert SweepUpTo(s2, 0, now) == s2;
    var resent := Step(s2, events[2]).transmitted;
    assert resent == s2.transmitted + [raw];
    assert resent[1].unacknowledged == 1 && resent[2].unacknowledged == 0;
  }

  lemma RunOfThree(st: State, events: seq<Event>)
    requires |events| == 3
    ensures Run(st, events) == Step(Step(Step(st, events[0]), events[1]), events[2])
  {
    assert events[..2][..1] == events[..1] && events[..1][..0] == [];
    assert Run(st, events[..1]) == Step(st, events[0]);
    assert Run(st, events[..2]) == Step(Step(st, events[0]), events[1]);
  }

  lemma ReceiveFirst(st: State, segment: Segment, clock: Clock)
    requires !st.closed && st.nextReceive == 0 && st.received == map[]
    requires segment.command == CMD_PUSH && segment.sequence == segment.unacknowledged == 0
    ensures var after := Input(st, segment, clock);
            && after.pending == DropBelow(st.pending, 0) && !after.closed
            && |after.transmitted| == |st.transmitted| + 1
            && after.transmitted[..|st.transmitted|] == st.transmitted
            && after.transmitted[|st.transmitted|].unacknowledged == 1
  {
    var queued := st.(received := st.received[0 := segment]);
    assert Drain(DrainOne(queued)) == DrainOne(queued);
    InputReplies(st, segment, clock);
    InputIsRetirements(st, segment, clock);
  }
}
