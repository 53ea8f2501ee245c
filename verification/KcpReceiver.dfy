/** The receiving half of a conversation against a link that may reorder,
    duplicate and lose one sender's pushes. */
module KcpReceiver {
  import opened ByteStrings
  import opened KcpSegment
  import opened Kcp
  import opened KcpSender
  import opened KcpRetransmit

  // ------------------------------------------------------ the push log

  /** What a push contributes to a message. */
  datatype Chunk = Chunk(fragment: nat, data: Bytes)

  function ChunkOf(segment: Segment): Chunk { Chunk(segment.fragment, segment.data) }

  datatype Grouping = Grouping(messages: seq<Bytes>, partial: seq<Bytes>)

  /** A push log cut into messages: each ends at a fragment number of zero. */
  function Regroup(log: seq<Chunk>): Grouping {
    if log == [] then Grouping([], [])
    else
      var before := Regroup(log[..|log| - 1]);
      var chunk := log[|log| - 1];
      var parts := before.partial + [chunk.data];
      if chunk.fragment == 0 then Grouping(before.messages + [Join(parts)], [])
      else Grouping(before.messages, parts)
  }

  lemma {:induction false} RegroupPrefix(log: seq<Chunk>, n: nat)
    requires n <= |log|
    ensures Regroup(log[..n]).messages <= Regroup(log).messages
    decreases |log|
  {
    if n < |log| {
      RegroupPrefix(log[..|log| - 1], n);
      assert log[..|log| - 1][..n] == log[..n];
    } else {
      assert log[..n] == log;
    }
  }

  function NonEmpty(messages: seq<Bytes>): seq<Bytes> {
    if messages == [] then []
    else
      var last := messages[|messages| - 1];
      NonEmpty(messages[..|messages| - 1]) + (if last == [] then [] else [last])
  }

  lemma {:induction false} NonEmptyConcat(a: seq<Bytes>, b: seq<Bytes>)
    ensures NonEmpty(a + b) == NonEmpty(a) + NonEmpty(b)
  {
    if b == [] {
      assert a + b == a;
    } else {
      NonEmptyConcat(a, b[..|b| - 1]);
      assert (a + b)[..|a + b| - 1] == a + b[..|b| - 1];
    }
  }

  // --------------------------------------------------- receiver invariant

  /** The receive state explained by the sequences accepted so far, between
      two turns of the delivery loop. */
  ghost predicate Delivering(st: State, log: seq<Chunk>, accepted: set<nat>) {
    && (forall k :: k in accepted ==> k < |log|)
    && (forall k: nat :: k < st.nextReceive ==> k in accepted)
    && (forall k :: k in st.received <==> k in accepted && st.nextReceive <= k)
    && (forall k :: k in st.received ==>
          k < st.nextReceive + RECEIVE_WINDOW && ChunkOf(st.received[k]) == log[k])
    && st.nextReceive <= |log|
    && Regroup(log[..st.nextReceive]) == Grouping(st.completed, st.fragments)
  }

  /** Between two segments: the receive sequence is the least one never
      accepted, the queue holds what was accepted above it and within the
      window, and what was delivered is the regrouped log up to it. */
  ghost predicate Received(st: State, log: seq<Chunk>, accepted: set<nat>) {
    Delivering(st, log, accepted) && st.nextReceive !in accepted
  }

  lemma DrainOneDelivers(st: State, log: seq<Chunk>, accepted: set<nat>)
    requires Delivering(st, log, accepted) && st.nextReceive in st.received
    ensures Delivering(DrainOne(st), log, accepted)
  {
    var n := st.nextReceive;
    assert log[..n + 1][..n] == log[..n];
    assert Regroup(log[..n + 1])
           == Grouping(DrainOne(st).completed, DrainOne(st).fragments);
  }

  lemma {:induction false} DrainDelivers(st: State, log: seq<Chunk>, accepted: set<nat>)
    requires Delivering(st, log, accepted)
    ensures Received(Drain(st), log, accepted)
    decreases st.received.Keys
  {
    if st.nextReceive in st.received {
      DrainOneDelivers(st, log, accepted);
      DrainDelivers(DrainOne(st), log, accepted);
    }
  }

  /** A segment that may have been sent: if it is a push, it carries its
      sequence's entry of the log. */
  predicate FromLog(segment: Segment, log: seq<Chunk>) {
    segment.command == CMD_PUSH ==>
      segment.sequence < |log| && ChunkOf(segment) == log[segment.sequence]
  }

  predicate InWindow(st: State, sequence: nat) {
    st.nextReceive <= sequence < st.nextReceive + RECEIVE_WINDOW
  }

  function AcceptedFrom(st: State, segment: Segment): set<nat> {
    if !st.closed && segment.command == CMD_PUSH && InWindow(st, segment.sequence)
    then {segment.sequence} else {}
  }

  lemma AcceptReceives(st: State, segment: Segment, log: seq<Chunk>, accepted: set<nat>)
    requires Received(st, log, accepted) && !st.closed
    requires segment.command == CMD_PUSH && FromLog(segment, log)
    ensures Received(Accept(st, segment), log, accepted + AcceptedFrom(st, segment))
  {
    if Admissible(st, segment.sequence) {
      var queued := st.(received := st.received[segment.sequence := segment]);
      DrainDelivers(queued, log, accepted + {segment.sequence});
    } else {
      assert accepted + AcceptedFrom(st, segment) == accepted;
    }
  }

  /** The sequences a run accepted: pushes that arrived within the window of
      the moment while the conversation was open. */
  function Accepted(st: State, events: seq<Event>): set<nat> {
    if events == [] then {}
    else
      var before := events[..|events| - 1];
      var last := events[|events| - 1];
      Accepted(st, before)
      + (if last.Arrives? then AcceptedFrom(Run(st, before), last.segment) else {})
  }

  predicate AllFromLog(events: seq<Event>, log: seq<Chunk>) {
    forall i :: 0 <= i < |events| && events[i].Arrives? ==> FromLog(events[i].segment, log)
  }

  lemma {:induction false} PushUpToKeepsReceiver(st: State, message: Bytes, n: nat, clock: Clock)
    requires n <= ChunkCount(message)
    ensures SameReceiver(st, PushUpTo(st, message, n, clock))
  {
    if n > 0 {
      PushUpToKeepsReceiver(st, message, n - 1, clock);
    }
  }

  lemma {:induction false} SweepUpToKeepsReceiver(st: State, n: nat, now: nat)
    requires n <= |st.pending|
    ensures !SweepUpTo(st, n, now).closed ==> SameReceiver(st, SweepUpTo(st, n, now))
    ensures SweepUpTo(st, n, now).completed == st.completed
    ensures SweepUpTo(st, n, now).handed == st.handed
    ensures SweepUpTo(st, n, now).fragments == st.fragments
    ensures SweepUpTo(st, n, now).nextReceive == st.nextReceive
  {
    if n > 0 {
      SweepUpToKeepsReceiver(st, n - 1, now);
    }
  }

  /** Nothing but an arriving push changes what was received. */
  lemma OtherStepKeepsReceiver(st: State, event: Event)
    requires !event.Arrives? && !Step(st, event).closed
    ensures SameReceiver(st.(handler := Step(st, event).handler), Step(st, event))
  {
    match event
    case Sends(message, clock) =>
      if SendOutcomeOf(st, message) == Sent {
        PushUpToKeepsReceiver(st, message, ChunkCount(message), clock);
      }
    case Sweeps(now) => SweepUpToKeepsReceiver(st, |st.pending|, now);
    case Installs(installed) =>
    case Closes =>
  }

  lemma StepReceives(st: State, event: Event, log: seq<Chunk>, accepted: set<nat>)
    requires Received(st, log, accepted) && !Step(st, event).closed
    requires event.Arrives? ==> FromLog(event.segment, log)
    ensures !st.closed
    ensures Received(Step(st, event), log,
                     accepted + if event.Arrives? then AcceptedFrom(st, event.segment) else {})
  {
    assert !st.closed by {
      if st.closed {
        assert [event][..0] == [];
        ClosedStaysClosed(st, [event]);
      }
    }
    if event.Arrives? {
      InputReceives(st, event.segment, event.clock);
      if event.segment.command == CMD_PUSH {
        AcceptReceives(st, event.segment, log, accepted);
      }
    } else {
      OtherStepKeepsReceiver(st, event);
    }
  }

  /** Fed any reordering, duplication and loss of one sender's push log, mixed
      with anything else that can happen, an open conversation has the least
      sequence never accepted as its receive sequence, holds back exactly what
      was accepted above it within the window, and has delivered the regrouped
      log below it: each message once and in order. */
  lemma {:induction false} ReceiverRefinesLog(st: State, events: seq<Event>, log: seq<Chunk>)
    requires st == Fresh(st.conversation).(handler := st.handler)
    requires AllFromLog(events, log)
    ensures !Run(st, events).closed ==> Received(Run(st, events), log, Accepted(st, events))
  {
    if events != [] {
      var n := |events| - 1;
      ReceiverRefinesLog(st, events[..n], log);
      var before := Run(st, events[..n]);
      if before.closed {
        assert [events[n]][..0] == [];
        ClosedStaysClosed(before, [events[n]]);
        assert Run(before, [events[n]]) == Run(st, events);
      } else if !Run(st, events).closed {
        StepReceives(before, events[n], log, Accepted(st, events[..n]));
      }
    } else {
      assert log[..0] == [];
    }
  }
}
