/** Demultiplexing: every inbound segment goes to the conversation it names,
    created on first sight, and conversations do not interfere. */
module RelayRouting {
  import opened ByteStrings
  import opened KcpSegment
  import opened Kcp
  import opened KcpSender
  import opened KcpReceiver
  import opened KcpHandler

  const CONTROL_CONVERSATION: nat := 0
  const VIDEO_CONVERSATION: nat := 1

  type Conversations = map<nat, State>

  /** A segment off the connection, with the clock of the moment. */
  datatype Arrival = Arrival(raw: Bytes, clock: Clock)

  function StateOf(m: Conversations, id: nat): State {
    if id in m then m[id] else Fresh(id)
  }

  function Route(m: Conversations, arrival: Arrival): Conversations {
    match ParseSegment(arrival.raw)
    case None => m
    case Some(segment) =>
      var id := segment.conversation;
      m[id := Input(StateOf(m, id), segment, arrival.clock)]
  }

  function RouteAll(m: Conversations, arrivals: seq<Arrival>): Conversations {
    if arrivals == [] then m
    else Route(RouteAll(m, arrivals[..|arrivals| - 1]), arrivals[|arrivals| - 1])
  }

  /** Whether an arrival is for a conversation. */
  predicate IsFor(arrival: Arrival, id: nat) {
    var segment := ParseSegment(arrival.raw);
    segment.Some? && segment.value.conversation == id
  }

  /** The events the arrivals for one conversation are, on their own. */
  function EventsFor(arrivals: seq<Arrival>, id: nat): seq<Event> {
    if arrivals == [] then []
    else
      var last := arrivals[|arrivals| - 1];
      EventsFor(arrivals[..|arrivals| - 1], id)
      + (if IsFor(last, id) then [Arrives(ParseSegment(last.raw).value, last.clock)] else [])
  }

  lemma RunOneMore(st: State, events: seq<Event>, event: Event)
    ensures Run(st, events + [event]) == Step(Run(st, events), event)
  {
    assert (events + [event])[..|events|] == events;
  }

  lemma RouteOne(m: Conversations, arrival: Arrival, id: nat)
    ensures StateOf(Route(m, arrival), id)
            == if IsFor(arrival, id)
               then Step(StateOf(m, id), Arrives(ParseSegment(arrival.raw).value, arrival.clock))
               else StateOf(m, id)
    ensures id in Route(m, arrival) <==> id in m || IsFor(arrival, id)
  {
    hide ParseSegment, Input;
  }

  /** After any interleaved arrivals, each conversation's fields, transmissions
      and deliveries are those of its own arrivals alone; it exists if and only
      if it did before or something arrived for it. */
  lemma {:induction false} NonInterference(m: Conversations, arrivals: seq<Arrival>, id: nat)
    ensures StateOf(RouteAll(m, arrivals), id)
            == Run(StateOf(m, id), EventsFor(arrivals, id))
    ensures id in RouteAll(m, arrivals) <==> id in m || EventsFor(arrivals, id) != []
  {
    if arrivals == [] {
      return;
    }
    var n := |arrivals| - 1;
    var last := arrivals[n];
    hide ParseSegment, Step, Route, IsFor;
    NonInterference(m, arrivals[..n], id);
    RouteOne(RouteAll(m, arrivals[..n]), last, id);
    if IsFor(last, id) {
      RunOneMore(StateOf(m, id), EventsFor(arrivals[..n], id),
                 Arrives(ParseSegment(last.raw).value, last.clock));
    } else {
      assert EventsFor(arrivals[..n], id) + [] == EventsFor(arrivals[..n], id);
    }
  }

  // ------------------------------------------- the first record of all

  /** A push that is a whole message of its own, the first of its conversation. */
  predicate OpensWith(arrival: Arrival, message: Bytes) {
    var segment := ParseSegment(arrival.raw);
    && segment.Some? && segment.value.command == CMD_PUSH
    && segment.value.sequence == 0 && segment.value.fragment == 0
    && segment.value.data == message
  }

  /** The message was completed and acknowledged, and handed to nobody. */
  predicate AcknowledgedUnheard(st: State, message: Bytes) {
    && st.completed == [message] && st.handed == [] && |st.transmitted| == 1
    && st.transmitted[0].command == CMD_ACK && st.transmitted[0].sequence == 0
    && st.transmitted[0].unacknowledged == 1
  }

  /** All the non-empty messages but the first were handed over: all of them if
      and only if the first is empty. */
  predicate HeardAfterFirst(st: State, first: Bytes) {
    && [first] <= st.completed
    && st.handed == NonEmpty(st.completed[1..])
    && (st.handed == NonEmpty(st.completed) <==> first == [])
  }

  lemma FirstPush(st: State, segment: Segment, clock: Clock)
    requires st == Fresh(st.conversation)
    requires segment.command == CMD_PUSH && segment.sequence == 0 && segment.fragment == 0
    ensures var after := Input(st, segment, clock);
            && after.completed == [segment.data] && after.handed == [] && !after.handler
            && after.transmitted == [AckOf(after, segment)] && after.nextReceive == 1
  {
    var queued := st.(received := map[0 := segment]);
    JoinSingle(segment.data);
    assert Accept(st, segment) == Drain(queued) == Drain(DrainOne(queued)) == DrainOne(queued);
  }

  lemma FirstIsUnheard(id: nat, segment: Segment, clock: Clock)
    requires segment.command == CMD_PUSH && segment.sequence == 0 && segment.fragment == 0
    ensures AcknowledgedUnheard(Input(Fresh(id), segment, clock), segment.data)
  {
    FirstPush(Fresh(id), segment, clock);
    hide Input;
  }

  lemma HeardFromSecond(found: State, message: Bytes, later: seq<Event>)
    requires AcknowledgedUnheard(found, message) && NeverRemoved(later)
    ensures HeardAfterFirst(Run(SetHandler(found, true), later), message)
  {
    hide Run, NonEmpty;
    var end := Run(SetHandler(found, true), later);
    RunHandsFromInstall(SetHandler(found, true), later);
    assert [message] + end.completed[1..] == end.completed;
    NonEmptyConcat([message], end.completed[1..]);
    NonEmptyOne(message);
    assert [] + NonEmpty(end.completed[1..]) == NonEmpty(end.completed[1..]);
  }

  /** A conversation the device opens is routed its first segment before anyone can
      install a handler. If that segment is a whole message, the message is
      acknowledged and lost: a handler installed next and kept is called with
      exactly the non-empty messages after the first, whatever else happens. */
  lemma FirstMessageIsLost(m: Conversations, first: Arrival, message: Bytes,
                           later: seq<Event>)
    requires OpensWith(first, message) && NeverRemoved(later)
    requires ParseSegment(first.raw).value.conversation !in m
    ensures var id := ParseSegment(first.raw).value.conversation;
            && id in Route(m, first)
            && AcknowledgedUnheard(Route(m, first)[id], message)
            && HeardAfterFirst(Run(SetHandler(Route(m, first)[id], true), later), message)
  {
    var segment := ParseSegment(first.raw).value;
    hide ParseSegment, Input, Run, AcknowledgedUnheard, HeardAfterFirst;
    FirstIsUnheard(segment.conversation, segment, first.clock);
    HeardFromSecond(Route(m, first)[segment.conversation], message, later);
  }

  // ----------------------------------------------------- acknowledgements

  /** How many acknowledgements of a sequence with this timestamp a list of
      segments holds. */
  function AckCount(segments: seq<Segment>, sequence: nat, timestamp: nat): nat {
    if segments == [] then 0
    else
      var last := segments[|segments| - 1];
      AckCount(segments[..|segments| - 1], sequence, timestamp)
      + (if last.command == CMD_ACK && last.sequence == sequence && last.timestamp == timestamp
         then 1 else 0)
  }

  /** How many pushes of a sequence with this timestamp arrived in a run while
      the conversation was open. */
  function PushArrivals(st: State, events: seq<Event>, sequence: nat, timestamp: nat): nat {
    if events == [] then 0
    else
      var before, last := events[..|events| - 1], events[|events| - 1];
      PushArrivals(st, before, sequence, timestamp)
      + (if !Run(st, before).closed && last.Arrives? && last.segment.command == CMD_PUSH
            && last.segment.sequence == sequence && last.segment.timestamp == timestamp
         then 1 else 0)
  }

  lemma AckCountAppend(segments: seq<Segment>, s: Segment, sequence: nat, timestamp: nat)
    ensures AckCount(segments + [s], sequence, timestamp)
            == AckCount(segments, sequence, timestamp)
               + (if s.command == CMD_ACK && s.sequence == sequence && s.timestamp == timestamp
                  then 1 else 0)
  {
    assert (segments + [s])[..|segments|] == segments;
  }

  lemma InputAcks(st: State, segment: Segment, clock: Clock, sequence: nat, timestamp: nat)
    requires !st.closed
    ensures AckCount(Input(st, segment, clock).transmitted, sequence, timestamp)
            == AckCount(st.transmitted, sequence, timestamp)
               + (if segment.command == CMD_PUSH && segment.sequence == sequence
                     && segment.timestamp == timestamp then 1 else 0)
  {
    InputReplies(st, segment, clock);
    var replies := Replies(st, segment, clock);
    if replies != [] {
      assert replies == [replies[0]];
      AckCountAppend(st.transmitted, replies[0], sequence, timestamp);
    }
  }

  lemma {:induction false} PushUpToAcks(st: State, message: Bytes, n: nat, clock: Clock,
                                        sequence: nat, timestamp: nat)
    requires n <= ChunkCount(message)
    ensures AckCount(PushUpTo(st, message, n, clock).transmitted, sequence, timestamp)
            == AckCount(st.transmitted, sequence, timestamp)
  {
    if n > 0 {
      PushUpToAcks(st, message, n - 1, clock, sequence, timestamp);
      var before := PushUpTo(st, message, n - 1, clock);
      AckCountAppend(before.transmitted,
                     PushOf(before, message, n - 1, Now(clock, 2 * (n - 1))), sequence, timestamp);
    }
  }

  lemma {:induction false} SweepUpToAcks(st: State, n: nat, now: nat, sequence: nat,
                                         timestamp: nat)
    requires Queued(st) && n <= |st.pending|
    ensures AckCount(SweepUpTo(st, n, now).transmitted, sequence, timestamp)
            == AckCount(st.transmitted, sequence, timestamp)
  {
    if n == 0 || st.closed {
      return;
    }
    SweepUpToAcks(st, n - 1, now, sequence, timestamp);
    var before := SweepUpTo(st, n - 1, now);
    if !before.closed {
      SweepUpToKeepsQueue(st, n - 1, now);
      AckCountAppend(before.transmitted, before.pending[n - 1].raw, sequence, timestamp);
    }
  }

  /** In every run, handler or not, each push that arrives while the conversation
      is open is answered with exactly one acknowledgement that echoes its
      sequence and timestamp, and nothing else is acknowledged: for each such pair
      the acknowledgements sent are as many as the pushes that arrived. */
  lemma {:induction false} OneAckPerPush(conversation: nat, events: seq<Event>, sequence: nat,
                                         timestamp: nat)
    ensures AckCount(Run(Fresh(conversation), events).transmitted, sequence, timestamp)
            == PushArrivals(Fresh(conversation), events, sequence, timestamp)
  {
    if events == [] {
      return;
    }
    var n := |events| - 1;
    var before := Run(Fresh(conversation), events[..n]);
    OneAckPerPush(conversation, events[..n], sequence, timestamp);
    RunKeepsSender(conversation, events[..n]);
    hide Input, SweepUpTo, PushUpTo;
    match events[n]
    case Arrives(segment, clock) =>
      if before.closed {
        ClosedIgnores(before, segment, clock);
      } else {
        InputAcks(before, segment, clock, sequence, timestamp);
      }
    case Sends(message, clock) =>
      if SendOutcomeOf(before, message) == Sent {
        PushUpToAcks(before, message, ChunkCount(message), clock, sequence, timestamp);
      }
    case Sweeps(now) =>
      SweepUpToAcks(before, |before.pending|, now, sequence, timestamp);
    case Installs(_) =>
    case Closes =>
  }

  lemma ClosedIgnores(st: State, segment: Segment, clock: Clock)
    requires st.closed
    ensures Input(st, segment, clock) == st
  {
  }

  lemma Overwrite(m: Conversations, id: nat, first: State, second: State)
    ensures m[id := first][id := second] == m[id := second]
  {
  }

  /** The table with every conversation closed but those left to close. */
  function ClosedBut(m: Conversations, left: set<nat>): Conversations {
    map id | id in m :: if id in left then m[id] else Close(m[id])
  }

  /** With none left, every conversation there was is there and closed. */
  lemma ClosedAll(m: Conversations)
    ensures ClosedBut(m, {}).Keys == m.Keys
    ensures forall id :: id in m ==>
              ClosedBut(m, {})[id] == Close(m[id]) && ClosedBut(m, {})[id].closed
  {
  }

  lemma CloseOneMore(m: Conversations, left: set<nat>, id: nat)
    requires id in left && id in m
    ensures id in ClosedBut(m, left) && ClosedBut(m, left)[id] == m[id]
    ensures ClosedBut(m, left)[id := Close(m[id])] == ClosedBut(m, left - {id})
  {
    hide Close;
  }
}
