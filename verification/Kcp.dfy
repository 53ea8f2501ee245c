/** One KCP conversation as a value: what every operation makes of its fields. */
module Kcp {
  import opened ByteStrings
  import opened KcpSegment

  const RECEIVE_WINDOW: nat := 512
  const RETRANSMIT_INTERVAL_MS: int := 300
  const MAX_RETRANSMITS: nat := 8
  const MAX_SEGMENT_SIZE: nat := 1376

  /** The readings one call takes from the monotonic clock, in the order it
      takes them. Nothing is assumed about them. */
  type Clock = nat -> nat

  /** The 32-bit millisecond clock of the header. */
  function Now(clock: Clock, reading: nat): nat { clock(reading) % TWO_32 }

  /** An entry of the pending queue: the push, and how often and when it last went
      out. */
  datatype Pending = Pending(sequence: nat, raw: Segment, sentAt: nat, transmits: nat)

  /** The fields of a conversation, and three histories: every segment handed
      to the connection, every message the reassembly completed, and the
      messages the handler was called with. */
  datatype State = State(
    conversation: nat,
    nextSend: nat,
    nextReceive: nat,
    received: map<nat, Segment>,
    pending: seq<Pending>,
    fragments: seq<Bytes>,
    armed: bool,
    handler: bool,
    closed: bool,
    transmitted: seq<Segment>,
    completed: seq<Bytes>,
    handed: seq<Bytes>)

  function Fresh(conversation: nat): State {
    State(conversation, 0, 0, map[], [], [], false, false, false, [], [], [])
  }

  // ------------------------------------------------------- receive side

  function SetHandler(st: State, installed: bool): State {
    st.(handler := installed)
  }

  /** Pop the next expected segment and deliver the message it ends, if any. */
  function DrainOne(st: State): State
    requires st.nextReceive in st.received
  {
    var segment := st.received[st.nextReceive];
    var fragments := st.fragments + [segment.data];
    var message := Join(fragments);
    var ends := segment.fragment == 0;
    st.(received := st.received - {st.nextReceive},
        nextReceive := st.nextReceive + 1,
        fragments := if ends then [] else fragments,
        completed := if ends then st.completed + [message] else st.completed,
        handed := if ends && message != [] && st.handler then st.handed + [message]
                  else st.handed)
  }

  /** Deliver what the queue can now complete. */
  function Drain(st: State): State
    decreases st.received.Keys
  {
    if st.nextReceive in st.received then Drain(DrainOne(st)) else st
  }

  /** Whether a push is queued rather than dropped. */
  predicate Admissible(st: State, sequence: nat) {
    st.nextReceive <= sequence < st.nextReceive + RECEIVE_WINDOW && sequence !in st.received
  }

  function Accept(st: State, segment: Segment): State {
    if Admissible(st, segment.sequence)
    then Drain(st.(received := st.received[segment.sequence := segment]))
    else st
  }

  function Transmit(st: State, segment: Segment): State {
    st.(transmitted := st.transmitted + [segment])
  }

  function AckOf(st: State, segment: Segment): Segment {
    Segment(st.conversation, CMD_ACK, 0, RECEIVE_WINDOW, segment.timestamp, segment.sequence,
            st.nextReceive, [])
  }

  function WindowTell(st: State, now: nat): Segment {
    Segment(st.conversation, CMD_WINDOW_TELL, 0, RECEIVE_WINDOW, now, 0, st.nextReceive, [])
  }

  // ---------------------------------------------------------- send side

  function DropBelow(pending: seq<Pending>, unacknowledged: nat): seq<Pending> {
    if pending != [] && pending[0].sequence < unacknowledged
    then DropBelow(pending[1..], unacknowledged)
    else pending
  }

  function Retire(st: State, unacknowledged: nat): State {
    var pending := DropBelow(st.pending, unacknowledged);
    st.(pending := pending, armed := st.armed && pending != [])
  }

  function Input(st: State, segment: Segment, clock: Clock): State {
    if st.closed then st
    else
      var st := Retire(st, segment.unacknowledged);
      if segment.command == CMD_ACK then Retire(st, segment.sequence + 1)
      else if segment.command == CMD_PUSH then
        var st := Accept(st, segment);
        Transmit(st, AckOf(st, segment))
      else if segment.command == CMD_WINDOW_ASK then Transmit(st, WindowTell(st, Now(clock, 0)))
      else st
  }

  /** How many segments a message takes: at least one, also when empty. */
  function ChunkCount(message: Bytes): nat {
    Max(1, (|message| + MAX_SEGMENT_SIZE - 1) / MAX_SEGMENT_SIZE)
  }

  function ChunkAt(message: Bytes, index: nat): Bytes {
    Slice(message, index * MAX_SEGMENT_SIZE, (index + 1) * MAX_SEGMENT_SIZE)
  }

  function PushOf(st: State, message: Bytes, index: nat, now: nat): Segment
    requires index < ChunkCount(message)
  {
    Segment(st.conversation, CMD_PUSH, ChunkCount(message) - 1 - index, RECEIVE_WINDOW, now,
            st.nextSend, st.nextReceive, ChunkAt(message, index))
  }

  function PushOne(st: State, message: Bytes, index: nat, clock: Clock): State
    requires index < ChunkCount(message)
  {
    var raw := PushOf(st, message, index, Now(clock, 2 * index));
    var entry := Pending(st.nextSend, raw, Now(clock, 2 * index + 1), 1);
    st.(pending := st.pending + [entry],
        nextSend := st.nextSend + 1,
        transmitted := st.transmitted + [raw])
  }

  /** The first `n` segments of a message queued and transmitted. */
  function PushUpTo(st: State, message: Bytes, n: nat, clock: Clock): State
    requires n <= ChunkCount(message)
  {
    if n == 0 then st else PushOne(PushUpTo(st, message, n - 1, clock), message, n - 1, clock)
  }

  lemma PushUpToSteps(st: State, message: Bytes, n: nat, clock: Clock)
    requires n <= ChunkCount(message)
    ensures PushUpTo(st, message, n, clock)
            == if n == 0 then st
               else PushOne(PushUpTo(st, message, n - 1, clock), message, n - 1, clock)
  {
  }

  datatype SendOutcome = Sent | RefusedClosed | RefusedTooLong

  function SendOutcomeOf(st: State, message: Bytes): SendOutcome {
    if st.closed then RefusedClosed
    else if ChunkCount(message) > 256 then RefusedTooLong
    else Sent
  }

  /** A message of more than 256 segments needs a fragment number above one
      byte; building its first header raises before anything is queued. */
  function Send(st: State, message: Bytes, clock: Clock): State {
    if SendOutcomeOf(st, message) != Sent then st
    else PushUpTo(st, message, ChunkCount(message), clock).(armed := true)
  }

  function Close(st: State): State {
    if st.closed then st
    else st.(closed := true, armed := false, received := map[], pending := [], handler := false)
  }

  predicate Due(entry: Pending, now: nat) {
    now - entry.sentAt >= RETRANSMIT_INTERVAL_MS
  }

  function SweepEntry(st: State, i: nat, now: nat): State
    requires i < |st.pending|
  {
    var entry := st.pending[i];
    if !Due(entry, now) then st
    else if entry.transmits >= MAX_RETRANSMITS then Close(st)
    else
      var again := entry.(sentAt := now, transmits := entry.transmits + 1);
      st.(pending := st.pending[i := again], transmitted := st.transmitted + [entry.raw])
  }

  /** The first `n` entries of the retransmission sweep; once an entry has used
      up its transmits the conversation closes and the sweep ends. */
  function SweepUpTo(st: State, n: nat, now: nat): (swept: State)
    requires n <= |st.pending|
    ensures st.closed ==> swept == st
    ensures !swept.closed ==> |swept.pending| == |st.pending|
  {
    if n == 0 || st.closed then st
    else
      var before := SweepUpTo(st, n - 1, now);
      if before.closed then before else SweepEntry(before, n - 1, now)
  }

  function Sweep(st: State, now: nat): State { SweepUpTo(st, |st.pending|, now) }

  // --------------------------------------------------------------- runs

  /** What can happen to a conversation. */
  datatype Event =
    | Arrives(segment: Segment, clock: Clock)
    | Sends(message: Bytes, clock: Clock)
    | Sweeps(now: nat)
    | Installs(installed: bool)
    | Closes

  function Step(st: State, event: Event): State {
    match event
    case Arrives(segment, clock) => Input(st, segment, clock)
    case Sends(message, clock) => Send(st, message, clock)
    case Sweeps(now) => Sweep(st, now)
    case Installs(installed) => SetHandler(st, installed)
    case Closes => Close(st)
  }

  /** The state after a whole run. */
  function Run(st: State, events: seq<Event>): State {
    if events == [] then st
    else Step(Run(st, events[..|events| - 1]), events[|events| - 1])
  }

  /** The rest of a sweep does nothing once the conversation closed. */
  lemma {:induction false} SweepStaysClosed(st: State, i: nat, n: nat, now: nat)
    requires i <= n <= |st.pending| && SweepUpTo(st, i, now).closed
    ensures SweepUpTo(st, n, now) == SweepUpTo(st, i, now)
  {
    if i < n {
      SweepStaysClosed(st, i, n - 1, now);
    }
  }
}
