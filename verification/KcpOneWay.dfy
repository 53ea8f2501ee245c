/** One sender's whole transmission, read from its beginning: whatever the sender is
    answered, a reader of the stream completes exactly the messages sent. */
module KcpOneWay {
  import opened ByteStrings
  import opened KcpSegment
  import opened Kcp
  import opened KcpSender
  import opened KcpRetransmit
  import opened KcpReceiver
  import opened KcpHandler
  import opened KcpSystem

  /** The messages that `send` took in a run. */
  function SentIn(st: State, events: seq<Event>): seq<Bytes> {
    if events == [] then []
    else
      var before, last := events[..|events| - 1], events[|events| - 1];
      SentIn(st, before) + SentBy(Run(st, before), last)
  }

  function SentBy(st: State, event: Event): seq<Bytes> {
    if event.Sends? && SendOutcomeOf(st, event.message) == Sent then [event.message] else []
  }

  // ------------------------------------------------------------ the sender

  /** Everything transmitted so far, as the wire carries it, brings the pushes of
      the messages sent in order: each push comes after all below it, and none is
      missing. */
  predicate Streams(x: State, sent: seq<Bytes>) {
    && |PushLog(sent)| == x.nextSend
    && PendingFromLog(x.pending, PushLog(sent))
    && InOrder(Wired(x.transmitted), 0, PushLog(sent))
    && Frontier(Wired(x.transmitted), 0) == |PushLog(sent)|
  }

  lemma WiredNew(x: State, event: Event)
    ensures Wired(Step(x, event).transmitted) == Wired(x.transmitted) + Wired(New(x, event))
  {
    hide Step, OnWire;
    StepOnlyAppends(x, event);
    var after := Step(x, event).transmitted;
    assert after == x.transmitted + after[|x.transmitted|..];
  }

  lemma SubmitStreams(x: State, sent: seq<Bytes>, message: Bytes, clock: Clock)
    requires Streams(x, sent) && SendOutcomeOf(x, message) == Sent
    requires Send(x, message, clock).nextSend < TWO_32
    ensures Streams(Send(x, message, clock), sent + [message])
  {
    var more := New(x, Sends(message, clock));
    SubmitQueues(x, sent, message, clock);
    SubmitContinues(x, sent, message, clock);
    PushLogGrows(sent, message);
    PushUpToSizes(x, message, ChunkCount(message), clock);
    WiredNew(x, Sends(message, clock));
    hide PushUpTo, Wired, InOrder, Frontier;
    LongerLog(Wired(x.transmitted), 0, PushLog(sent), ChunksOf(message));
    LinkContinues(Wired(x.transmitted), Wired(more), 0, PushLog(sent + [message]));
  }

  /** What repeats earlier pushes or is no push keeps the stream in order. */
  lemma RepeatsStream(x: State, event: Event, sent: seq<Bytes>)
    requires Streams(x, sent) && Step(x, event).nextSend == x.nextSend
    requires PendingFromLog(Step(x, event).pending, PushLog(sent))
    requires Repeats(Wired(New(x, event)), PushLog(sent), |PushLog(sent)|)
    ensures Streams(Step(x, event), sent)
  {
    WiredNew(x, event);
    hide Step, Wired, InOrder, Frontier;
    LinkRepeats(Wired(x.transmitted), Wired(New(x, event)), 0, PushLog(sent));
  }

  lemma RepliesRepeat(x: State, segment: Segment, clock: Clock, log: seq<Chunk>, frontier: nat)
    ensures New(x, Arrives(segment, clock)) == Replies(x, segment, clock)
    ensures Repeats(Wired(Replies(x, segment, clock)), log, frontier)
  {
    InputReplies(x, segment, clock);
    hide Input;
  }

  /** What arrives retires entries and leaves the others alone. */
  lemma InputDropsOnly(x: State, segment: Segment, clock: Clock, log: seq<Chunk>)
    requires Queued(x) && PendingFromLog(x.pending, log)
    ensures PendingFromLog(Input(x, segment, clock).pending, log)
    ensures Input(x, segment, clock).nextSend == x.nextSend
  {
    if !x.closed {
      InputMovesBase(x, segment, clock);
      hide Input;
    }
  }

  lemma DeliverStreams(x: State, sent: seq<Bytes>, segment: Segment, clock: Clock)
    requires Streams(x, sent) && Queued(x)
    ensures Streams(Input(x, segment, clock), sent)
  {
    RepliesRepeat(x, segment, clock, PushLog(sent), |PushLog(sent)|);
    InputDropsOnly(x, segment, clock, PushLog(sent));
    hide Input, Replies, Wired, Repeats, PendingFromLog, InOrder, Frontier, New;
    RepeatsStream(x, Arrives(segment, clock), sent);
  }

  lemma ResendStreams(x: State, sent: seq<Bytes>, now: nat)
    requires Streams(x, sent) && Queued(x) && x.nextSend < TWO_32
    ensures Streams(Sweep(x, now), sent)
  {
    var more := New(x, Sweeps(now));
    var log := PushLog(sent);
    SweepResendsPending(x, |x.pending|, now);
    SweepUpToKeepsQueue(x, |x.pending|, now);
    forall k | 0 <= k < |more|
      ensures FromLog(OnWire(more[k]), log) && OnWire(more[k]).sequence < |log|
    {
      assert IsPending(x, Sweep(x, now).transmitted[|x.transmitted| + k]);
      WireKeepsChunk(more[k], log);
    }
    if !Sweep(x, now).closed {
      SweepKeepsRaw(x, |x.pending|, now);
    }
    RepeatsStream(x, Sweeps(now), sent);
  }

  lemma StepStreams(x: State, event: Event, sent: seq<Bytes>)
    requires Streams(x, sent) && Queued(x) && Step(x, event).nextSend < TWO_32
    ensures Streams(Step(x, event), sent + SentBy(x, event))
  {
    hide Streams;
    assert sent + [] == sent;
    match event
    case Arrives(segment, clock) => DeliverStreams(x, sent, segment, clock);
    case Sends(message, clock) =>
      if SendOutcomeOf(x, message) == Sent {
        SubmitStreams(x, sent, message, clock);
      }
    case Sweeps(now) =>
      SweepUpToKeepsQueue(x, |x.pending|, now);
      ResendStreams(x, sent, now);
    case Installs(installed) => QuietStreams(x, Step(x, event), sent);
    case Closes => QuietStreams(x, Step(x, event), sent);
  }

  lemma QuietStreams(x: State, after: State, sent: seq<Bytes>)
    requires Streams(x, sent) && after.nextSend == x.nextSend
    requires after.transmitted == x.transmitted
    requires after.pending == x.pending || after.pending == []
    ensures Streams(after, sent)
  {
  }

  /** In every run, whatever arrives and however often it sweeps, a conversation
      transmits the pushes of the messages it was given in order and completely. */
  lemma {:induction false} RunStreams(conversation: nat, events: seq<Event>)
    requires Run(Fresh(conversation), events).nextSend < TWO_32
    ensures Streams(Run(Fresh(conversation), events), SentIn(Fresh(conversation), events))
  {
    if events == [] {
      return;
    }
    var n := |events| - 1;
    var before := Run(Fresh(conversation), events[..n]);
    hide Streams, Step, Queued;
    StepKeepsCount(before, events[n]);
    RunStreams(conversation, events[..n]);
    RunKeepsSender(conversation, events[..n]);
    StepStreams(before, events[n], SentIn(Fresh(conversation), events[..n]));
  }

  // ------------------------------------------------------------ the reader

  /** The events of reading a link from its beginning. */
  predicate Reads(events: seq<Event>, link: seq<Segment>) {
    && |events| == |link|
    && forall i :: 0 <= i < |events| ==> events[i].Arrives? && events[i].segment == link[i]
  }

  lemma {:induction false} LinkPrefix(link: seq<Segment>, r: nat, log: seq<Chunk>)
    requires link != [] && InOrder(link, r, log)
    ensures var n := |link| - 1;
            && InOrder(link[..n], r, log)
            && (link[n].command == CMD_PUSH ==>
                  FromLog(link[n], log) && link[n].sequence <= Frontier(link[..n], r))
            && Frontier(link, r) == After(link[n], Frontier(link[..n], r))
  {
    var n := |link| - 1;
    var next := After(link[0], r);
    if n > 0 {
      LinkPrefix(link[1..], next, log);
      assert link[1..][..n - 1] == link[..n][1..];
      assert link[..n][0] == link[0];
    }
  }

  /** What a reader has completed is the regrouped log up to its receive sequence,
      and it holds nothing back. */
  predicate Caught(y: State, log: seq<Chunk>, r: nat) {
    && !y.closed && y.received == map[] && y.nextReceive == r <= |log|
    && Regroup(log[..r]) == Grouping(y.completed, y.fragments)
  }

  lemma {:induction false} ReaderFollows(y: State, events: seq<Event>, link: seq<Segment>,
                                         log: seq<Chunk>)
    requires Reads(events, link) && InOrder(link, 0, log) && Caught(y, log, 0)
    ensures Caught(Run(y, events), log, Frontier(link, 0))
  {
    if events == [] {
      return;
    }
    var n := |events| - 1;
    LinkPrefix(link, 0, log);
    hide InOrder, Frontier, Input, Regroup;
    ReaderFollows(y, events[..n], link[..n], log);
    InputInOrder(Run(y, events[..n]), link[n], log, events[n].clock);
  }

  lemma {:induction false} LinkTake(link: seq<Segment>, n: nat, r: nat, log: seq<Chunk>)
    requires InOrder(link, r, log) && n <= |link|
    ensures InOrder(link[..n], r, log)
    decreases |link|
  {
    if n < |link| {
      LinkPrefix(link, r, log);
      LinkTake(link[..|link| - 1], n, r, log);
      assert link[..|link| - 1][..n] == link[..n];
    } else {
      assert link[..n] == link;
    }
  }

  /** At any moment a reader of what is transmitted, as the wire carries it, has
      completed a prefix of the messages sent, and exactly those once it has read
      everything. */
  lemma ReaderCompletes(sender: nat, sends: seq<Event>, reader: nat, heard: seq<Event>)
    requires Run(Fresh(sender), sends).nextSend < TWO_32
    requires var link := Wired(Run(Fresh(sender), sends).transmitted);
             |heard| <= |link| && Reads(heard, link[..|heard|])
    ensures !Run(Fresh(reader), heard).closed
    ensures Run(Fresh(reader), heard).completed <= SentIn(Fresh(sender), sends)
    ensures |heard| == |Run(Fresh(sender), sends).transmitted| ==>
              Run(Fresh(reader), heard).completed == SentIn(Fresh(sender), sends)
  {
    var sent := SentIn(Fresh(sender), sends);
    var log := PushLog(sent);
    var link := Wired(Run(Fresh(sender), sends).transmitted);
    var n := |heard|;
    RunStreams(sender, sends);
    assert Caught(Fresh(reader), log, 0) by {
      assert log[..0] == [];
    }
    hide Run, SentIn, Wired, PushLog, InOrder, Frontier, Reads;
    LinkTake(link, n, 0, log);
    ReaderFollows(Fresh(reader), heard, link[..n], log);
    PushLogRegroups(sent);
    RegroupPrefix(log, Frontier(link[..n], 0));
    if n == |link| {
      assert link[..n] == link && log[..|log|] == log;
    }
  }
}
