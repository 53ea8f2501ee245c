/** Two conversations joined by two lossless FIFO links, which is what the TCP
    relay gives them, under every interleaving of sends, deliveries,
    retransmission sweeps, handler changes and closes. */
module KcpSystem {
  import opened ByteStrings
  import opened KcpSegment
  import opened Kcp
  import opened KcpSender
  import opened KcpRetransmit
  import opened KcpReceiver

  /** Both endpoints, what is in flight each way as the other end will parse
      it, and the messages each endpoint's `send` took. */
  datatype System = System(
    left: State,
    right: State,
    toRight: seq<Segment>,
    toLeft: seq<Segment>,
    sentByLeft: seq<Bytes>,
    sentByRight: seq<Bytes>)

  function Start(conversation: nat): System {
    System(Fresh(conversation), Fresh(conversation), [], [], [], [])
  }

  function Swap(sys: System): System {
    System(sys.right, sys.left, sys.toLeft, sys.toRight, sys.sentByRight, sys.sentByLeft)
  }

  datatype Act =
    | Submit(message: Bytes, clock: Clock)
    | Deliver(clock: Clock)
    | Resend(now: nat)
    | Listen(installed: bool)
    | Shut

  function Wired(segments: seq<Segment>): (wired: seq<Segment>)
    ensures |wired| == |segments|
  {
    seq(|segments|, i requires 0 <= i < |segments| => OnWire(segments[i]))
  }

  /** The left endpoint handled an event; what it transmitted is now in flight. */
  function Moved(sys: System, event: Event): System
  {
    var after := Step(sys.left, event);
    StepOnlyAppends(sys.left, event);
    sys.(left := after,
         toRight := sys.toRight + Wired(after.transmitted[|sys.left.transmitted|..]))
  }

  function ActLeft(sys: System, act: Act): System {
    match act
    case Submit(message, clock) =>
      var moved := Moved(sys, Sends(message, clock));
      if SendOutcomeOf(sys.left, message) == Sent
      then moved.(sentByLeft := sys.sentByLeft + [message]) else moved
    case Deliver(clock) =>
      if sys.toLeft == [] then sys
      else Moved(sys.(toLeft := sys.toLeft[1..]), Arrives(sys.toLeft[0], clock))
    case Resend(now) => Moved(sys, Sweeps(now))
    case Listen(installed) => Moved(sys, Installs(installed))
    case Shut => Moved(sys, Closes)
  }

  datatype Side = Left | Right

  datatype Action = Action(side: Side, act: Act)

  function Next(sys: System, action: Action): System {
    if action.side == Left then ActLeft(sys, action.act)
    else Swap(ActLeft(Swap(sys), action.act))
  }

  function Execute(sys: System, actions: seq<Action>): System {
    if actions == [] then sys
    else Next(Execute(sys, actions[..|actions| - 1]), actions[|actions| - 1])
  }

  /** Neither direction has used up the 32-bit sequence numbers. */
  predicate Counting(sys: System) {
    sys.left.nextSend < TWO_32 && sys.right.nextSend < TWO_32
  }

  // ------------------------------------------------- fragmenting messages

  function ChunksUpTo(message: Bytes, n: nat): (chunks: seq<Chunk>)
    requires n <= ChunkCount(message)
    ensures |chunks| == n
  {
    if n == 0 then []
    else ChunksUpTo(message, n - 1)
         + [Chunk(ChunkCount(message) - n, ChunkAt(message, n - 1))]
  }

  function ChunksOf(message: Bytes): seq<Chunk> { ChunksUpTo(message, ChunkCount(message)) }

  /** The pushes a list of sent messages takes. */
  function PushLog(sent: seq<Bytes>): seq<Chunk> {
    if sent == [] then [] else PushLog(sent[..|sent| - 1]) + ChunksOf(sent[|sent| - 1])
  }

  function Datas(chunks: seq<Chunk>): seq<Bytes> {
    if chunks == [] then []
    else Datas(chunks[..|chunks| - 1]) + [chunks[|chunks| - 1].data]
  }

  lemma {:induction false} UnfinishedGroup(log: seq<Chunk>, chunks: seq<Chunk>)
    requires forall k :: 0 <= k < |chunks| ==> chunks[k].fragment != 0
    ensures Regroup(log + chunks)
            == Grouping(Regroup(log).messages, Regroup(log).partial + Datas(chunks))
  {
    if chunks == [] {
      assert log + chunks == log;
      return;
    }
    var n := |chunks| - 1;
    assert Datas(chunks) == Datas(chunks[..n]) + [chunks[n].data];
    hide Regroup, Datas;
    UnfinishedGroup(log, chunks[..n]);
    RegroupMore(log + chunks[..n], chunks[n]);
    assert chunks[..n] + [chunks[n]] == chunks;
    ConcatAssoc(log, chunks[..n], [chunks[n]]);
    ConcatAssoc(Regroup(log).partial, Datas(chunks[..n]), [chunks[n].data]);
  }

  lemma RegroupMore(log: seq<Chunk>, chunk: Chunk)
    requires chunk.fragment != 0
    ensures Regroup(log + [chunk])
            == Grouping(Regroup(log).messages, Regroup(log).partial + [chunk.data])
  {
    assert (log + [chunk])[..|log|] == log;
  }

  lemma RegroupAppend(log: seq<Chunk>, chunk: Chunk)
    requires chunk.fragment == 0
    ensures Regroup(log + [chunk])
            == Grouping(Regroup(log).messages + [Join(Regroup(log).partial + [chunk.data])], [])
  {
    assert (log + [chunk])[..|log|] == log;
  }

  /** Chunks that count down to zero regroup to one message. */
  lemma FinishedGroup(log: seq<Chunk>, chunks: seq<Chunk>)
    requires Regroup(log).partial == [] && chunks != []
    requires forall k :: 0 <= k < |chunks| ==> (chunks[k].fragment == 0 <==> k == |chunks| - 1)
    ensures Regroup(log + chunks)
            == Grouping(Regroup(log).messages + [Join(Datas(chunks))], [])
  {
    var n := |chunks| - 1;
    assert Datas(chunks) == Datas(chunks[..n]) + [chunks[n].data];
    hide Regroup, Datas, Join;
    UnfinishedGroup(log, chunks[..n]);
    RegroupAppend(log + chunks[..n], chunks[n]);
    ConcatAssoc(log, chunks[..n], [chunks[n]]);
    assert chunks[..n] + [chunks[n]] == chunks;
    assert [] + Datas(chunks[..n]) == Datas(chunks[..n]);
  }

  lemma {:induction false} ChunksUpToAt(message: Bytes, n: nat, k: nat)
    requires k < n <= ChunkCount(message)
    ensures ChunksUpTo(message, n)[k] == Chunk(ChunkCount(message) - 1 - k, ChunkAt(message, k))
  {
    if k < n - 1 {
      ChunksUpToAt(message, n - 1, k);
    }
  }

  lemma {:induction false} ChunksJoin(message: Bytes, n: nat)
    requires n <= ChunkCount(message)
    ensures Join(Datas(ChunksUpTo(message, n))) == Slice(message, 0, n * MAX_SEGMENT_SIZE)
  {
    if n > 0 {
      ChunksJoin(message, n - 1);
      ChunkExtends(message, n - 1);
      var before := ChunksUpTo(message, n - 1);
      var chunks := ChunksUpTo(message, n);
      assert chunks[..n - 1] == before;
      assert Datas(chunks)[..|Datas(chunks)| - 1] == Datas(before);
    }
  }

  lemma ChunksRegroup(log: seq<Chunk>, message: Bytes)
    requires Regroup(log).partial == []
    ensures Regroup(log + ChunksOf(message))
            == Grouping(Regroup(log).messages + [message], [])
  {
    var count := ChunkCount(message);
    var chunks := ChunksOf(message);
    forall k | 0 <= k < count
      ensures chunks[k].fragment == count - 1 - k
    {
      ChunksUpToAt(message, count, k);
    }
    FinishedGroup(log, chunks);
    ChunksJoin(message, count);
    ChunkExtends(message, count - 1);
  }

  lemma ChunkExtends(message: Bytes, index: nat)
    requires index < ChunkCount(message)
    ensures Slice(message, 0, index * MAX_SEGMENT_SIZE) + ChunkAt(message, index)
            == Slice(message, 0, (index + 1) * MAX_SEGMENT_SIZE)
    ensures index + 1 == ChunkCount(message) ==>
              Slice(message, 0, (index + 1) * MAX_SEGMENT_SIZE) == message
  {
    var lo, hi := index * MAX_SEGMENT_SIZE, (index + 1) * MAX_SEGMENT_SIZE;
    assert lo <= |message|;
  }

  /** Fragmenting loses nothing: the push log regroups to the messages sent. */
  lemma {:induction false} PushLogRegroups(sent: seq<Bytes>)
    ensures Regroup(PushLog(sent)) == Grouping(sent, [])
  {
    if sent != [] {
      var n := |sent| - 1;
      assert PushLog(sent) == PushLog(sent[..n]) + ChunksOf(sent[n]);
      hide Regroup, PushLog, ChunksOf;
      PushLogRegroups(sent[..n]);
      ChunksRegroup(PushLog(sent[..n]), sent[n]);
      assert sent[..n] + [sent[n]] == sent;
    }
  }

  // ---------------------------------------------------- the link invariant

  /** Reading the link from receive sequence `r` on, every push is one of the
      log and comes after all below it. */
  predicate InOrder(link: seq<Segment>, r: nat, log: seq<Chunk>) {
    link == [] ||
    var head := link[0];
    if head.command == CMD_PUSH then
      && FromLog(head, log) && head.sequence <= r
      && InOrder(link[1..], if head.sequence == r then r + 1 else r, log)
    else InOrder(link[1..], r, log)
  }

  /** The receive sequence once the link has been read to its end. */
  function Frontier(link: seq<Segment>, r: nat): nat {
    if link == [] then r
    else Frontier(link[1..],
                  if link[0].command == CMD_PUSH && link[0].sequence == r then r + 1 else r)
  }

  lemma {:induction false} FrontierGrows(link: seq<Segment>, r: nat)
    ensures r <= Frontier(link, r)
  {
    if link != [] {
      FrontierGrows(link[1..],
                    if link[0].command == CMD_PUSH && link[0].sequence == r then r + 1 else r);
    }
  }

  lemma {:induction false} LinkAppend(link: seq<Segment>, last: Segment, r: nat, log: seq<Chunk>)
    requires InOrder(link, r, log)
    requires last.command == CMD_PUSH ==>
               FromLog(last, log) && last.sequence <= Frontier(link, r)
    ensures InOrder(link + [last], r, log)
    ensures Frontier(link + [last], r)
            == Frontier(link, r)
               + if last.command == CMD_PUSH && last.sequence == Frontier(link, r) then 1 else 0
  {
    if link == [] {
      assert (link + [last])[1..] == [];
    } else {
      var next := if link[0].command == CMD_PUSH && link[0].sequence == r then r + 1 else r;
      LinkAppend(link[1..], last, next, log);
      assert (link + [last])[1..] == link[1..] + [last];
    }
  }

  lemma {:induction false} LongerLog(link: seq<Segment>, r: nat, log: seq<Chunk>, more: seq<Chunk>)
    requires InOrder(link, r, log)
    ensures InOrder(link, r, log + more)
  {
    if link != [] {
      var next := if link[0].command == CMD_PUSH && link[0].sequence == r then r + 1 else r;
      LongerLog(link[1..], next, log, more);
    }
  }

  /** Pushes that have all been in flight before, or no pushes at all. */
  predicate Repeats(segments: seq<Segment>, log: seq<Chunk>, frontier: nat) {
    forall k :: 0 <= k < |segments| && segments[k].command == CMD_PUSH ==>
      FromLog(segments[k], log) && segments[k].sequence < frontier
  }

  lemma {:induction false} LinkRepeats(link: seq<Segment>, more: seq<Segment>, r: nat,
                                       log: seq<Chunk>)
    requires InOrder(link, r, log) && Repeats(more, log, Frontier(link, r))
    ensures InOrder(link + more, r, log) && Frontier(link + more, r) == Frontier(link, r)
  {
    if more == [] {
      assert link + more == link;
    } else {
      var n := |more| - 1;
      LinkRepeats(link, more[..n], r, log);
      LinkAppend(link + more[..n], more[n], r, log);
      ConcatAssoc(link, more[..n], [more[n]]);
      assert more[..n] + [more[n]] == more;
    }
  }

  /** The next pushes of the log, in order. */
  predicate Continues(segments: seq<Segment>, log: seq<Chunk>, frontier: nat) {
    forall k :: 0 <= k < |segments| ==>
      && segments[k].command == CMD_PUSH && FromLog(segments[k], log)
      && segments[k].sequence == frontier + k
  }

  lemma {:induction false} LinkContinues(link: seq<Segment>, more: seq<Segment>, r: nat,
                                         log: seq<Chunk>)
    requires InOrder(link, r, log) && Continues(more, log, Frontier(link, r))
    ensures InOrder(link + more, r, log) && Frontier(link + more, r) == Frontier(link, r) + |more|
  {
    if more == [] {
      assert link + more == link;
    } else {
      var n := |more| - 1;
      LinkContinues(link, more[..n], r, log);
      LinkAppend(link + more[..n], more[n], r, log);
      ConcatAssoc(link, more[..n], [more[n]]);
      assert more[..n] + [more[n]] == more;
    }
  }

  // ------------------------------------------------- the system invariant

  predicate PendingFromLog(pending: seq<Pending>, log: seq<Chunk>) {
    forall i :: 0 <= i < |pending| ==> FromLog(pending[i].raw, log)
  }

  /** One endpoint as the sender of `log`, against a peer that has consumed the
      first `r` of it: nothing was retired before the peer consumed it, and the
      link brings an open peer the rest of the log in order. */
  predicate Outgoing(x: State, link: seq<Segment>, log: seq<Chunk>, r: nat, peerClosed: bool) {
    && |log| == x.nextSend && r <= |log|
    && (!x.closed ==> Base(x) <= r)
    && PendingFromLog(x.pending, log)
    && (!peerClosed ==> InOrder(link, r, log) && Frontier(link, r) == |log|)
  }

  /** Nothing in flight acknowledges more than has been consumed. */
  predicate AcksConsumed(link: seq<Segment>, r: nat) {
    forall i :: 0 <= i < |link| ==> Acknowledged(link[i]) <= r
  }

  /** One endpoint as the receiver of `log`. */
  predicate Incoming(y: State, link: seq<Segment>, log: seq<Chunk>) {
    && y.received == map[]
    && y.nextReceive <= |log|
    && Regroup(log[..y.nextReceive]) == Grouping(y.completed, y.fragments)
    && AcksConsumed(link, y.nextReceive)
  }

  predicate Half(x: State, y: State, xy: seq<Segment>, yx: seq<Segment>, sent: seq<Bytes>) {
    && Outgoing(x, xy, PushLog(sent), y.nextReceive, y.closed)
    && Incoming(y, yx, PushLog(sent))
  }

  ghost predicate Sound(st: State) { SenderInvariant(st) && UnaBounded(st) }

  ghost predicate SystemInvariant(sys: System) {
    && Sound(sys.left) && Sound(sys.right)
    && Half(sys.left, sys.right, sys.toRight, sys.toLeft, sys.sentByLeft)
    && Half(sys.right, sys.left, sys.toLeft, sys.toRight, sys.sentByRight)
  }

  // -------------------------------------------- what each step transmits

  /** What a step transmitted. */
  function New(st: State, event: Event): seq<Segment> {
    StepOnlyAppends(st, event);
    Step(st, event).transmitted[|st.transmitted|..]
  }

  lemma {:induction false} PushUpToSizes(st: State, message: Bytes, n: nat, clock: Clock)
    requires n <= ChunkCount(message)
    ensures var after := PushUpTo(st, message, n, clock);
            && |after.transmitted| == |st.transmitted| + n
            && |after.pending| == |st.pending| + n
            && after.pending[..|st.pending|] == st.pending
            && after.nextSend == st.nextSend + n && after.nextReceive == st.nextReceive
  {
    if n > 0 {
      PushUpToSizes(st, message, n - 1, clock);
    }
  }

  /** A push that carries chunk `k` of a message. */
  predicate Carries(raw: Segment, st: State, message: Bytes, k: nat)
    requires k < ChunkCount(message)
  {
    && raw.command == CMD_PUSH && raw.sequence == st.nextSend + k
    && ChunkOf(raw) == Chunk(ChunkCount(message) - 1 - k, ChunkAt(message, k))
    && raw.unacknowledged == st.nextReceive
  }

  /** The pushes `now` extends `was` by carry the first `n` chunks. */
  predicate CarriesChunks(was: seq<Segment>, now: seq<Segment>, st: State, message: Bytes, n: nat)
    requires n <= ChunkCount(message)
  {
    && |now| == |was| + n && now[..|was|] == was
    && forall j :: |was| <= j < |now| ==> Carries(now[j], st, message, j - |was|)
  }

  lemma CarriesOneMore(was: seq<Segment>, now: seq<Segment>, st: State, message: Bytes, n: nat,
                       raw: Segment)
    requires n < ChunkCount(message) && CarriesChunks(was, now, st, message, n)
    requires Carries(raw, st, message, n)
    ensures CarriesChunks(was, now + [raw], st, message, n + 1)
  {
    hide Carries;
    assert (now + [raw])[..|was|] == now[..|was|];
  }

  lemma PushCarries(st: State, message: Bytes, n: nat, clock: Clock)
    requires n < ChunkCount(message)
    ensures Carries(PushOf(PushUpTo(st, message, n, clock), message, n, Now(clock, 2 * n)),
                    st, message, n)
  {
    PushUpToSizes(st, message, n, clock);
  }

  function Raws(pending: seq<Pending>): (raws: seq<Segment>)
    ensures |raws| == |pending|
    ensures forall i :: 0 <= i < |raws| ==> raws[i] == pending[i].raw
  {
    seq(|pending|, i requires 0 <= i < |pending| => pending[i].raw)
  }

  lemma RawsAppend(pending: seq<Pending>, entry: Pending)
    ensures Raws(pending + [entry]) == Raws(pending) + [entry.raw]
  {
  }

  lemma PushOneAppends(st: State, message: Bytes, index: nat, clock: Clock)
    requires index < ChunkCount(message)
    ensures var after := PushOne(st, message, index, clock);
            var raw := PushOf(st, message, index, Now(clock, 2 * index));
            && after.transmitted == st.transmitted + [raw]
            && Raws(after.pending) == Raws(st.pending) + [raw]
  {
    hide PushOf, Raws;
    RawsAppend(st.pending,
               Pending(st.nextSend, PushOf(st, message, index, Now(clock, 2 * index)),
                       Now(clock, 2 * index + 1), 1));
  }

  lemma CarriesNothing(was: seq<Segment>, st: State, message: Bytes)
    ensures CarriesChunks(was, was, st, message, 0)
  {
  }

  /** One more chunk, in a list that a push was appended to. */
  lemma PushOneCarries(was: seq<Segment>, before: seq<Segment>, now: seq<Segment>, st: State,
                       message: Bytes, n: nat, clock: Clock)
    requires n < ChunkCount(message) && CarriesChunks(was, before, st, message, n)
    requires now == before + [PushOf(PushUpTo(st, message, n, clock), message, n,
                                     Now(clock, 2 * n))]
    ensures CarriesChunks(was, now, st, message, n + 1)
  {
    PushCarries(st, message, n, clock);
    hide PushUpTo, PushOf, CarriesChunks, Carries, ChunkCount;
    CarriesOneMore(was, before, st, message, n,
                   PushOf(PushUpTo(st, message, n, clock), message, n, Now(clock, 2 * n)));
  }

  /** What is queued and what is transmitted for a message carries its chunks. */
  lemma {:induction false} PushUpToCarries(st: State, message: Bytes, n: nat, clock: Clock)
    requires n <= ChunkCount(message)
    ensures CarriesChunks(st.transmitted, PushUpTo(st, message, n, clock).transmitted,
                          st, message, n)
    ensures CarriesChunks(Raws(st.pending), Raws(PushUpTo(st, message, n, clock).pending),
                          st, message, n)
  {
    hide PushUpTo, PushOne, PushOf, Raws, CarriesChunks, ChunkCount;
    PushUpToSteps(st, message, n, clock);
    if n == 0 {
      CarriesNothing(st.transmitted, st, message);
      CarriesNothing(Raws(st.pending), st, message);
    } else {
      var before := PushUpTo(st, message, n - 1, clock);
      var after := PushUpTo(st, message, n, clock);
      PushUpToCarries(st, message, n - 1, clock);
      PushOneAppends(before, message, n - 1, clock);
      PushOneCarries(st.transmitted, before.transmitted, after.transmitted, st, message, n - 1,
                     clock);
      PushOneCarries(Raws(st.pending), Raws(before.pending), Raws(after.pending), st, message,
                     n - 1, clock);
    }
  }

  ghost predicate IsPending(st: State, raw: Segment) {
    exists i :: 0 <= i < |st.pending| && st.pending[i].raw == raw
  }

  /** A sweep transmits pending segments only. */
  lemma {:induction false} SweepResendsPending(st: State, n: nat, now: nat)
    requires n <= |st.pending|
    ensures var after := SweepUpTo(st, n, now).transmitted;
            && |st.transmitted| <= |after|
            && forall k :: |st.transmitted| <= k < |after| ==> IsPending(st, after[k])
  {
    if n > 0 && !st.closed {
      SweepResendsPending(st, n - 1, now);
      var before := SweepUpTo(st, n - 1, now);
      if !before.closed {
        SweepKeepsRaw(st, n - 1, now);
        assert before.pending[n - 1].raw == st.pending[n - 1].raw;
        assert IsPending(st, before.pending[n - 1].raw);
      }
    }
  }

  // ------------------------------------------ the sending half of each step

  lemma WireKeepsChunk(raw: Segment, log: seq<Chunk>)
    requires FromLog(raw, log) && |log| < TWO_32
    ensures FromLog(OnWire(raw), log)
    ensures raw.command == CMD_PUSH ==> OnWire(raw).sequence == raw.sequence
  {
  }

  lemma PushLogGrows(sent: seq<Bytes>, message: Bytes)
    ensures PushLog(sent + [message]) == PushLog(sent) + ChunksOf(message)
  {
    assert (sent + [message])[..|sent|] == sent;
  }

  lemma CarriedFromLog(raw: Segment, st: State, sent: seq<Bytes>, message: Bytes, k: nat)
    requires |PushLog(sent)| == st.nextSend && k < ChunkCount(message)
    requires Carries(raw, st, message, k)
    ensures FromLog(raw, PushLog(sent + [message]))
  {
    PushLogGrows(sent, message);
    ChunksUpToAt(message, ChunkCount(message), k);
  }

  lemma SubmitQueues(x: State, sent: seq<Bytes>, message: Bytes, clock: Clock)
    requires |PushLog(sent)| == x.nextSend && PendingFromLog(x.pending, PushLog(sent))
    ensures PendingFromLog(PushUpTo(x, message, ChunkCount(message), clock).pending,
                           PushLog(sent + [message]))
  {
    var count := ChunkCount(message);
    var after := PushUpTo(x, message, count, clock);
    PushLogGrows(sent, message);
    PushUpToSizes(x, message, count, clock);
    PushUpToCarries(x, message, count, clock);
    forall i | 0 <= i < |after.pending|
      ensures FromLog(after.pending[i].raw, PushLog(sent + [message]))
    {
      if i < |x.pending| {
        assert after.pending[i] == x.pending[i];
      } else {
        CarriedFromLog(Raws(after.pending)[i], x, sent, message, i - |x.pending|);
      }
    }
  }

  lemma SubmitContinues(x: State, sent: seq<Bytes>, message: Bytes, clock: Clock)
    requires |PushLog(sent)| == x.nextSend && SendOutcomeOf(x, message) == Sent
    requires Send(x, message, clock).nextSend < TWO_32
    ensures var more := New(x, Sends(message, clock));
            |more| == ChunkCount(message)
            && Continues(Wired(more), PushLog(sent + [message]), x.nextSend)
  {
    var count := ChunkCount(message);
    var log := PushLog(sent + [message]);
    var more := New(x, Sends(message, clock));
    PushLogGrows(sent, message);
    PushUpToSizes(x, message, count, clock);
    PushUpToCarries(x, message, count, clock);
    forall k | 0 <= k < count
      ensures FromLog(Wired(more)[k], log) && Wired(more)[k].sequence == x.nextSend + k
      ensures Wired(more)[k].command == CMD_PUSH
    {
      CarriedFromLog(more[k], x, sent, message, k);
      WireKeepsChunk(more[k], log);
    }
  }

  /** Submitting a message extends the log, the queue and the link alike. */
  lemma SubmitOutgoing(x: State, link: seq<Segment>, sent: seq<Bytes>, r: nat, peerClosed: bool,
                       message: Bytes, clock: Clock)
    requires Sound(x) && Outgoing(x, link, PushLog(sent), r, peerClosed)
    requires SendOutcomeOf(x, message) == Sent
    requires Send(x, message, clock).nextSend < TWO_32
    ensures Outgoing(Send(x, message, clock), link + Wired(New(x, Sends(message, clock))),
                     PushLog(sent + [message]), r, peerClosed)
  {
    SubmitQueues(x, sent, message, clock);
    SubmitContinues(x, sent, message, clock);
    PushLogGrows(sent, message);
    PushUpToSizes(x, message, ChunkCount(message), clock);
    if !peerClosed {
      LongerLog(link, r, PushLog(sent), ChunksOf(message));
      LinkContinues(link, Wired(New(x, Sends(message, clock))), r, PushLog(sent + [message]));
    }
  }

  /** A segment arriving at the sender retires no more than was consumed, and
      is answered with anything but a push. */
  lemma DeliverOutgoing(x: State, link: seq<Segment>, log: seq<Chunk>, r: nat, peerClosed: bool,
                        segment: Segment, clock: Clock)
    requires Sound(x) && Outgoing(x, link, log, r, peerClosed)
    requires Acknowledged(segment) <= r
    ensures Outgoing(Input(x, segment, clock), link + Wired(New(x, Arrives(segment, clock))),
                     log, r, peerClosed)
  {
    var more := New(x, Arrives(segment, clock));
    InputReplies(x, segment, clock);
    assert more == Replies(x, segment, clock);
    if !x.closed {
      InputMovesBase(x, segment, clock);
    }
    if !peerClosed {
      LinkRepeats(link, Wired(more), r, log);
    }
  }

  /** A sweep sends nothing that has not been in flight before. */
  lemma ResendOutgoing(x: State, link: seq<Segment>, log: seq<Chunk>, r: nat, peerClosed: bool,
                       now: nat)
    requires Sound(x) && Outgoing(x, link, log, r, peerClosed) && |log| < TWO_32
    ensures Outgoing(Sweep(x, now), link + Wired(New(x, Sweeps(now))), log, r, peerClosed)
  {
    var more := New(x, Sweeps(now));
    SweepResendsPending(x, |x.pending|, now);
    SweepUpToKeepsQueue(x, |x.pending|, now);
    forall k | 0 <= k < |more|
      ensures FromLog(OnWire(more[k]), log) && OnWire(more[k]).sequence < |log|
    {
      assert IsPending(x, Sweep(x, now).transmitted[|x.transmitted| + k]);
      WireKeepsChunk(more[k], log);
    }
    if !Sweep(x, now).closed {
      SweepKeepsRaw(x, |x.pending|, now);
    }
    if !peerClosed {
      LinkRepeats(link, Wired(more), r, log);
    }
  }

  // ---------------------------------------- the receiving half of each step

  lemma AcksConsumedAppend(link: seq<Segment>, more: seq<Segment>, r: nat, later: nat)
    requires AcksConsumed(link, r) && r <= later
    requires forall k :: 0 <= k < |more| ==> Acknowledged(more[k]) <= later
    ensures AcksConsumed(link + Wired(more), later)
  {
    forall i | 0 <= i < |link + Wired(more)|
      ensures Acknowledged((link + Wired(more))[i]) <= later
    {
      if i >= |link| {
        assert Acknowledged(more[i - |link|]) <= later;
      }
    }
  }

  /** Whatever an endpoint transmits other than acknowledgements carries at
      most its receive sequence. */
  lemma QuietIncoming(y: State, link: seq<Segment>, log: seq<Chunk>, event: Event)
    requires Sound(y) && Incoming(y, link, log) && !event.Arrives?
    ensures Incoming(Step(y, event), link + Wired(New(y, event)), log)
  {
    var after := Step(y, event);
    var more := New(y, event);
    StepKeepsUna(y, event);
    match event {
      case Sends(message, clock) =>
        if SendOutcomeOf(y, message) == Sent {
          PushUpToKeepsReceiver(y, message, ChunkCount(message), clock);
          PushUpToCarries(y, message, ChunkCount(message), clock);
        }
      case Sweeps(now) =>
        SweepUpToKeepsReceiver(y, |y.pending|, now);
        SweepResendsPending(y, |y.pending|, now);
        SweepUpToReceived(y, |y.pending|, now);
      case Installs(installed) =>
      case Closes =>
    }
    forall k | 0 <= k < |more|
      ensures Acknowledged(more[k]) <= y.nextReceive
    {
      assert more[k] == after.transmitted[|y.transmitted| + k];
      if event.Sweeps? {
        assert IsPending(y, after.transmitted[|y.transmitted| + k]);
      }
    }
    AcksConsumedAppend(link, more, y.nextReceive, after.nextReceive);
  }

  lemma {:induction false} SweepUpToReceived(y: State, n: nat, now: nat)
    requires n <= |y.pending| && y.received == map[]
    ensures SweepUpTo(y, n, now).received == map[]
  {
    if n > 0 {
      SweepUpToReceived(y, n - 1, now);
    }
  }

  /** The next push of the log is delivered at once. */
  lemma AcceptNext(y: State, segment: Segment, log: seq<Chunk>)
    requires y.received == map[] && y.nextReceive < |log|
    requires Regroup(log[..y.nextReceive]) == Grouping(y.completed, y.fragments)
    requires segment.sequence == y.nextReceive && ChunkOf(segment) == log[y.nextReceive]
    ensures var after := Accept(y, segment);
            && after.received == map[] && after.nextReceive == y.nextReceive + 1
            && Regroup(log[..after.nextReceive]) == Grouping(after.completed, after.fragments)
  {
    var n := y.nextReceive;
    var queued := y.(received := map[n := segment]);
    var after := DrainOne(queued);
    assert after.received == map[];
    assert Drain(queued) == Drain(after) == after;
    assert y.received[n := segment] == map[n := segment];
    assert log[..n + 1][..n] == log[..n];
  }

  /** The receive sequence after the head of an ordered link. */
  function After(head: Segment, r: nat): nat {
    if head.command == CMD_PUSH && head.sequence == r then r + 1 else r
  }

  lemma InputInOrder(y: State, head: Segment, log: seq<Chunk>, clock: Clock)
    requires !y.closed && y.received == map[] && y.nextReceive <= |log|
    requires Regroup(log[..y.nextReceive]) == Grouping(y.completed, y.fragments)
    requires head.command == CMD_PUSH ==> FromLog(head, log) && head.sequence <= y.nextReceive
    ensures var after := Input(y, head, clock);
            && !after.closed
            && after.received == map[] && after.nextReceive == After(head, y.nextReceive) <= |log|
            && Regroup(log[..after.nextReceive]) == Grouping(after.completed, after.fragments)
  {
    InputReceives(y, head, clock);
    InputIsRetirements(y, head, clock);
    if head.command == CMD_PUSH && head.sequence == y.nextReceive {
      AcceptNext(y, head, log);
    }
  }

  /** The receiver reads the head of its link and answers it. */
  lemma DeliverIncoming(y: State, link: seq<Segment>, back: seq<Segment>, log: seq<Chunk>,
                        clock: Clock)
    requires link != [] && Incoming(y, back, log)
    requires !y.closed ==> InOrder(link, y.nextReceive, log)
    ensures var after := Input(y, link[0], clock);
            && Incoming(after, back + Wired(New(y, Arrives(link[0], clock))), log)
            && after.closed == y.closed && after.nextReceive >= y.nextReceive
            && (!y.closed ==>
                 && InOrder(link[1..], after.nextReceive, log)
                 && Frontier(link[1..], after.nextReceive) == Frontier(link, y.nextReceive))
  {
    var more := New(y, Arrives(link[0], clock));
    var after := Input(y, link[0], clock);
    InputReplies(y, link[0], clock);
    assert more == Replies(y, link[0], clock);
    if !y.closed {
      InputInOrder(y, link[0], log, clock);
      RepliesCarryReceived(y, link[0], clock);
    }
    AcksConsumedAppend(back, more, y.nextReceive, after.nextReceive);
  }

  // ------------------------------------------------------ every step

  lemma ConsumedMore(x: State, link: seq<Segment>, later: seq<Segment>, log: seq<Chunk>,
                     r: nat, r': nat, peerClosed: bool, nowClosed: bool)
    requires Outgoing(x, link, log, r, peerClosed)
    requires r <= r' <= |log| && (peerClosed ==> nowClosed)
    requires !nowClosed ==> InOrder(later, r', log) && Frontier(later, r') == |log|
    ensures Outgoing(x, later, log, r', nowClosed)
  {
  }

  lemma LongerSent(y: State, link: seq<Segment>, sent: seq<Bytes>, message: Bytes)
    requires Incoming(y, link, PushLog(sent))
    ensures Incoming(y, link, PushLog(sent + [message]))
  {
    PushLogGrows(sent, message);
    assert PushLog(sent + [message])[..y.nextReceive] == PushLog(sent)[..y.nextReceive];
  }

  lemma SoundStep(st: State, event: Event)
    requires Sound(st)
    ensures Sound(Step(st, event))
  {
    StepKeepsSender(st, event);
    StepKeepsUna(st, event);
  }

  lemma SubmitKeeps(sys: System, message: Bytes, clock: Clock)
    requires SystemInvariant(sys) && Counting(ActLeft(sys, Submit(message, clock)))
    ensures SystemInvariant(ActLeft(sys, Submit(message, clock)))
  {
    var event := Sends(message, clock);
    SoundStep(sys.left, event);
    if SendOutcomeOf(sys.left, message) == Sent {
      PushUpToExtends(sys.left, message, ChunkCount(message), clock);
      PushUpToKeepsReceiver(sys.left, message, ChunkCount(message), clock);
      SubmitOutgoing(sys.left, sys.toRight, sys.sentByLeft, sys.right.nextReceive,
                     sys.right.closed, message, clock);
      LongerSent(sys.right, sys.toLeft, sys.sentByLeft, message);
      QuietIncoming(sys.left, sys.toRight, PushLog(sys.sentByRight), event);
    } else {
      assert Moved(sys, event) == sys;
    }
  }

  lemma DeliverKeeps(sys: System, clock: Clock)
    requires SystemInvariant(sys)
    ensures SystemInvariant(ActLeft(sys, Deliver(clock)))
  {
    if sys.toLeft != [] {
      var event := Arrives(sys.toLeft[0], clock);
      SoundStep(sys.left, event);
      DeliverOutgoing(sys.left, sys.toRight, PushLog(sys.sentByLeft), sys.right.nextReceive,
                      sys.right.closed, sys.toLeft[0], clock);
      DeliverIncoming(sys.left, sys.toLeft, sys.toRight, PushLog(sys.sentByRight), clock);
      var after := Input(sys.left, sys.toLeft[0], clock);
      ConsumedMore(sys.right, sys.toLeft, sys.toLeft[1..], PushLog(sys.sentByRight),
                   sys.left.nextReceive, after.nextReceive, sys.left.closed, after.closed);
    }
  }

  lemma ResendKeeps(sys: System, now: nat)
    requires SystemInvariant(sys) && Counting(sys)
    ensures SystemInvariant(ActLeft(sys, Resend(now)))
  {
    var event := Sweeps(now);
    SoundStep(sys.left, event);
    SweepUpToKeepsReceiver(sys.left, |sys.left.pending|, now);
    ResendOutgoing(sys.left, sys.toRight, PushLog(sys.sentByLeft), sys.right.nextReceive,
                   sys.right.closed, now);
    QuietIncoming(sys.left, sys.toRight, PushLog(sys.sentByRight), event);
    var after := Sweep(sys.left, now);
    ConsumedMore(sys.right, sys.toLeft, sys.toLeft, PushLog(sys.sentByRight),
                 sys.left.nextReceive, after.nextReceive, sys.left.closed, after.closed);
  }

  lemma ListenOrShutKeeps(sys: System, act: Act)
    requires SystemInvariant(sys) && (act.Listen? || act.Shut?)
    ensures SystemInvariant(ActLeft(sys, act))
  {
    var event := if act.Listen? then Installs(act.installed) else Closes;
    SoundStep(sys.left, event);
    QuietIncoming(sys.left, sys.toRight, PushLog(sys.sentByRight), event);
    assert New(sys.left, event) == [];
    assert sys.toRight + Wired(New(sys.left, event)) == sys.toRight;
  }

  lemma ActLeftKeeps(sys: System, act: Act)
    requires SystemInvariant(sys) && Counting(sys) && Counting(ActLeft(sys, act))
    ensures SystemInvariant(ActLeft(sys, act))
  {
    match act
    case Submit(message, clock) => SubmitKeeps(sys, message, clock);
    case Deliver(clock) => DeliverKeeps(sys, clock);
    case Resend(now) => ResendKeeps(sys, now);
    case Listen(installed) => ListenOrShutKeeps(sys, act);
    case Shut => ListenOrShutKeeps(sys, act);
  }

  lemma StepKeepsCount(st: State, event: Event)
    ensures st.nextSend <= Step(st, event).nextSend
  {
    match event
    case Arrives(segment, clock) =>
      if !st.closed {
        InputIsRetirements(st, segment, clock);
      }
    case Sends(message, clock) =>
      if SendOutcomeOf(st, message) == Sent {
        PushUpToSizes(st, message, ChunkCount(message), clock);
      }
    case Sweeps(now) => SweepUpToKeepsCount(st, |st.pending|, now);
    case Installs(installed) =>
    case Closes =>
  }

  lemma {:induction false} SweepUpToKeepsCount(st: State, n: nat, now: nat)
    requires n <= |st.pending|
    ensures SweepUpTo(st, n, now).nextSend == st.nextSend
  {
    if n > 0 {
      SweepUpToKeepsCount(st, n - 1, now);
    }
  }

  lemma NextKeepsCount(sys: System, action: Action)
    ensures Counting(Next(sys, action)) ==> Counting(sys)
  {
    var s := if action.side == Left then sys else Swap(sys);
    match action.act
    case Submit(message, clock) => StepKeepsCount(s.left, Sends(message, clock));
    case Deliver(clock) =>
      if s.toLeft != [] {
        StepKeepsCount(s.left, Arrives(s.toLeft[0], clock));
      }
    case Resend(now) => StepKeepsCount(s.left, Sweeps(now));
    case Listen(installed) => StepKeepsCount(s.left, Installs(installed));
    case Shut => StepKeepsCount(s.left, Closes);
  }

  /** Every run of the system keeps the invariant. */
  lemma {:induction false} ExecuteKeeps(conversation: nat, actions: seq<Action>)
    requires Counting(Execute(Start(conversation), actions))
    ensures SystemInvariant(Execute(Start(conversation), actions))
  {
    if actions == [] {
      assert Regroup([]) == Grouping([], []);
      assert PushLog([])[..0] == [];
    } else {
      var n := |actions| - 1;
      var before := Execute(Start(conversation), actions[..n]);
      NextKeepsCount(before, actions[n]);
      ExecuteKeeps(conversation, actions[..n]);
      if actions[n].side == Left {
        ActLeftKeeps(before, actions[n].act);
      } else {
        ActLeftKeeps(Swap(before), actions[n].act);
      }
    }
  }

  // ---------------------------------------------------- the main results

  /** In every run, what the right endpoint completed is a prefix of what the
      left one sent, and all of it once the link is drained and the receiver is
      open; whether the sender is open does not matter. By symmetry (`Swap`) the
      same holds in the other direction. */
  lemma DeliversWhatWasSent(conversation: nat, actions: seq<Action>)
    requires Counting(Execute(Start(conversation), actions))
    ensures var sys := Execute(Start(conversation), actions);
            && sys.right.completed <= sys.sentByLeft && sys.left.completed <= sys.sentByRight
            && (sys.toRight == [] && !sys.right.closed ==> sys.right.completed == sys.sentByLeft)
            && (sys.toLeft == [] && !sys.left.closed ==> sys.left.completed == sys.sentByRight)
  {
    var sys := Execute(Start(conversation), actions);
    ExecuteKeeps(conversation, actions);
    ReadSoFar(sys.left, sys.right, sys.toRight, sys.toLeft, sys.sentByLeft);
    ReadSoFar(sys.right, sys.left, sys.toLeft, sys.toRight, sys.sentByRight);
  }

  lemma ReadSoFar(x: State, y: State, xy: seq<Segment>, yx: seq<Segment>, sent: seq<Bytes>)
    requires Half(x, y, xy, yx, sent)
    ensures y.completed <= sent
    ensures xy == [] && !y.closed ==> y.completed == sent && y.fragments == []
  {
    var log := PushLog(sent);
    PushLogRegroups(sent);
    RegroupPrefix(log, y.nextReceive);
    assert log[..|log|] == log;
  }

  /** Whether a sequence is still waiting to be acknowledged. */
  ghost predicate Waiting(x: State, sequence: nat) {
    exists i :: 0 <= i < |x.pending| && x.pending[i].sequence == sequence
  }

  /** Whether everything sent that is no longer waiting was consumed by the
      peer, unless closing dropped it. */
  ghost predicate RetiredOnlyRead(x: State, y: State) {
    !x.closed ==>
      forall s: nat {:trigger Waiting(x, s)} ::
        s < x.nextSend && !Waiting(x, s) ==> s < y.nextReceive
  }

  /** In every run, nothing leaves the pending queue of an open endpoint before
      its peer has consumed it, although an acknowledgement retires everything
      up to its sequence. */
  lemma NothingRetiredUnread(conversation: nat, actions: seq<Action>)
    requires Counting(Execute(Start(conversation), actions))
    ensures var sys := Execute(Start(conversation), actions);
            RetiredOnlyRead(sys.left, sys.right) && RetiredOnlyRead(sys.right, sys.left)
  {
    var sys := Execute(Start(conversation), actions);
    ExecuteKeeps(conversation, actions);
    StillWaiting(sys.left, sys.right);
    StillWaiting(sys.right, sys.left);
  }

  lemma StillWaiting(x: State, y: State)
    requires Queued(x) && (!x.closed ==> Base(x) <= y.nextReceive)
    ensures RetiredOnlyRead(x, y)
  {
    if !x.closed {
      forall s: nat | s < x.nextSend && y.nextReceive <= s
        ensures Waiting(x, s)
      {
        assert x.pending[s - Base(x)].sequence == s;
      }
    }
  }
}
