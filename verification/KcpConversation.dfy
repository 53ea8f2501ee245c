/** The conversation object: methods that update its fields step by step, each
    proved to compute the operation of module Kcp of the same name. */
module Conversation {
  import opened ByteStrings
  import opened KcpSegment
  import opened Kcp

  class KcpConversation {
    const conversation: nat
    var nextSendSequence: nat
    var nextReceiveSequence: nat
    var received: map<nat, Segment>
    var pending: seq<Pending>
    var fragments: seq<Bytes>
    var retransmitTask: bool
    var handler: bool
    var closed: bool
    /** What the transmit callback and the handler were called with. */
    ghost var transmitted: seq<Segment>
    ghost var completed: seq<Bytes>
    ghost var handed: seq<Bytes>

    ghost function Snapshot(): State
      reads this
    {
      State(conversation, nextSendSequence, nextReceiveSequence, received, pending, fragments,
            retransmitTask, handler, closed, transmitted, completed, handed)
    }

    /** Closing releases everything the conversation was holding. */
    ghost predicate Valid()
      reads this
    {
      closed ==> pending == []
    }

    constructor (conversation: nat)
      ensures Valid() && Snapshot() == Fresh(conversation)
    {
      this.conversation := conversation;
      nextSendSequence, nextReceiveSequence := 0, 0;
      received, pending, fragments := map[], [], [];
      retransmitTask, handler, closed := false, false, false;
      transmitted, completed, handed := [], [], [];
    }

    method SetMessageHandler(installed: bool)
      requires Valid()
      modifies this
      ensures Valid() && Snapshot() == Kcp.SetHandler(old(Snapshot()), installed)
    {
      handler := installed;
    }

    method Write(segment: Segment)
      modifies this
      ensures Snapshot() == Kcp.Transmit(old(Snapshot()), segment)
    {
      transmitted := transmitted + [segment];
    }

    method Input(segment: Segment, clock: Clock)
      requires Valid()
      modifies this
      ensures Valid() && Snapshot() == Kcp.Input(old(Snapshot()), segment, clock)
    {
      if closed {
        return;
      }
      RetirePending(segment.unacknowledged);
      if segment.command == CMD_ACK {
        RetirePending(segment.sequence + 1);
      } else if segment.command == CMD_PUSH {
        Accept(segment);
        Acknowledge(segment);
      } else if segment.command == CMD_WINDOW_ASK {
        Write(Segment(conversation, CMD_WINDOW_TELL, 0, RECEIVE_WINDOW, Now(clock, 0), 0,
                      nextReceiveSequence, []));
      }
    }

    method Acknowledge(segment: Segment)
      modifies this
      ensures Snapshot() == Kcp.Transmit(old(Snapshot()), AckOf(old(Snapshot()), segment))
    {
      Write(Segment(conversation, CMD_ACK, 0, RECEIVE_WINDOW, segment.timestamp,
                    segment.sequence, nextReceiveSequence, []));
    }

    method Accept(segment: Segment)
      requires !closed
      modifies this
      ensures !closed && Snapshot() == Kcp.Accept(old(Snapshot()), segment)
    {
      if segment.sequence < nextReceiveSequence {
        return;
      }
      if segment.sequence >= nextReceiveSequence + RECEIVE_WINDOW {
        return;
      }
      if segment.sequence in received {
        return;
      }
      received := received[segment.sequence := segment];
      ghost var queued := Snapshot();
      while nextReceiveSequence in received
        invariant !closed && Drain(Snapshot()) == Drain(queued)
        decreases received.Keys
      {
        DeliverNext();
      }
    }

    /** One turn of the delivery loop. */
    method DeliverNext()
      requires nextReceiveSequence in received
      modifies this
      ensures closed == old(closed)
      ensures Snapshot() == DrainOne(old(Snapshot()))
    {
      var next := received[nextReceiveSequence];
      received := received - {nextReceiveSequence};
      nextReceiveSequence := nextReceiveSequence + 1;
      fragments := fragments + [next.data];
      if next.fragment == 0 {
        var message := Join(fragments);
        fragments := [];
        completed := completed + [message];
        if message != [] && handler {
          handed := handed + [message];
        }
      }
    }

    method Send(message: Bytes, clock: Clock) returns (outcome: SendOutcome)
      requires Valid()
      modifies this
      ensures Valid() && Snapshot() == Kcp.Send(old(Snapshot()), message, clock)
      ensures outcome == SendOutcomeOf(old(Snapshot()), message)
    {
      if closed {
        return RefusedClosed;
      }
      var count := ChunkCount(message);
      ghost var start := Snapshot();
      for index := 0 to count
        invariant !closed && (index > 0 ==> count <= 256)
        invariant Snapshot() == PushUpTo(start, message, index, clock)
      {
        if count - 1 - index > 255 {
          return RefusedTooLong;
        }
        PushChunk(message, index, clock);
      }
      ArmRetransmit();
      return Sent;
    }

    /** One turn of the fragmenting loop, past the point where the header raises. */
    method PushChunk(message: Bytes, index: nat, clock: Clock)
      requires index < ChunkCount(message)
      modifies this
      ensures closed == old(closed)
      ensures Snapshot() == PushOne(old(Snapshot()), message, index, clock)
    {
      var raw := Segment(conversation, CMD_PUSH, ChunkCount(message) - 1 - index, RECEIVE_WINDOW,
                         Now(clock, 2 * index), nextSendSequence, nextReceiveSequence,
                         ChunkAt(message, index));
      pending := pending + [Pending(nextSendSequence, raw, Now(clock, 2 * index + 1), 1)];
      nextSendSequence := nextSendSequence + 1;
      Write(raw);
    }

    method RetirePending(unacknowledged: nat)
      requires Valid()
      modifies this
      ensures Valid() && closed == old(closed)
      ensures Snapshot() == Kcp.Retire(old(Snapshot()), unacknowledged)
    {
      while pending != [] && pending[0].sequence < unacknowledged
        invariant DropBelow(pending, unacknowledged) == DropBelow(old(pending), unacknowledged)
        invariant Snapshot() == old(Snapshot()).(pending := pending)
        invariant Valid()
        decreases |pending|
      {
        pending := pending[1..];
      }
      if pending == [] {
        DisarmRetransmit();
      }
    }

    method ArmRetransmit()
      modifies this
      ensures Snapshot() == old(Snapshot()).(armed := old(retransmitTask) || !old(closed))
    {
      if retransmitTask || closed {
        return;
      }
      retransmitTask := true;
    }

    method DisarmRetransmit()
      modifies this
      ensures Snapshot() == old(Snapshot()).(armed := false)
    {
      retransmitTask := false;
    }

    method RetransmitOnce(now: nat)
      requires Valid()
      modifies this
      ensures Valid() && Snapshot() == Kcp.Sweep(old(Snapshot()), now)
    {
      var count := |pending|;
      ghost var start := Snapshot();
      for i := 0 to count
        invariant closed == old(closed) && |pending| == count && Valid()
        invariant Snapshot() == SweepUpTo(start, i, now)
      {
        var entry := pending[i];
        if now - entry.sentAt < RETRANSMIT_INTERVAL_MS {
          continue;
        }
        if entry.transmits >= MAX_RETRANSMITS {
          CloseConversation();
          SweepStaysClosed(start, i + 1, count, now);
          return;
        }
        pending := pending[i := entry.(sentAt := now, transmits := entry.transmits + 1)];
        Write(entry.raw);
      }
    }

    method CloseConversation()
      modifies this
      ensures Snapshot() == Kcp.Close(old(Snapshot()))
    {
      if closed {
        return;
      }
      closed := true;
      DisarmRetransmit();
      received := map[];
      pending := [];
      handler := false;
    }
  }
}
