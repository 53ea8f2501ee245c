/** The two-endpoint system settles: once both links are drained and neither
    side has closed, everything sent has been acknowledged and no retransmit
    task is left running. */
module KcpQuiescence {
  import opened ByteStrings
  import opened KcpSegment
  import opened Kcp
  import opened KcpSender
  import opened KcpRetransmit
  import opened KcpReceiver
  import opened KcpSystem

  /** How far the base will have moved once the link has been read. */
  function AckReach(link: seq<Segment>, base: int): int {
    if link == [] then base
    else Max(AckReach(link[..|link| - 1], base), Acknowledged(link[|link| - 1]))
  }

  lemma {:induction false} AckReachRead(link: seq<Segment>, base: int)
    requires link != []
    ensures AckReach(link[1..], Max(base, Acknowledged(link[0]))) == AckReach(link, base)
  {
    var n := |link| - 1;
    if n > 0 {
      AckReachRead(link[..n], base);
      assert link[1..][..n - 1] == link[..n][1..];
    }
  }

  lemma {:induction false} AckReachGrows(link: seq<Segment>, more: seq<Segment>, base: int)
    ensures AckReach(link, base) <= AckReach(link + more, base)
    ensures forall k :: 0 <= k < |more| ==> Acknowledged(more[k]) <= AckReach(link + more, base)
  {
    if more == [] {
      assert link + more == link;
    } else {
      var n := |more| - 1;
      AckReachGrows(link, more[..n], base);
      assert (link + more)[..|link + more| - 1] == link + more[..n];
    }
  }

  /** What the peer has consumed is acknowledged already, or will be by what is
      in flight. */
  predicate AcksOnTheWay(x: State, link: seq<Segment>, r: nat) {
    !x.closed ==> r <= AckReach(link, Base(x))
  }

  predicate Settling(sys: System) {
    && AcksOnTheWay(sys.left, sys.toLeft, sys.right.nextReceive)
    && AcksOnTheWay(sys.right, sys.toRight, sys.left.nextReceive)
  }

  /** Sends and sweeps leave the base and the receive sequence alone. */
  lemma OtherKeepsBase(st: State, event: Event)
    requires Sound(st) && !event.Arrives?
    ensures var after := Step(st, event);
            && (after.closed || Base(after) == Base(st)) && after.nextReceive == st.nextReceive
            && (st.closed ==> after.closed)
  {
    match event
    case Sends(message, clock) =>
      if SendOutcomeOf(st, message) == Sent {
        PushUpToQueues(st, message, ChunkCount(message), clock);
        PushUpToKeepsReceiver(st, message, ChunkCount(message), clock);
      }
    case Sweeps(now) =>
      SweepUpToKeepsQueue(st, |st.pending|, now);
      SweepUpToKeepsReceiver(st, |st.pending|, now);
    case Installs(installed) =>
    case Closes =>
  }

  lemma OtherSettles(sys: System, event: Event)
    requires SystemInvariant(sys) && Settling(sys) && !event.Arrives?
    ensures Settling(Moved(sys, event))
  {
    OtherKeepsBase(sys.left, event);
    AckReachGrows(sys.toRight, Wired(New(sys.left, event)), Base(sys.right));
  }

  /** Reading an acknowledgement moves the base as far as the link promised. */
  lemma ReaderSettles(x: State, link: seq<Segment>, log: seq<Chunk>, r: nat, clock: Clock)
    requires Queued(x) && link != [] && AcksOnTheWay(x, link, r)
    requires AcksConsumed(link, r) && r <= x.nextSend
    ensures AcksOnTheWay(Input(x, link[0], clock), link[1..], r)
  {
    if x.closed {
      return;
    }
    hide Input, Acknowledged;
    InputMovesBase(x, link[0], clock);
    AckReachRead(link, Base(x));
  }

  /** An open endpoint answers a push with an acknowledgement of all it consumed. */
  lemma ReplyAnnounces(y: State, segment: Segment, clock: Clock)
    requires !y.closed && Input(y, segment, clock).nextReceive < TWO_32
    ensures New(y, Arrives(segment, clock)) == Replies(y, segment, clock)
    ensures segment.command == CMD_PUSH ==>
              && |Replies(y, segment, clock)| == 1
              && Input(y, segment, clock).nextReceive
                 <= Acknowledged(Wired(Replies(y, segment, clock))[0])
    ensures segment.command != CMD_PUSH ==>
              Input(y, segment, clock).nextReceive == y.nextReceive
  {
    InputReplies(y, segment, clock);
    InputReceives(y, segment, clock);
    RepliesCarryReceived(y, segment, clock);
    hide Input;
  }

  /** A receive sequence that advances is announced by the reply. */
  lemma ReplierSettles(y: State, x: State, back: seq<Segment>, segment: Segment, clock: Clock)
    requires Sound(y) && AcksOnTheWay(x, back, y.nextReceive)
    requires Input(y, segment, clock).nextReceive < TWO_32
    ensures AcksOnTheWay(x, back + Wired(New(y, Arrives(segment, clock))),
                         Input(y, segment, clock).nextReceive)
  {
    AckReachGrows(back, Wired(New(y, Arrives(segment, clock))), Base(x));
    if !y.closed {
      ReplyAnnounces(y, segment, clock);
      hide Input, Replies, New, Acknowledged, AckReach;
    }
  }

  lemma ActLeftSettles(sys: System, act: Act)
    requires SystemInvariant(sys) && SystemInvariant(ActLeft(sys, act)) && Settling(sys)
    requires Counting(ActLeft(sys, act))
    ensures Settling(ActLeft(sys, act))
  {
    match act
    case Submit(message, clock) => OtherSettles(sys, Sends(message, clock));
    case Deliver(clock) =>
      if sys.toLeft != [] {
        ReaderSettles(sys.left, sys.toLeft, PushLog(sys.sentByLeft), sys.right.nextReceive, clock);
        ReplierSettles(sys.left, sys.right, sys.toRight, sys.toLeft[0], clock);
      }
    case Resend(now) => OtherSettles(sys, Sweeps(now));
    case Listen(installed) => OtherSettles(sys, Installs(installed));
    case Shut => OtherSettles(sys, Closes);
  }

  lemma {:induction false} ExecuteSettles(conversation: nat, actions: seq<Action>)
    requires Counting(Execute(Start(conversation), actions))
    ensures Settling(Execute(Start(conversation), actions))
  {
    if actions != [] {
      var n := |actions| - 1;
      var before := Execute(Start(conversation), actions[..n]);
      NextKeepsCount(before, actions[n]);
      ExecuteSettles(conversation, actions[..n]);
      ExecuteKeeps(conversation, actions[..n]);
      ExecuteKeeps(conversation, actions);
      var act := actions[n].act;
      if actions[n].side == Left {
        ActLeftSettles(before, act);
      } else {
        assert ActLeft(Swap(before), act) == Swap(Execute(Start(conversation), actions));
        ActLeftSettles(Swap(before), act);
      }
    }
  }

  /** In every run, once both links are drained and both endpoints are open,
      each has received all the other sent, nothing is pending, and no
      retransmit task is armed. */
  lemma DrainedIsSettled(conversation: nat, actions: seq<Action>)
    requires Counting(Execute(Start(conversation), actions))
    ensures var sys := Execute(Start(conversation), actions);
            sys.toLeft == [] && sys.toRight == [] && !sys.left.closed && !sys.right.closed ==>
              && sys.left.pending == [] && sys.right.pending == []
              && !sys.left.armed && !sys.right.armed
              && sys.right.completed == sys.sentByLeft && sys.left.completed == sys.sentByRight
  {
    ExecuteSettles(conversation, actions);
    ExecuteKeeps(conversation, actions);
    DeliversWhatWasSent(conversation, actions);
  }
}
