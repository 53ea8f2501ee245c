/** The two-endpoint system down to the handlers: which of the messages one side
    sends reach the other side's handler. */
module KcpDelivery {
  import opened ByteStrings
  import opened KcpSegment
  import opened Kcp
  import opened KcpReceiver
  import opened KcpHandler
  import opened KcpSystem

  function EndOf(sys: System, side: Side): State {
    if side == Left then sys.left else sys.right
  }

  function SentTo(sys: System, side: Side): seq<Bytes> {
    if side == Left then sys.sentByRight else sys.sentByLeft
  }

  function InFlightTo(sys: System, side: Side): seq<Segment> {
    if side == Left then sys.toLeft else sys.toRight
  }

  /** The states one endpoint goes through in a run of the system. */
  function SideTrace(conversation: nat, actions: seq<Action>, side: Side): (trace: seq<State>)
    ensures |trace| == |actions| + 1 && trace[0] == Fresh(conversation)
    ensures trace[|actions|] == EndOf(Execute(Start(conversation), actions), side)
  {
    assert actions[..|actions|] == actions;
    seq(|actions| + 1,
        i requires 0 <= i <= |actions| =>
          EndOf(Execute(Start(conversation), actions[..i]), side))
  }

  /** What an act of its owner is to an endpoint, if anything. */
  function EventOf(sys: System, act: Act): Option<Event> {
    match act
    case Submit(message, clock) => Some(Sends(message, clock))
    case Deliver(clock) =>
      if sys.toLeft == [] then None else Some(Arrives(sys.toLeft[0], clock))
    case Resend(now) => Some(Sweeps(now))
    case Listen(installed) => Some(Installs(installed))
    case Shut => Some(Closes)
  }

  lemma ActIsEvent(sys: System, act: Act)
    ensures var event := EventOf(sys, act);
            && ActLeft(sys, act).left
               == (if event.None? then sys.left else Step(sys.left, event.value))
            && ActLeft(sys, act).right == sys.right
  {
    hide Step;
  }

  /** One action on one endpoint: one event if it is its own, nothing otherwise. */
  lemma NextHands(sys: System, action: Action, side: Side)
    ensures Hands(EndOf(sys, side), EndOf(Next(sys, action), side))
    ensures action != Action(side, Listen(false))
            && (EndOf(sys, side).handler || EndOf(sys, side).closed) ==>
              && (EndOf(Next(sys, action), side).handler || EndOf(Next(sys, action), side).closed)
              && (EndOf(sys, side).closed ==>
                    EndOf(Next(sys, action), side).completed == EndOf(sys, side).completed)
  {
    var own := if action.side == Left then sys else Swap(sys);
    ActIsEvent(own, action.act);
    var st, event := EndOf(sys, side), EventOf(own, action.act);
    if action.side == side && event.Some? {
      StepHands(st, event.value);
      if event.value != Installs(false) && (st.handler || st.closed) {
        StepKeepsHandler(st, event.value);
      }
    } else {
      SameHands(st, st);
    }
    hide Hands, Step, ActLeft;
  }

  lemma SideTraceStep(conversation: nat, actions: seq<Action>, side: Side, i: nat)
    requires i < |actions|
    ensures var sys := Execute(Start(conversation), actions[..i]);
            var trace := SideTrace(conversation, actions, side);
            trace[i] == EndOf(sys, side) && trace[i + 1] == EndOf(Next(sys, actions[i]), side)
  {
    assert actions[..i + 1][..i] == actions[..i];
  }

  lemma SideChains(conversation: nat, actions: seq<Action>, side: Side)
    ensures Chain(SideTrace(conversation, actions, side))
  {
    var trace := SideTrace(conversation, actions, side);
    hide Hands, Next, Execute, SideTrace;
    forall i | 0 <= i < |actions|
      ensures Hands(trace[i], trace[i + 1])
    {
      SideTraceStep(conversation, actions, side, i);
      NextHands(Execute(Start(conversation), actions[..i]), actions[i], side);
    }
  }

  lemma NonEmptyPrefix(a: seq<Bytes>, b: seq<Bytes>)
    requires a <= b
    ensures NonEmpty(a) <= NonEmpty(b)
  {
    NonEmptyConcat(a, b[|a|..]);
    assert a + b[|a|..] == b;
  }

  /** In every run, on either side, handlers installed and removed at will: the
      handler was called with all the non-empty messages completed if and only if
      none of those was completed while no handler was installed. Then what it was
      called with is a prefix of the non-empty messages the other side sent. Once
      the link is drained and the endpoint open, it was called with all of those
      sent if and only if nothing was lost like that. */
  lemma {:induction false} HandsOverWhatWasSent(conversation: nat, actions: seq<Action>,
                                                side: Side)
    requires Counting(Execute(Start(conversation), actions))
    ensures var sys := Execute(Start(conversation), actions);
            var end, sent := EndOf(sys, side), SentTo(sys, side);
            var kept := LosesNothing(SideTrace(conversation, actions, side), |actions|);
            && (end.handed == NonEmpty(end.completed) <==> kept)
            && (kept ==> end.handed <= NonEmpty(sent))
            && (InFlightTo(sys, side) == [] && !end.closed ==>
                  (end.handed == NonEmpty(sent) <==> kept))
  {
    var sys := Execute(Start(conversation), actions);
    DeliversWhatWasSent(conversation, actions);
    SideChains(conversation, actions, side);
    hide Execute, SideTrace, LosesNothing, Chain, Counting, NonEmpty;
    HandedIffNothingLost(SideTrace(conversation, actions, side), |actions|);
    NonEmptyPrefix(EndOf(sys, side).completed, SentTo(sys, side));
  }

  predicate NeverRemovedFrom(actions: seq<Action>, side: Side, j: nat) {
    forall i :: j <= i < |actions| ==> actions[i] != Action(side, Listen(false))
  }

  lemma {:induction false} SideHandlerStays(conversation: nat, actions: seq<Action>, side: Side,
                                            j: nat, n: nat)
    requires j <= n <= |actions| && NeverRemovedFrom(actions, side, j)
    requires SideTrace(conversation, actions, side)[j].handler
    ensures var st := SideTrace(conversation, actions, side)[n]; st.handler || st.closed
  {
    hide Execute, SideTrace, Next, Hands;
    if j < n {
      SideHandlerStays(conversation, actions, side, j, n - 1);
      SideTraceStep(conversation, actions, side, n - 1);
      NextHands(Execute(Start(conversation), actions[..n - 1]), actions[n - 1], side);
    }
  }

  /** A handler that is there after `j` actions of a run and is never taken out
      from then on is called with exactly the non-empty messages completed from
      then on: a prefix of those sent after the ones completed before, and all of
      them once the link is drained and the endpoint open. */
  lemma HandsOverFromInstall(conversation: nat, actions: seq<Action>,
                             side: Side, j: nat)
    requires Counting(Execute(Start(conversation), actions)) && j <= |actions|
    requires SideTrace(conversation, actions, side)[j].handler
    requires NeverRemovedFrom(actions, side, j)
    ensures var sys := Execute(Start(conversation), actions);
            var end, start := EndOf(sys, side), SideTrace(conversation, actions, side)[j];
            var sent := SentTo(sys, side);
            && HandsAll(start, end) && end.completed <= sent
            && end.handed <= start.handed + NonEmpty(sent[|start.completed|..])
            && (InFlightTo(sys, side) == [] && !end.closed ==>
                  end.handed == start.handed + NonEmpty(sent[|start.completed|..]))
  {
    var sys := Execute(Start(conversation), actions);
    var trace := SideTrace(conversation, actions, side);
    DeliversWhatWasSent(conversation, actions);
    SideChains(conversation, actions, side);
    hide Execute, SideTrace, Chain, Counting, NonEmpty, Next, Hands;
    forall i | j <= i < |actions|
      ensures trace[i].handler || trace[i + 1].completed == trace[i].completed
    {
      SideHandlerStays(conversation, actions, side, j, i);
      SideTraceStep(conversation, actions, side, i);
      NextHands(Execute(Start(conversation), actions[..i]), actions[i], side);
    }
    HandedFrom(trace, j, |actions|);
    var from := |trace[j].completed|;
    NonEmptyPrefix(EndOf(sys, side).completed[from..], SentTo(sys, side)[from..]);
  }
}
