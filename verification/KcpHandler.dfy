/** Which of the messages a conversation completes reach its handler, when the
    handler may be installed and taken out at any time. */
module KcpHandler {
  import opened ByteStrings
  import opened KcpSegment
  import opened Kcp
  import opened KcpSender
  import opened KcpRetransmit
  import opened KcpReceiver

  /** From `a` to `b` the handler was called with exactly the non-empty messages
      newly completed if it was installed at `a`, and with nothing otherwise. */
  predicate Hands(a: State, b: State) {
    && a.completed <= b.completed
    && b.handed
       == a.handed + (if a.handler then NonEmpty(b.completed[|a.completed|..]) else [])
  }

  lemma SameHands(a: State, b: State)
    requires a.completed == b.completed && a.handed == b.handed
    ensures Hands(a, b)
  {
    assert b.completed[|a.completed|..] == [];
  }

  lemma Further(a: seq<Bytes>, b: seq<Bytes>, c: seq<Bytes>)
    requires a <= b <= c
    ensures a <= c && NonEmpty(c[|a|..]) == NonEmpty(b[|a|..]) + NonEmpty(c[|b|..])
  {
    assert c[|a|..] == b[|a|..] + c[|b|..];
    NonEmptyConcat(b[|a|..], c[|b|..]);
  }

  lemma HandsCompose(a: State, b: State, c: State)
    requires Hands(a, b) && Hands(b, c) && a.handler == b.handler
    ensures Hands(a, c)
  {
    Further(a.completed, b.completed, c.completed);
    hide NonEmpty;
    ConcatAssoc(a.handed, NonEmpty(b.completed[|a.completed|..]),
                NonEmpty(c.completed[|b.completed|..]));
  }

  lemma NonEmptyOne(message: Bytes)
    ensures NonEmpty([message]) == if message == [] then [] else [message]
  {
    var one := [message];
    assert one[..0] == [];
  }

  lemma DrainOneHands(st: State)
    requires st.nextReceive in st.received
    ensures Hands(st, DrainOne(st)) && DrainOne(st).handler == st.handler
  {
    var after := DrainOne(st);
    if after.completed == st.completed {
      SameHands(st, after);
    } else {
      var message := after.completed[|st.completed|];
      assert after.completed[|st.completed|..] == [message];
      NonEmptyOne(message);
    }
  }

  lemma {:induction false} DrainHands(st: State)
    ensures Hands(st, Drain(st)) && Drain(st).handler == st.handler
    decreases st.received.Keys
  {
    if st.nextReceive in st.received {
      var after := DrainOne(st);
      DrainOneHands(st);
      hide Hands;
      DrainHands(after);
      HandsCompose(st, after, Drain(st));
    } else {
      SameHands(st, st);
    }
  }

  /** One operation hands over exactly what it completes while the handler is
      installed, and nothing while it is not. */
  lemma StepHands(st: State, event: Event)
    ensures Hands(st, Step(st, event))
  {
    var after := Step(st, event);
    if event.Arrives? && !st.closed && event.segment.command == CMD_PUSH
       && Admissible(st, event.segment.sequence) {
      var queued := st.(received := st.received[event.segment.sequence := event.segment]);
      DrainHands(queued);
      InputReceives(st, event.segment, event.clock);
      hide Drain, Input, NonEmpty;
    } else {
      NothingCompleted(st, event);
      SameHands(st, after);
    }
  }

  lemma NothingCompleted(st: State, event: Event)
    requires !(event.Arrives? && !st.closed && event.segment.command == CMD_PUSH
               && Admissible(st, event.segment.sequence))
    ensures Step(st, event).completed == st.completed && Step(st, event).handed == st.handed
  {
    match event
    case Arrives(segment, clock) =>
      if !st.closed {
        InputReceives(st, segment, clock);
      }
    case Sends(message, clock) =>
      if SendOutcomeOf(st, message) == Sent {
        PushUpToKeepsReceiver(st, message, ChunkCount(message), clock);
      }
    case Sweeps(now) => SweepUpToKeepsReceiver(st, |st.pending|, now);
    case Installs(installed) =>
    case Closes =>
  }

  // --------------------------------------- what does not need a handler

  /** A conversation apart from its handler and what that was called with. */
  function Deaf(st: State): State { st.(handler := false, handed := []) }

  lemma {:induction false} DrainDeaf(st: State)
    ensures Deaf(Drain(st)) == Drain(Deaf(st))
    decreases st.received.Keys
  {
    if st.nextReceive in st.received {
      assert Deaf(DrainOne(st)) == DrainOne(Deaf(st));
      DrainDeaf(DrainOne(st));
    }
  }

  lemma InputDeaf(st: State, segment: Segment, clock: Clock)
    ensures Deaf(Input(st, segment, clock)) == Input(Deaf(st), segment, clock)
  {
    var retired := Retire(st, segment.unacknowledged);
    assert Deaf(retired) == Retire(Deaf(st), segment.unacknowledged);
    AcceptDeaf(retired, segment);
    hide Accept, DropBelow;
  }

  lemma AcceptDeaf(st: State, segment: Segment)
    ensures Deaf(Accept(st, segment)) == Accept(Deaf(st), segment)
  {
    DrainDeaf(st.(received := st.received[segment.sequence := segment]));
    hide Drain;
  }

  lemma {:induction false} PushUpToDeaf(st: State, message: Bytes, n: nat, clock: Clock)
    requires n <= ChunkCount(message)
    ensures Deaf(PushUpTo(st, message, n, clock)) == PushUpTo(Deaf(st), message, n, clock)
  {
    if n > 0 {
      PushUpToDeaf(st, message, n - 1, clock);
    }
  }

  lemma {:induction false} SweepUpToDeaf(st: State, n: nat, now: nat)
    requires n <= |st.pending|
    ensures Deaf(SweepUpTo(st, n, now)) == SweepUpTo(Deaf(st), n, now)
  {
    if n > 0 && !st.closed {
      SweepUpToDeaf(st, n - 1, now);
    }
  }

  lemma StepDeaf(st: State, event: Event)
    ensures Deaf(Step(st, event)) == Deaf(Step(Deaf(st), event))
  {
    hide Input;
    match event
    case Arrives(segment, clock) => InputDeaf(st, segment, clock);
    case Sends(message, clock) =>
      if SendOutcomeOf(st, message) == Sent {
        PushUpToDeaf(st, message, ChunkCount(message), clock);
      }
    case Sweeps(now) => SweepUpToDeaf(st, |st.pending|, now);
    case Installs(_) =>
    case Closes =>
  }

  /** In every run, whether and when a handler was there makes no difference to
      anything but what it was called with: every segment is acknowledged, and
      every message reassembled, all the same. */
  lemma {:induction false} RunDeaf(st: State, events: seq<Event>)
    ensures Deaf(Run(st, events)) == Deaf(Run(Deaf(st), events))
  {
    if events != [] {
      var n := |events| - 1;
      hide Step;
      RunDeaf(st, events[..n]);
      StepDeaf(Run(st, events[..n]), events[n]);
      StepDeaf(Run(Deaf(st), events[..n]), events[n]);
    }
  }

  /** Without a handler one operation does what it would have done with one, and
      hands over nothing: a message it completes is lost. */
  lemma StepWithoutHandler(st: State, event: Event)
    requires !st.handler
    ensures Step(st, event).handed == st.handed
    ensures Deaf(Step(st, event)) == Deaf(Step(st.(handler := true), event))
  {
    hide Step;
    StepHands(st, event);
    StepDeaf(st, event);
    StepDeaf(st.(handler := true), event);
  }

  /** With a handler that stays, everything completed so far that is not empty
      keeps being everything handed over. */
  predicate Listening(st: State) {
    (st.handler || st.closed) && st.handed == NonEmpty(st.completed)
  }

  lemma StepKeepsListening(st: State, event: Event)
    requires Listening(st) && event != Installs(false)
    ensures Listening(Step(st, event))
  {
    hide Step;
    StepHands(st, event);
    StepKeepsHandler(st, event);
    var after := Step(st, event);
    assert st.completed + after.completed[|st.completed|..] == after.completed;
    NonEmptyConcat(st.completed, after.completed[|st.completed|..]);
    assert NonEmpty([]) == [];
  }

  // ------------------------------------------------------ along a history

  /** Successive states, each handing over what it completes. */
  predicate Chain(trace: seq<State>) {
    trace != []
    && forall i {:trigger trace[i]} :: 0 <= i < |trace| - 1 ==> Hands(trace[i], trace[i + 1])
  }

  /** Between two states a non-empty message completed and no handler was there. */
  predicate LosesBetween(before: State, after: State) {
    !before.handler && NonEmpty(after.completed) != NonEmpty(before.completed)
  }

  /** Nothing is lost in the first `n` steps. */
  predicate LosesNothing(trace: seq<State>, n: nat)
    requires n < |trace|
  {
    forall i :: 0 <= i < n ==> !LosesBetween(trace[i], trace[i + 1])
  }

  lemma HandsAllIff(before: State, end: State)
    requires Hands(before, end) && |before.handed| <= |NonEmpty(before.completed)|
    ensures |end.handed| <= |NonEmpty(end.completed)|
    ensures end.handed == NonEmpty(end.completed)
            <==> before.handed == NonEmpty(before.completed) && !LosesBetween(before, end)
  {
    var more := end.completed[|before.completed|..];
    assert before.completed + more == end.completed;
    NonEmptyConcat(before.completed, more);
    hide NonEmpty;
    var was, added := NonEmpty(before.completed), NonEmpty(more);
    if before.handler {
      if before.handed + added == was + added {
        SameTail(before.handed, was, added);
      }
    } else {
      assert was + [] == was;
    }
  }

  lemma SameTail(a: seq<Bytes>, b: seq<Bytes>, tail: seq<Bytes>)
    requires a + tail == b + tail
    ensures a == b
  {
    assert |a| == |b|;
    assert a == (a + tail)[..|a|] == (b + tail)[..|b|] == b;
  }

  lemma {:induction false} HandedIffNothingLost(trace: seq<State>, n: nat)
    requires Chain(trace) && trace[0].handed == NonEmpty(trace[0].completed) && n < |trace|
    ensures |trace[n].handed| <= |NonEmpty(trace[n].completed)|
    ensures trace[n].handed == NonEmpty(trace[n].completed) <==> LosesNothing(trace, n)
  {
    if n > 0 {
      hide Hands, NonEmpty, LosesBetween;
      HandedIffNothingLost(trace, n - 1);
      HandsAllIff(trace[n - 1], trace[n]);
    }
  }

  /** From `a` to `b` the handler was called with all the non-empty messages newly
      completed. */
  predicate HandsAll(a: State, b: State) {
    && a.completed <= b.completed
    && b.handed == a.handed + NonEmpty(b.completed[|a.completed|..])
  }

  lemma NothingMore(st: State)
    ensures HandsAll(st, st)
  {
    assert st.completed[|st.completed|..] == [];
  }

  lemma HandsAllMore(a: State, b: State, c: State)
    requires HandsAll(a, b) && Hands(b, c) && (b.handler || c.completed == b.completed)
    ensures HandsAll(a, c)
  {
    Further(a.completed, b.completed, c.completed);
    if !b.handler {
      assert c.completed[|b.completed|..] == [];
    }
    hide NonEmpty;
    ConcatAssoc(a.handed, NonEmpty(b.completed[|a.completed|..]),
                NonEmpty(c.completed[|b.completed|..]));
  }

  /** With the handler there whenever something completes, from a state on, it is
      called with exactly the non-empty messages completed from there on. */
  lemma {:induction false} HandedFrom(trace: seq<State>, j: nat, n: nat)
    requires Chain(trace) && j <= n < |trace|
    requires forall i :: j <= i < n ==>
               trace[i].handler || trace[i + 1].completed == trace[i].completed
    ensures HandsAll(trace[j], trace[n])
  {
    hide Hands, HandsAll;
    if j == n {
      NothingMore(trace[j]);
    } else {
      HandedFrom(trace, j, n - 1);
      HandsAllMore(trace[j], trace[n - 1], trace[n]);
    }
  }

  // --------------------------------------------------- one conversation

  function Trace(st: State, events: seq<Event>): (trace: seq<State>)
    ensures |trace| == |events| + 1 && trace[0] == st && trace[|events|] == Run(st, events)
  {
    assert events[..|events|] == events;
    seq(|events| + 1, i requires 0 <= i <= |events| => Run(st, events[..i]))
  }

  lemma TraceStep(st: State, events: seq<Event>, i: nat)
    requires i < |events|
    ensures Trace(st, events)[i + 1] == Step(Trace(st, events)[i], events[i])
  {
    assert events[..i + 1][..i] == events[..i];
  }

  lemma RunChains(st: State, events: seq<Event>)
    ensures Chain(Trace(st, events))
  {
    hide Hands;
    var trace := Trace(st, events);
    forall i | 0 <= i < |events|
      ensures Hands(trace[i], trace[i + 1])
    {
      TraceStep(st, events, i);
      StepHands(trace[i], events[i]);
    }
  }

  /** Over any run, handlers installed and removed at will: the handler was called
      with all the non-empty messages completed if and only if no event completed
      one while it was not installed. */
  lemma RunHandsAllIff(conversation: nat, events: seq<Event>)
    ensures var trace := Trace(Fresh(conversation), events);
            var end := Run(Fresh(conversation), events);
            end.handed == NonEmpty(end.completed) <==> LosesNothing(trace, |events|)
  {
    RunChains(Fresh(conversation), events);
    HandedIffNothingLost(Trace(Fresh(conversation), events), |events|);
  }

  /** A handler stays until it is taken out or the conversation closes, and a
      closed conversation completes nothing. */
  lemma StepKeepsHandler(st: State, event: Event)
    requires (st.handler || st.closed) && event != Installs(false)
    ensures Step(st, event).handler || Step(st, event).closed
    ensures st.closed ==> Step(st, event).completed == st.completed
  {
    match event
    case Arrives(segment, clock) =>
      if !st.closed {
        InputReceives(st, segment, clock);
        if Admissible(st, segment.sequence) {
          DrainHands(st.(received := st.received[segment.sequence := segment]));
        }
      }
    case Sends(message, clock) =>
      if SendOutcomeOf(st, message) == Sent {
        PushUpToKeepsReceiver(st, message, ChunkCount(message), clock);
      }
    case Sweeps(now) => SweepUpToKeepsReceiver(st, |st.pending|, now);
    case Installs(installed) =>
    case Closes =>
  }

  predicate NeverRemoved(events: seq<Event>) {
    forall i :: 0 <= i < |events| ==> events[i] != Installs(false)
  }

  lemma {:induction false} HandlerStays(st: State, events: seq<Event>, n: nat)
    requires st.handler && NeverRemoved(events) && n <= |events|
    ensures Run(st, events[..n]).handler || Run(st, events[..n]).closed
  {
    if n > 0 {
      HandlerStays(st, events, n - 1);
      assert events[..n][..n - 1] == events[..n - 1];
      hide Step;
      StepKeepsHandler(Run(st, events[..n - 1]), events[n - 1]);
    }
  }

  /** A handler installed and kept is called with exactly the non-empty messages
      completed from then on. */
  lemma RunHandsFromInstall(st: State, events: seq<Event>)
    requires st.handler && NeverRemoved(events)
    ensures HandsAll(st, Run(st, events))
  {
    hide Hands, Step;
    var trace := Trace(st, events);
    RunChains(st, events);
    forall i | 0 <= i < |events|
      ensures trace[i].handler || trace[i + 1].completed == trace[i].completed
    {
      HandlerStays(st, events, i);
      TraceStep(st, events, i);
      StepKeepsHandler(trace[i], events[i]);
    }
    HandedFrom(trace, 0, |events|);
  }
}
