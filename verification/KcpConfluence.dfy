/** Whether the order in which pushes arrive makes a difference, and exactly when
    it does not. */
module KcpConfluence {
  import opened KcpSegment
  import opened Kcp
  import opened KcpSender
  import opened KcpRetransmit
  import opened KcpReceiver

  /** The push sequences in a list of arrivals. */
  function Sequences(arrivals: seq<Segment>): set<nat> {
    set i | 0 <= i < |arrivals| && arrivals[i].command == CMD_PUSH :: arrivals[i].sequence
  }

  function Arrivals(arrivals: seq<Segment>, clock: Clock): seq<Event> {
    seq(|arrivals|, i requires 0 <= i < |arrivals| => Arrives(arrivals[i], clock))
  }

  lemma ArrivalsPrefix(arrivals: seq<Segment>, clock: Clock)
    requires arrivals != []
    ensures var n := |arrivals| - 1;
            Arrivals(arrivals, clock)[..n] == Arrivals(arrivals[..n], clock)
            && Sequences(arrivals) == Sequences(arrivals[..n])
               + (if arrivals[n].command == CMD_PUSH then {arrivals[n].sequence} else {})
  {
  }

  /** Nothing has happened to it yet, but a handler may be installed. */
  predicate Unused(st: State) {
    st == Fresh(st.conversation).(handler := st.handler)
  }

  /** The least number from `from` on that a set lacks. */
  function Gap(s: set<nat>, from: nat): (p: nat)
    ensures from <= p && p !in s
    ensures forall k: nat :: from <= k < p ==> k in s
    decreases |s|
  {
    if from in s then
      var p := Gap(s - {from}, from + 1);
      assert s == s - {from} + {from};
      p
    else from
  }

  /** Every sequence fits the window whatever has arrived, or can never fit it. */
  predicate OrderFree(s: set<nat>) {
    forall k :: k in s ==> k < RECEIVE_WINDOW || k >= Gap(s, 0) + RECEIVE_WINDOW
  }

  function Below(n: nat): (s: set<nat>)
    ensures forall k: nat :: k in s <==> k < n
  {
    if n == 0 then {} else Below(n - 1) + {n - 1}
  }

  function Within(s: set<nat>): set<nat> { set k | k in s && k < RECEIVE_WINDOW }

  /** Two conversations received the same things: the same messages, the same
      partial message, the same receive sequence and the same chunks held back. */
  predicate SameReceipt(a: State, b: State) {
    && a.nextReceive == b.nextReceive
    && a.completed == b.completed && a.fragments == b.fragments
    && a.received.Keys == b.received.Keys
    && (forall k :: k in a.received ==> ChunkOf(a.received[k]) == ChunkOf(b.received[k]))
  }

  /** Two states with the same accepted sequences received the same things. */
  lemma AcceptedDetermines(a: State, b: State, log: seq<Chunk>, accepted: set<nat>)
    requires Received(a, log, accepted) && Received(b, log, accepted)
    ensures SameReceipt(a, b)
  {
    assert a.nextReceive !in accepted && b.nextReceive !in accepted;
  }

  /** Arrivals leave a conversation open, and what they made it accept explains
      its receive state. */
  lemma {:induction false} ArrivalsReceive(st: State, arrivals: seq<Segment>, clock: Clock,
                                           log: seq<Chunk>)
    requires Unused(st)
    requires forall i :: 0 <= i < |arrivals| ==> FromLog(arrivals[i], log)
    ensures var events := Arrivals(arrivals, clock);
            && !Run(st, events).closed
            && Received(Run(st, events), log, Accepted(st, events))
            && Accepted(st, events) <= Sequences(arrivals)
  {
    var events := Arrivals(arrivals, clock);
    if arrivals == [] {
      assert log[..0] == [];
      return;
    }
    var n := |arrivals| - 1;
    ArrivalsPrefix(arrivals, clock);
    ArrivalsReceive(st, arrivals[..n], clock, log);
    var before := Run(st, events[..n]);
    AcceptKeepsSender(before, arrivals[n]);
    InputIsRetirements(before, arrivals[n], clock);
    hide Received, Input, Retirements;
    StepReceives(before, events[n], log, Accepted(st, events[..n]));
  }

  /** If no order makes a difference to a set, pushes out of it are accepted when
      they are below 512, and only then. */
  lemma {:induction false} AcceptedIsWithin(st: State, arrivals: seq<Segment>, clock: Clock,
                                            log: seq<Chunk>, all: set<nat>)
    requires Unused(st)
    requires forall i :: 0 <= i < |arrivals| ==> FromLog(arrivals[i], log)
    requires Sequences(arrivals) <= all && OrderFree(all)
    ensures Accepted(st, Arrivals(arrivals, clock)) == Within(Sequences(arrivals))
  {
    if arrivals == [] {
      return;
    }
    var n := |arrivals| - 1;
    var events := Arrivals(arrivals, clock);
    ArrivalsPrefix(arrivals, clock);
    ArrivalsReceive(st, arrivals[..n], clock, log);
    hide Sequences, Arrivals;
    AcceptedIsWithin(st, arrivals[..n], clock, log, all);
    var before := Run(st, events[..n]);
    var accepted := Accepted(st, events[..n]);
    hide Run;
    assert before.nextReceive <= Gap(all, 0);
    var q := arrivals[n].sequence;
    if arrivals[n].command == CMD_PUSH && q < before.nextReceive {
      assert q in accepted;
    }
  }

  /** Any two arrival orders, with duplicates, of the same pushes make no
      difference if each of these fits the window whatever has arrived, or can
      never fit it; below 512 all do. */
  lemma Confluence(st: State, xs: seq<Segment>, ys: seq<Segment>, clock: Clock, log: seq<Chunk>)
    requires Unused(st)
    requires forall i :: 0 <= i < |xs| ==> FromLog(xs[i], log)
    requires forall i :: 0 <= i < |ys| ==> FromLog(ys[i], log)
    requires Sequences(xs) == Sequences(ys) && OrderFree(Sequences(xs))
    ensures SameReceipt(Run(st, Arrivals(xs, clock)), Run(st, Arrivals(ys, clock)))
  {
    hide Unused, Run, Arrivals, Sequences, Received, Accepted, FromLog, SameReceipt;
    ArrivalsReceive(st, xs, clock, log);
    ArrivalsReceive(st, ys, clock, log);
    AcceptedIsWithin(st, xs, clock, log, Sequences(xs));
    AcceptedIsWithin(st, ys, clock, log, Sequences(xs));
    AcceptedDetermines(Run(st, Arrivals(xs, clock)), Run(st, Arrivals(ys, clock)), log,
                       Within(Sequences(xs)));
  }

  // ------------------------------------------------- where it does matter

  /** The push that carries an entry of the log. */
  function PushOfLog(log: seq<Chunk>, k: nat): Segment
    requires k < |log|
  {
    Segment(0, CMD_PUSH, log[k].fragment, RECEIVE_WINDOW, 0, k, 0, log[k].data)
  }

  /** Pushes of a log with exactly these sequences. */
  ghost predicate Brings(arrivals: seq<Segment>, s: set<nat>, log: seq<Chunk>) {
    && Sequences(arrivals) == s
    && forall i :: 0 <= i < |arrivals| ==> FromLog(arrivals[i], log)
  }

  lemma BroughtReceive(st: State, arrivals: seq<Segment>, s: set<nat>, log: seq<Chunk>,
                       clock: Clock)
    requires Unused(st) && Brings(arrivals, s, log)
    ensures !Run(st, Arrivals(arrivals, clock)).closed
    ensures Received(Run(st, Arrivals(arrivals, clock)), log,
                     Accepted(st, Arrivals(arrivals, clock)))
  {
    hide Unused, Run, Arrivals, Accepted, Received;
    ArrivalsReceive(st, arrivals, clock, log);
  }

  lemma SequencesConcat(a: seq<Segment>, b: seq<Segment>)
    ensures Sequences(a + b) == Sequences(a) + Sequences(b)
  {
    forall q | q in Sequences(a) + Sequences(b)
      ensures q in Sequences(a + b)
    {
      if q in Sequences(a) {
        var i :| 0 <= i < |a| && a[i].command == CMD_PUSH && a[i].sequence == q;
        assert (a + b)[i] == a[i];
      } else {
        var i :| 0 <= i < |b| && b[i].command == CMD_PUSH && b[i].sequence == q;
        assert (a + b)[|a| + i] == b[i];
      }
    }
  }

  lemma BringsConcat(a: seq<Segment>, b: seq<Segment>, s: set<nat>, t: set<nat>, log: seq<Chunk>)
    requires Brings(a, s, log) && Brings(b, t, log)
    ensures Brings(a + b, s + t, log)
  {
    SequencesConcat(a, b);
    hide Sequences;
  }

  lemma BringsOne(log: seq<Chunk>, k: nat)
    requires k < |log|
    ensures Brings([PushOfLog(log, k)], {k}, log)
  {
    var one := [PushOfLog(log, k)];
    assert one[0].sequence in Sequences(one);
  }

  lemma {:induction false} SomeOrder(s: set<nat>, log: seq<Chunk>) returns (arrivals: seq<Segment>)
    requires forall k :: k in s ==> k < |log|
    ensures Brings(arrivals, s, log)
  {
    arrivals := [];
    if s != {} {
      var k :| k in s;
      var rest := SomeOrder(s - {k}, log);
      BringsOne(log, k);
      BringsConcat([PushOfLog(log, k)], rest, {k}, s - {k}, log);
      assert {k} + (s - {k}) == s;
      arrivals := [PushOfLog(log, k)] + rest;
    }
  }

  lemma AcceptedOneMore(st: State, arrivals: seq<Segment>, last: Segment, clock: Clock)
    ensures Accepted(st, Arrivals(arrivals + [last], clock))
            == Accepted(st, Arrivals(arrivals, clock))
               + AcceptedFrom(Run(st, Arrivals(arrivals, clock)), last)
  {
    assert (arrivals + [last])[..|arrivals|] == arrivals;
    ArrivalsPrefix(arrivals + [last], clock);
  }

  lemma {:induction false} AcceptedGrows(st: State, arrivals: seq<Segment>, more: seq<Segment>,
                                         clock: Clock)
    ensures Accepted(st, Arrivals(arrivals, clock))
            <= Accepted(st, Arrivals(arrivals + more, clock))
  {
    if more == [] {
      assert arrivals + more == arrivals;
    } else {
      var n := |more| - 1;
      AcceptedGrows(st, arrivals, more[..n], clock);
      assert arrivals + more == (arrivals + more[..n]) + [more[n]];
      AcceptedOneMore(st, arrivals + more[..n], more[n], clock);
    }
  }

  /** A push beyond the window that comes first is dropped for good, unless it
      comes again. */
  lemma {:induction false} TooSoon(st: State, edge: Segment, more: seq<Segment>, clock: Clock)
    requires Unused(st)
    requires edge.sequence >= RECEIVE_WINDOW && edge.sequence !in Sequences(more)
    ensures edge.sequence !in Accepted(st, Arrivals([edge] + more, clock))
  {
    if more == [] {
      assert [edge] + more == [] + [edge];
      AcceptedOneMore(st, [], edge, clock);
    } else {
      var n := |more| - 1;
      ArrivalsPrefix(more, clock);
      TooSoon(st, edge, more[..n], clock);
      assert [edge] + more == ([edge] + more[..n]) + [more[n]];
      AcceptedOneMore(st, [edge] + more[..n], more[n], clock);
    }
  }

  lemma ReceivesBelow(st: State, log: seq<Chunk>, n: nat)
    requires Received(st, log, Below(n))
    ensures st.nextReceive == n
  {
    assert n !in Below(n) && st.nextReceive !in Below(n);
  }

  function Ascending(log: seq<Chunk>, n: nat): seq<Segment>
    requires n <= |log|
  {
    if n == 0 then [] else Ascending(log, n - 1) + [PushOfLog(log, n - 1)]
  }

  lemma {:induction false} BringsAscending(log: seq<Chunk>, n: nat)
    requires n <= |log|
    ensures Brings(Ascending(log, n), Below(n), log)
  {
    if n > 0 {
      BringsAscending(log, n - 1);
      BringsOne(log, n - 1);
      hide Brings, PushOfLog;
      BringsConcat(Ascending(log, n - 1), [PushOfLog(log, n - 1)], Below(n - 1), {n - 1}, log);
    }
  }

  /** In ascending order the log is accepted as far as it is brought. */
  lemma {:induction false} AcceptedAscending(st: State, log: seq<Chunk>, n: nat, clock: Clock)
    requires Unused(st) && n <= |log|
    ensures Accepted(st, Arrivals(Ascending(log, n), clock)) == Below(n)
    ensures !Run(st, Arrivals(Ascending(log, n), clock)).closed
    ensures Run(st, Arrivals(Ascending(log, n), clock)).nextReceive == n
  {
    BringsAscending(log, n);
    hide Unused, Run, Arrivals, Accepted, Received, Below, PushOfLog, Brings;
    BroughtReceive(st, Ascending(log, n), Below(n), log, clock);
    if n > 0 {
      AcceptedAscending(st, log, n - 1, clock);
      NextAccepted(st, Ascending(log, n - 1), log, n - 1, clock);
    } else {
      NothingAccepted(st, clock);
    }
    ReceivesBelow(Run(st, Arrivals(Ascending(log, n), clock)), log, n);
  }

  lemma NextAccepted(st: State, arrivals: seq<Segment>, log: seq<Chunk>, n: nat, clock: Clock)
    requires n < |log| && Accepted(st, Arrivals(arrivals, clock)) == Below(n)
    requires !Run(st, Arrivals(arrivals, clock)).closed
    requires Run(st, Arrivals(arrivals, clock)).nextReceive == n
    ensures Accepted(st, Arrivals(arrivals + [PushOfLog(log, n)], clock)) == Below(n + 1)
  {
    hide Run, Arrivals, Accepted;
    AcceptedOneMore(st, arrivals, PushOfLog(log, n), clock);
  }

  lemma NothingAccepted(st: State, clock: Clock)
    ensures Accepted(st, Arrivals([], clock)) == Below(0)
  {
  }

  /** A push beyond 512 and below the gap plus 512 is dropped or accepted as the
      order has it. */
  lemma OrderMatters(st: State, s: set<nat>, log: seq<Chunk>, clock: Clock,
                     edge: nat)
    returns (xs: seq<Segment>, ys: seq<Segment>)
    requires Unused(st)
    requires forall k :: k in s ==> k < |log|
    requires edge in s && RECEIVE_WINDOW <= edge < Gap(s, 0) + RECEIVE_WINDOW
    ensures Brings(xs, s, log) && Brings(ys, s, log)
    ensures edge !in Accepted(st, Arrivals(xs, clock))
    ensures edge in Accepted(st, Arrivals(ys, clock))
  {
    hide Unused, Brings, FromLog, Accepted, Run, Arrivals;
    var last := PushOfLog(log, edge);
    BringsOne(log, edge);
    var others := SomeOrder(s - {edge}, log);
    xs := [last] + others;
    BringsConcat([last], others, {edge}, s - {edge}, log);
    assert {edge} + (s - {edge}) == s;
    TooSoon(st, last, others, clock);
    var p := Gap(s, 0);
    assert p == 0 || p - 1 in s;
    var first := Ascending(log, p);
    BringsAscending(log, p);
    AcceptedAscending(st, log, p, clock);
    var all := SomeOrder(s, log);
    BringsConcat(first, [last], Below(p), {edge}, log);
    BringsConcat(first + [last], all, Below(p) + {edge}, s, log);
    assert Below(p) + {edge} + s == s;
    ys := first + [last] + all;
    AcceptedOneMore(st, first, last, clock);
    AcceptedGrows(st, first + [last], all, clock);
  }

  /** What was accepted can be told from the receive state. */
  lemma AcceptedShows(a: State, b: State, log: seq<Chunk>, x: set<nat>, y: set<nat>)
    requires Received(a, log, x) && Received(b, log, y) && SameReceipt(a, b)
    ensures x == y
  {
    forall k: nat
      ensures k in x <==> k in y
    {
      assert k in x <==> k < a.nextReceive || k in a.received.Keys;
      assert k in y <==> k < b.nextReceive || k in b.received.Keys;
    }
  }

  /** The order in which a set of pushes of a log arrives makes no difference if
      and only if each of them fits the window whatever has arrived, or can never
      fit it: is below 512, or at least 512 above the least number not among
      them. */
  lemma ConfluentIff(st: State, s: set<nat>, log: seq<Chunk>, clock: Clock)
    requires Unused(st)
    requires forall k :: k in s ==> k < |log|
    ensures OrderFree(s)
            <==> forall xs, ys :: Brings(xs, s, log) && Brings(ys, s, log) ==>
                   SameReceipt(Run(st, Arrivals(xs, clock)), Run(st, Arrivals(ys, clock)))
  {
    hide Unused, Run, Arrivals, Sequences, Received, Accepted, FromLog, SameReceipt;
    if OrderFree(s) {
      forall xs, ys | Brings(xs, s, log) && Brings(ys, s, log)
        ensures SameReceipt(Run(st, Arrivals(xs, clock)), Run(st, Arrivals(ys, clock)))
      {
        Confluence(st, xs, ys, clock, log);
      }
    } else {
      var edge :| edge in s && RECEIVE_WINDOW <= edge < Gap(s, 0) + RECEIVE_WINDOW;
      var xs, ys := OrderMatters(st, s, log, clock, edge);
      ArrivalsReceive(st, xs, clock, log);
      ArrivalsReceive(st, ys, clock, log);
      var a, b := Run(st, Arrivals(xs, clock)), Run(st, Arrivals(ys, clock));
      if SameReceipt(a, b) {
        AcceptedShows(a, b, log, Accepted(st, Arrivals(xs, clock)),
                      Accepted(st, Arrivals(ys, clock)));
      }
    }
  }

  /** The smallest instance: sequence 512 alone makes no difference, nor does it
      beside 1, but beside 0 it does. */
  lemma WindowEdges()
    ensures OrderFree({RECEIVE_WINDOW}) && OrderFree({1, RECEIVE_WINDOW})
    ensures !OrderFree({0, RECEIVE_WINDOW})
  {
    assert Gap({RECEIVE_WINDOW}, 0) == 0;
    assert Gap({1, RECEIVE_WINDOW}, 0) == 0;
    assert RECEIVE_WINDOW in {0, RECEIVE_WINDOW};
    assert Gap({0, RECEIVE_WINDOW}, 0) == 1;
  }

  /** What the order decides there: 512 is dropped if it comes first and held back
      if sequence 0 came before it. */
  lemma WindowEdgeIsNotConfluent(first: Segment, edge: Segment, clock: Clock)
    requires first.command == edge.command == CMD_PUSH
    requires first.sequence == 0 && edge.sequence == RECEIVE_WINDOW
    ensures edge.sequence !in Run(Fresh(0), Arrivals([edge, first], clock)).received
    ensures edge.sequence in Run(Fresh(0), Arrivals([first, edge], clock)).received
  {
    var xs, ys := Arrivals([edge, first], clock), Arrivals([first, edge], clock);
    OneThenAnother(Fresh(0), xs);
    OneThenAnother(Fresh(0), ys);
    var queued := Fresh(0).(received := map[0 := first]);
    assert Accept(Fresh(0), first) == Drain(queued) == Drain(DrainOne(queued))
           == DrainOne(queued);
    assert Accept(Fresh(0), edge) == Fresh(0);
    InputReceives(Fresh(0), edge, clock);
    InputReceives(Fresh(0), first, clock);
    var a, b := Step(Fresh(0), xs[0]), Step(Fresh(0), ys[0]);
    InputIsRetirements(Fresh(0), edge, clock);
    InputIsRetirements(Fresh(0), first, clock);
    InputReceives(a, first, clock);
    AcceptCongruence(a, Fresh(0), first);
    InputReceives(b, edge, clock);
    var held := b.(received := b.received[RECEIVE_WINDOW := edge]);
    assert Accept(b, edge) == Drain(held) == held;
  }

  lemma OneThenAnother(st: State, events: seq<Event>)
    requires |events| == 2
    ensures Run(st, events) == Step(Step(st, events[0]), events[1])
  {
    assert events[..1][..0] == [];
    assert Run(st, events[..1]) == Step(st, events[0]);
  }
}
