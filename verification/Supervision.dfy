/** Supervising one camera: the run of busy refusals, the backoff between
    sessions and the notices given about the need for a power cycle. Seconds
    are exact reals. */
module Supervision {
  import opened Values

  /** `busyLimit` is any integer the caller chose. */
  datatype Settings = Settings(
    retryMin: real, retryMax: real, cooldown: real, busyLimit: int, refusedRetry: real)

  /** How a session ended: it delivered frames, it ended without any, the camera
      answered busy, or anything else was raised. */
  datatype Outcome = Streamed | Quiet | Busy | Failed

  /** `notices` holds what `needs_power_cycle` was at each notification of a
      change in it, and `waits` every wait before a retry. */
  datatype Supervisor = Supervisor(
    busyRefusals: nat, backoff: real, notices: seq<bool>, waits: seq<real>)

  predicate NeedsPowerCycle(cfg: Settings, busyRefusals: nat) {
    busyRefusals >= cfg.busyLimit
  }

  function NoteBusyRefusal(cfg: Settings, s: Supervisor): Supervisor {
    var counted := s.(busyRefusals := s.busyRefusals + 1);
    if counted.busyRefusals != cfg.busyLimit then counted
    else counted.(notices := s.notices + [NeedsPowerCycle(cfg, counted.busyRefusals)])
  }

  function ClearBusyRefusals(cfg: Settings, s: Supervisor): Supervisor {
    var cleared := s.(busyRefusals := 0);
    if !NeedsPowerCycle(cfg, s.busyRefusals) then cleared
    else cleared.(notices := s.notices + [NeedsPowerCycle(cfg, 0)])
  }

  function Judge(cfg: Settings, s: Supervisor, outcome: Outcome): Supervisor {
    match outcome
    case Streamed => ClearBusyRefusals(cfg, s.(backoff := cfg.retryMin))
    case Quiet => s
    case Busy => NoteBusyRefusal(cfg, s)
    case Failed => ClearBusyRefusals(cfg, s)
  }

  function Wait(cfg: Settings, s: Supervisor): real {
    if NeedsPowerCycle(cfg, s.busyRefusals) then cfg.refusedRetry else s.backoff + cfg.cooldown
  }

  /** One turn of the loop: a session, its outcome, the wait after it. */
  function Turn(cfg: Settings, s: Supervisor, outcome: Outcome): Supervisor {
    var judged := Judge(cfg, s, outcome);
    judged.(waits := s.waits + [Wait(cfg, judged)],
            backoff := MinReal(judged.backoff * 2.0, cfg.retryMax))
  }

  /** The loop from its start, which finds the refusals of earlier loops. */
  function Run(cfg: Settings, refusals: nat, outcomes: seq<Outcome>): Supervisor {
    if outcomes == [] then Supervisor(refusals, cfg.retryMin, [], [])
    else Turn(cfg, Run(cfg, refusals, outcomes[..|outcomes| - 1]), outcomes[|outcomes| - 1])
  }

  // ----------------------------------------- what a history amounts to

  /** Whether the device answered again: the run of refusals is over. */
  predicate Answered(outcome: Outcome) { outcome.Streamed? || outcome.Failed? }

  function BusyIn(outcomes: seq<Outcome>): nat {
    if outcomes == [] then 0
    else BusyIn(outcomes[..|outcomes| - 1]) + (if outcomes[|outcomes| - 1].Busy? then 1 else 0)
  }

  /** `from` is right after the last outcome with a property, or the start. */
  predicate RunStart(outcomes: seq<Outcome>, from: nat) {
    && from <= |outcomes|
    && (from > 0 ==> Answered(outcomes[from - 1]))
    && (forall i :: from <= i < |outcomes| ==> !Answered(outcomes[i]))
  }

  /** The turns since the last that streamed: that one is number zero, as is the
      first of a loop. */
  function SinceStreamed(outcomes: seq<Outcome>): (k: nat)
    requires outcomes != []
    ensures k < |outcomes|
    ensures forall i :: |outcomes| - k <= i < |outcomes| ==> !outcomes[i].Streamed?
    ensures k < |outcomes| - 1 ==> outcomes[|outcomes| - 1 - k].Streamed?
  {
    if |outcomes| == 1 || outcomes[|outcomes| - 1].Streamed? then 0
    else 1 + SinceStreamed(outcomes[..|outcomes| - 1])
  }

  function Pow2(k: nat): real { if k == 0 then 1.0 else 2.0 * Pow2(k - 1) }

  function Doubled(cfg: Settings, k: nat): real { cfg.retryMin * Pow2(k) }

  /** The retry delay after k turns without a stream: doubled each time, and
      capped from the first doubling on. */
  function Delay(cfg: Settings, k: nat): real {
    if k == 0 then cfg.retryMin else MinReal(Doubled(cfg, k), cfg.retryMax)
  }

  // -------------------------------------------------------- refusals

  lemma RunNext(cfg: Settings, refusals: nat, outcomes: seq<Outcome>, i: nat)
    requires i < |outcomes|
    ensures Run(cfg, refusals, outcomes[..i + 1])
            == Turn(cfg, Run(cfg, refusals, outcomes[..i]), outcomes[i])
  {
    assert outcomes[..i + 1][..i] == outcomes[..i];
  }

  /** The count is the busy outcomes since the device last answered, quiet
      sessions in between or not; before any answer it goes on from what earlier
      loops left. */
  lemma {:induction false} RefusalsAreBusyOutcomes(cfg: Settings, refusals: nat,
                                                   outcomes: seq<Outcome>, from: nat)
    requires RunStart(outcomes, from)
    ensures Run(cfg, refusals, outcomes).busyRefusals
            == BusyIn(outcomes[from..]) + (if from == 0 then refusals else 0)
  {
    if from == |outcomes| {
      return;
    }
    var n := |outcomes| - 1;
    assert outcomes[..n][from..] == outcomes[from..][..n - from];
    RefusalsAreBusyOutcomes(cfg, refusals, outcomes[..n], from);
  }

  /** Every history has exactly one such start. */
  lemma RunStartIsUnique(outcomes: seq<Outcome>)
    ensures exists from: nat :: RunStart(outcomes, from)
    ensures forall a: nat, b: nat :: RunStart(outcomes, a) && RunStart(outcomes, b) ==> a == b
  {
    var from := |outcomes|;
    while from > 0 && !Answered(outcomes[from - 1])
      invariant 0 <= from <= |outcomes|
      invariant forall i :: from <= i < |outcomes| ==> !Answered(outcomes[i])
    {
      from := from - 1;
    }
    assert RunStart(outcomes, from);
  }

  // --------------------------------------------------------- notices

  /** Whether a turn adds a notice, and whether it turns `needs_power_cycle`. */
  predicate Notifies(cfg: Settings, s: Supervisor, outcome: Outcome) {
    |Turn(cfg, s, outcome).notices| > |s.notices|
  }

  predicate Flips(cfg: Settings, s: Supervisor, outcome: Outcome) {
    NeedsPowerCycle(cfg, Turn(cfg, s, outcome).busyRefusals)
    != NeedsPowerCycle(cfg, s.busyRefusals)
  }

  /** Listeners are told in exactly the turns in which the need for a power cycle
      changes, and always of the new value, if and only if the limit is at least
      one. With a limit of zero or less the camera always needs it, yet every
      answer of the device notifies. */
  lemma NotifiedOnFlips(cfg: Settings)
    ensures (forall s: Supervisor, outcome: Outcome ::
               Notifies(cfg, s, outcome) == Flips(cfg, s, outcome))
            <==> cfg.busyLimit >= 1
  {
    if cfg.busyLimit < 1 {
      var s := Supervisor(0, cfg.retryMin, [], []);
      assert Notifies(cfg, s, Failed) && !Flips(cfg, s, Failed);
    }
  }

  /** Over a whole loop the notices alternate, each the opposite of what was
      needed before it, and the last one is what is needed now. */
  lemma {:induction false} NoticesAlternate(cfg: Settings, refusals: nat, outcomes: seq<Outcome>)
    requires cfg.busyLimit >= 1
    ensures var s := Run(cfg, refusals, outcomes);
            && Alternates(s.notices, !NeedsPowerCycle(cfg, refusals))
            && NeedsPowerCycle(cfg, s.busyRefusals)
               == (NeedsPowerCycle(cfg, refusals) == (|s.notices| % 2 == 0))
  {
    if outcomes != [] {
      NoticesAlternate(cfg, refusals, outcomes[..|outcomes| - 1]);
    }
  }

  // ----------------------------------------------------------- waits

  lemma {:induction false} PowersArePositive(k: nat)
    ensures Pow2(k) >= 1.0
  {
    if k > 0 {
      PowersArePositive(k - 1);
    }
  }

  lemma NextDelay(cfg: Settings, k: nat)
    requires cfg.retryMin >= 0.0 && cfg.retryMax >= 0.0
    ensures MinReal(Delay(cfg, k) * 2.0, cfg.retryMax) == Delay(cfg, k + 1)
  {
    PowersArePositive(k);
    var delay := Doubled(cfg, k);
    assert Doubled(cfg, k + 1) == delay * 2.0;
    assert delay >= 0.0;
    assert k == 0 ==> delay == cfg.retryMin;
  }

  lemma {:induction false} BackoffIsDelay(cfg: Settings, refusals: nat, outcomes: seq<Outcome>)
    requires cfg.retryMin >= 0.0 && cfg.retryMax >= 0.0
    ensures var s := Run(cfg, refusals, outcomes);
            s.backoff == if outcomes == [] then Delay(cfg, 0)
                         else Delay(cfg, SinceStreamed(outcomes) + 1)
  {
    if outcomes == [] {
      return;
    }
    BackoffIsDelay(cfg, refusals, outcomes[..|outcomes| - 1]);
    hide Delay, MinReal;
    NextDelay(cfg, SinceStreamed(outcomes));
    assert Delay(cfg, 0) == cfg.retryMin by {
      FirstDelay(cfg);
    }
  }

  lemma FirstDelay(cfg: Settings)
    ensures Delay(cfg, 0) == cfg.retryMin
  {
  }

  /** Each wait of a loop: the long one exactly when the run of refusals has
      reached its limit, otherwise the cooldown and the doubled delay. */
  lemma {:induction false} WaitsOfALoop(cfg: Settings, refusals: nat, outcomes: seq<Outcome>,
                                        i: nat)
    requires cfg.retryMin >= 0.0 && cfg.retryMax >= 0.0 && i < |outcomes|
    ensures var s := Run(cfg, refusals, outcomes);
            var soFar := outcomes[..i + 1];
            && |s.waits| == |outcomes|
            && s.waits[i]
               == if NeedsPowerCycle(cfg, Run(cfg, refusals, soFar).busyRefusals)
                  then cfg.refusedRetry
                  else cfg.cooldown + Delay(cfg, SinceStreamed(soFar))
  {
    WaitPerTurn(cfg, refusals, outcomes);
    var n := |outcomes| - 1;
    if i < n {
      WaitsOfALoop(cfg, refusals, outcomes[..n], i);
      WaitPerTurn(cfg, refusals, outcomes[..n]);
      assert outcomes[..n][..i + 1] == outcomes[..i + 1];
    } else {
      assert outcomes[..i + 1] == outcomes;
      BackoffIsDelay(cfg, refusals, outcomes[..n]);
      hide MinReal;
    }
  }

  lemma {:induction false} WaitPerTurn(cfg: Settings, refusals: nat, outcomes: seq<Outcome>)
    ensures |Run(cfg, refusals, outcomes).waits| == |outcomes|
  {
    if outcomes != [] {
      WaitPerTurn(cfg, refusals, outcomes[..|outcomes| - 1]);
    }
  }

  /** The delay is the capped doubling for every number of turns if and only if
      the first delay does not exceed the cap: it alone is never capped. */
  lemma DelayIsCapped(cfg: Settings)
    ensures (forall k: nat :: Delay(cfg, k) == MinReal(Doubled(cfg, k), cfg.retryMax))
            <==> cfg.retryMin <= cfg.retryMax
  {
    assert Doubled(cfg, 0) == cfg.retryMin;
    assert Delay(cfg, 0) == cfg.retryMin;
  }

  /** A wait that is not the long one is the cooldown and the capped doubling. */
  predicate CappedWait(cfg: Settings, refusals: nat, outcomes: seq<Outcome>, i: nat)
    requires i < |outcomes|
  {
    WaitPerTurn(cfg, refusals, outcomes);
    !NeedsPowerCycle(cfg, Run(cfg, refusals, outcomes[..i + 1]).busyRefusals) ==>
      Run(cfg, refusals, outcomes).waits[i]
      == cfg.cooldown + MinReal(Doubled(cfg, SinceStreamed(outcomes[..i + 1])), cfg.retryMax)
  }

  /** Every wait of every loop is so if and only if the first delay does not exceed
      the cap, which is not applied to it, or there is never such a wait because
      the camera always counts as stuck. */
  lemma WaitsAreCappedIff(cfg: Settings)
    requires cfg.retryMin >= 0.0 && cfg.retryMax >= 0.0
    ensures (forall refusals: nat, outcomes: seq<Outcome>, i: nat | i < |outcomes| ::
               CappedWait(cfg, refusals, outcomes, i))
            <==> cfg.retryMin <= cfg.retryMax || cfg.busyLimit <= 0
  {
    DelayIsCapped(cfg);
    if cfg.retryMin <= cfg.retryMax || cfg.busyLimit <= 0 {
      forall refusals: nat, outcomes: seq<Outcome>, i: nat | i < |outcomes|
        ensures CappedWait(cfg, refusals, outcomes, i)
      {
        WaitsOfALoop(cfg, refusals, outcomes, i);
        hide Run, Delay, MinReal, Doubled;
      }
    } else {
      var outcomes := [Quiet];
      WaitsOfALoop(cfg, 0, outcomes, 0);
      assert outcomes[..1] == outcomes && outcomes[..0] == [];
      assert !NeedsPowerCycle(cfg, Run(cfg, 0, outcomes).busyRefusals);
      assert Delay(cfg, 0) != MinReal(Doubled(cfg, 0), cfg.retryMax);
      assert !CappedWait(cfg, 0, outcomes, 0);
    }
  }

  /** What was noticed and waited before a turn makes no difference to it. */
  lemma TurnAfter(cfg: Settings, s: Supervisor, outcome: Outcome, notices: seq<bool>,
                  waits: seq<real>)
    ensures var later := s.(notices := notices + s.notices, waits := waits + s.waits);
            var turned := Turn(cfg, s, outcome);
            Turn(cfg, later, outcome)
            == turned.(notices := notices + turned.notices, waits := waits + turned.waits)
  {
  }

  lemma OrdinaryWait(cfg: Settings, refusals: nat, outcomes: seq<Outcome>, i: nat)
    requires cfg.retryMin >= 0.0 && cfg.retryMax >= 0.0 && i < |outcomes|
    requires Run(cfg, refusals, outcomes[..i + 1]).busyRefusals < cfg.busyLimit
    ensures |Run(cfg, refusals, outcomes).waits| == |outcomes|
    ensures Run(cfg, refusals, outcomes).waits[i]
            == cfg.cooldown + Delay(cfg, SinceStreamed(outcomes[..i + 1]))
  {
    WaitsOfALoop(cfg, refusals, outcomes, i);
    hide Run, Delay;
  }

  lemma TurnsSince(outcomes: seq<Outcome>, i: nat)
    requires i < |outcomes|
    ensures SinceStreamed(outcomes[..i + 1])
            == if i == 0 || outcomes[i] == Streamed then 0
               else SinceStreamed(outcomes[..i]) + 1
  {
    assert outcomes[..i + 1][..i] == outcomes[..i];
  }

  /** The waits themselves: the first is the least delay, one after a stream is again,
      and any other is twice the one before it, capped; always on top of the cooldown,
      and as long as neither is the long one. */
  lemma WaitsDouble(cfg: Settings, refusals: nat, outcomes: seq<Outcome>, i: nat)
    requires cfg.retryMin >= 0.0 && cfg.retryMax >= 0.0 && i < |outcomes|
    requires Run(cfg, refusals, outcomes[..i + 1]).busyRefusals < cfg.busyLimit
    requires i > 0 ==> Run(cfg, refusals, outcomes[..i]).busyRefusals < cfg.busyLimit
    ensures |Run(cfg, refusals, outcomes).waits| == |outcomes|
    ensures i == 0 || outcomes[i] == Streamed ==>
              Run(cfg, refusals, outcomes).waits[i] == cfg.cooldown + cfg.retryMin
    ensures i > 0 && outcomes[i] != Streamed ==>
              var twice := 2.0 * (Run(cfg, refusals, outcomes).waits[i - 1] - cfg.cooldown);
              Run(cfg, refusals, outcomes).waits[i]
              == cfg.cooldown + if twice < cfg.retryMax then twice else cfg.retryMax
  {
    hide Run, Delay, SinceStreamed;
    OrdinaryWait(cfg, refusals, outcomes, i);
    TurnsSince(outcomes, i);
    FirstDelay(cfg);
    if i > 0 {
      OrdinaryWait(cfg, refusals, outcomes, i - 1);
      DelayDoubles(cfg, SinceStreamed(outcomes[..i]));
    }
  }

  lemma DelayDoubles(cfg: Settings, k: nat)
    requires cfg.retryMin >= 0.0 && cfg.retryMax >= 0.0
    ensures var twice := 2.0 * Delay(cfg, k);
            Delay(cfg, k + 1) == if twice < cfg.retryMax then twice else cfg.retryMax
  {
    NextDelay(cfg, k);
    hide Delay;
  }

  /** One turn in full: a busy answer counts, a quiet session does not, and any other
      outcome ends the run of refusals; only a stream takes the backoff back. */
  lemma TurnExactly(cfg: Settings, s: Supervisor, outcome: Outcome)
    ensures var t := Turn(cfg, s, outcome);
            var backoff := if outcome == Streamed then cfg.retryMin else s.backoff;
            && t.busyRefusals
               == (match outcome
                   case Busy => s.busyRefusals + 1
                   case Quiet => s.busyRefusals
                   case Streamed => 0
                   case Failed => 0)
            && t.waits
               == s.waits + [if t.busyRefusals >= cfg.busyLimit then cfg.refusedRetry
                             else backoff + cfg.cooldown]
            && t.backoff
               == (if 2.0 * backoff < cfg.retryMax then 2.0 * backoff else cfg.retryMax)
            && t.notices
               == s.notices
                  + (if outcome == Busy then
                       (if s.busyRefusals + 1 == cfg.busyLimit then [true] else [])
                     else if outcome == Quiet || s.busyRefusals < cfg.busyLimit then []
                     else [0 >= cfg.busyLimit])
  {
    assert s.notices + [] == s.notices;
  }
}
