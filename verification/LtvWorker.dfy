/** The keeper's worker: prices a refreshed position against three thresholds and queues at
    most one action. */
module LtvWorker {
  import opened FixedPoint
  import opened HealthFactor
  import opened DedupQueue
  import HysteresisMath
  import PositionWatcher

  datatype Kind = Liquidate | Inject | Withdraw

  datatype ExecuteJob = ExecuteJob(kind: Kind, position: string)

  /** A refreshed obligation as the keeper reads it, and what the worker adds to it. */
  datatype RiskSnapshot = RiskSnapshot(
    deposited: nat,
    debt: nat,
    unhealthy: nat,
    allowed: nat,
    ltvWad: Option<nat>,
    maxSafeLtvWad: Option<nat>,
    injected: bool,
    withdrawThresholdWad: Option<nat>,
    withdrawEligible: bool)

  /** `fetchPositionRiskSnapshot`. */
  function FetchSnapshot(deposited: nat, debt: nat, unhealthy: nat, allowed: nat): RiskSnapshot {
    RiskSnapshot(
      deposited, debt, unhealthy, allowed,
      if deposited == 0 then None else Some(Ratio(debt, deposited)),
      if deposited == 0 then None
      else Some(Threshold(allowed, deposited, INSURING_LTV_THRESHOLD_MULTIPLIER)),
      false, None, false)
  }

  /** The action a snapshot calls for, in the worker's order of priority. */
  function Decide(deposited: nat, debt: nat, unhealthy: nat, allowed: nat, injected: bool): Option<Kind> {
    if deposited == 0 then None
    else if injected && LiquidateTrigger(deposited, debt, unhealthy) then Some(Liquidate)
    else if !injected && InjectTrigger(deposited, debt, allowed) then Some(Inject)
    else if injected && WithdrawTrigger(deposited, debt, allowed) then Some(Withdraw)
    else None
  }

  predicate LiquidateTrigger(deposited: nat, debt: nat, unhealthy: nat)
    requires deposited > 0
  {
    Ratio(debt, deposited) >= Threshold(unhealthy, deposited, LIQUIDATION_LTV_THRESHOLD_MULTIPLIER)
  }

  predicate InjectTrigger(deposited: nat, debt: nat, allowed: nat)
    requires deposited > 0
  {
    Ratio(debt, deposited) > Threshold(allowed, deposited, INSURING_LTV_THRESHOLD_MULTIPLIER)
  }

  predicate WithdrawTrigger(deposited: nat, debt: nat, allowed: nat)
    requires deposited > 0
  {
    Ratio(debt, deposited) <= Threshold(allowed, deposited, WITHDRAWING_LTV_THRESHOLD_MULTIPLIER)
  }

  function ActionItem(kind: Kind, position: string): Item<ExecuteJob> {
    var prefix := match kind
      case Liquidate => "action:liquidate:"
      case Inject => "action:inject:"
      case Withdraw => "action:withdraw:";
    Item(prefix + position, ExecuteJob(kind, position))
  }

  /** What the worker adds to a fetched snapshot before saving it. */
  function Assessed(risk: RiskSnapshot, injected: bool): RiskSnapshot {
    if risk.deposited == 0 then
      risk.(injected := injected, withdrawThresholdWad := None, withdrawEligible := false)
    else
      risk.(injected := injected,
            withdrawThresholdWad :=
              Some(Threshold(risk.allowed, risk.deposited, WITHDRAWING_LTV_THRESHOLD_MULTIPLIER)),
            withdrawEligible :=
              injected && WithdrawTrigger(risk.deposited, risk.debt, risk.allowed))
  }

  datatype Figures = Figures(deposited: nat, debt: nat, unhealthy: nat, allowed: nat) {
    function Snapshot(): RiskSnapshot {
      FetchSnapshot(deposited, debt, unhealthy, allowed)
    }

    function Action(injected: bool): Option<Kind> {
      Decide(deposited, debt, unhealthy, allowed, injected)
    }
  }

  /** What the worker reads for one position: its record in the repository, if there is one,
      and the refreshed obligation, unless reading the chain throws. */
  datatype Reading = Reading(position: string, injected: Option<bool>, figures: Option<Figures>) {
    predicate Throws() {
      injected.Some? && figures.None?
    }

    function Asked(): Option<Item<ExecuteJob>> {
      if injected.None? || figures.None? then None
      else
        match figures.value.Action(injected.value)
        case None => None
        case Some(kind) => Some(ActionItem(kind, position))
    }

    function Saved(risk: map<string, RiskSnapshot>): map<string, RiskSnapshot> {
      if injected.None? || figures.None? then risk
      else risk[position := Assessed(figures.value.Snapshot(), injected.value)]
    }
  }

  /** How many readings a job gets through: those before the first one that throws. */
  function Completed(readings: seq<Reading>): (n: nat)
    ensures n <= |readings|
    ensures forall i | 0 <= i < n :: !readings[i].Throws()
    ensures n < |readings| ==> readings[n].Throws()
  {
    if |readings| == 0 || readings[0].Throws() then 0 else 1 + Completed(readings[1..])
  }

  function Requests(readings: seq<Reading>): seq<Item<ExecuteJob>> {
    if |readings| == 0 then []
    else
      var earlier := Requests(readings[..|readings| - 1]);
      match readings[|readings| - 1].Asked()
      case None => earlier
      case Some(item) => earlier + [item]
  }

  function SavedAll(risk: map<string, RiskSnapshot>, readings: seq<Reading>):
    map<string, RiskSnapshot>
  {
    if |readings| == 0 then risk
    else readings[|readings| - 1].Saved(SavedAll(risk, readings[..|readings| - 1]))
  }

  class Worker {
    const executeQueue: Queue<ExecuteJob>
    var savedRisk: map<string, RiskSnapshot>

    constructor (queue: Queue<ExecuteJob>)
      ensures executeQueue == queue && savedRisk == map[]
    {
      executeQueue := queue;
      savedRisk := map[];
    }

    /** `recomputePosition`; `threw` when the chain could not be read. */
    method RecomputePosition(r: Reading) returns (threw: bool)
      modifies this, executeQueue
      ensures threw == r.Throws()
      ensures savedRisk == r.Saved(old(savedRisk))
      ensures executeQueue.Contents()
              == match r.Asked()
                 case None => old(executeQueue.Contents())
                 case Some(item) => Enqueue(old(executeQueue.Contents()), item).0
    {
      threw := false;
      if r.injected.None? { return; }
      if r.figures.None? { return true; }
      var isInjected := r.injected.value;
      var risk := r.figures.value.Snapshot();
      risk := risk.(injected := isInjected,
                    withdrawThresholdWad := None, withdrawEligible := false);
      if risk.ltvWad.None? || risk.maxSafeLtvWad.None? {
        savedRisk := savedRisk[r.position := risk];
        return;
      }
      var ltv, injectThreshold := risk.ltvWad.value, risk.maxSafeLtvWad.value;
      var allowedRatio := Ratio(risk.allowed, risk.deposited);
      var withdrawThreshold: nat := allowedRatio * WITHDRAWING_LTV_THRESHOLD_MULTIPLIER / WAD;
      var withdrawEligible := isInjected && ltv <= withdrawThreshold;
      var unhealthyRatio := Ratio(risk.unhealthy, risk.deposited);
      var liquidateThreshold: nat := unhealthyRatio * LIQUIDATION_LTV_THRESHOLD_MULTIPLIER / WAD;
      var liquidateEligible := isInjected && ltv >= liquidateThreshold;
      risk := risk.(withdrawThresholdWad := Some(withdrawThreshold),
                    withdrawEligible := withdrawEligible);
      savedRisk := savedRisk[r.position := risk];
      if liquidateEligible {
        var _ := executeQueue.Push(ActionItem(Liquidate, r.position));
        return;
      }
      if !isInjected && ltv > injectThreshold {
        var _ := executeQueue.Push(ActionItem(Inject, r.position));
        return;
      }
      if withdrawEligible {
        var _ := executeQueue.Push(ActionItem(Withdraw, r.position));
      }
    }

    /** `processJob`: a rescan or a price change visits every position the repository lists,
        other jobs visit one. A throw ends the job and is only logged. */
    method ProcessJob(job: PositionWatcher.ComputeJob, readings: seq<Reading>) returns (threw: bool)
      requires job.PositionChanged? ==>
                 |readings| == 1 && readings[0].position == job.position
      modifies this, executeQueue
      ensures threw == (Completed(readings) < |readings|)
      ensures savedRisk == SavedAll(old(savedRisk), readings[..Completed(readings)])
      ensures executeQueue.Contents()
              == EnqueueAll(old(executeQueue.Contents()),
                            Requests(readings[..Completed(readings)]))
    {
      ghost var risk0, queue0 := savedRisk, executeQueue.Contents();
      if job.PositionChanged? {
        VisitsExtend(risk0, queue0, readings, 0);
        threw := RecomputePosition(readings[0]);
        assert readings[..1] == readings;
        return;
      }
      for i := 0 to |readings|
        invariant i <= Completed(readings)
        invariant savedRisk == SavedAll(risk0, readings[..i])
        invariant executeQueue.Contents() == EnqueueAll(queue0, Requests(readings[..i]))
      {
        VisitsExtend(risk0, queue0, readings, i);
        threw := RecomputePosition(readings[i]);
        if threw { return; }
      }
      threw := false;
    }
  }

  /** One more reading extends what is saved and what is enqueued by its own share. */
  lemma VisitsExtend(
    risk: map<string, RiskSnapshot>, q: State<ExecuteJob>, readings: seq<Reading>, i: nat)
    requires i < |readings|
    ensures readings[..i + 1][..i] == readings[..i]
    ensures SavedAll(risk, readings[..i + 1]) == readings[i].Saved(SavedAll(risk, readings[..i]))
    ensures EnqueueAll(q, Requests(readings[..i + 1]))
            == match readings[i].Asked()
               case None => EnqueueAll(q, Requests(readings[..i]))
               case Some(item) => Enqueue(EnqueueAll(q, Requests(readings[..i])), item).0
  {
    assert readings[..i + 1][..i] == readings[..i];
    if readings[i].Asked().Some? {
      EnqueueOneMore(q, Requests(readings[..i]), readings[i].Asked().value);
    }
  }

  // ----- the thresholds' order -----

  /** A larger part gives a ratio at least as large. */
  lemma RatioMonotone(small: nat, large: nat, whole: nat)
    requires whole > 0 && small <= large
    ensures Ratio(small, whole) <= Ratio(large, whole)
  {
    DivMono(small * WAD, large * WAD, whole);
  }

  /** The withdraw threshold never exceeds the inject threshold, and lies strictly below the
      liquidation threshold once the unhealthy ratio is at least four units. */
  lemma ThresholdsOrdered(deposited: nat, unhealthy: nat, allowed: nat)
    requires deposited > 0 && allowed <= unhealthy
    ensures Threshold(allowed, deposited, WITHDRAWING_LTV_THRESHOLD_MULTIPLIER)
            <= Threshold(allowed, deposited, INSURING_LTV_THRESHOLD_MULTIPLIER)
    ensures 4 * deposited <= unhealthy * WAD ==>
              Threshold(allowed, deposited, WITHDRAWING_LTV_THRESHOLD_MULTIPLIER)
              < Threshold(unhealthy, deposited, LIQUIDATION_LTV_THRESHOLD_MULTIPLIER)
  {
    RatioMonotone(allowed, unhealthy, deposited);
    FloorGreatest(unhealthy * WAD, deposited, 4);
    MultipliersOrdered(Ratio(allowed, deposited), Ratio(unhealthy, deposited));
  }

  lemma MultipliersOrdered(low: nat, high: nat)
    requires low <= high
    ensures low * WITHDRAWING_LTV_THRESHOLD_MULTIPLIER / WAD
            <= low * INSURING_LTV_THRESHOLD_MULTIPLIER / WAD
    ensures high >= 4 ==>
              low * WITHDRAWING_LTV_THRESHOLD_MULTIPLIER / WAD
              < high * LIQUIDATION_LTV_THRESHOLD_MULTIPLIER / WAD
  {
  }

  /** Four units is the exact limit: where the two borrow limits coincide, the withdraw and
      liquidation thresholds differ exactly from there on, and are equal below. */
  lemma ThresholdsCollide(deposited: nat, unhealthy: nat)
    requires deposited > 0
    ensures Threshold(unhealthy, deposited, WITHDRAWING_LTV_THRESHOLD_MULTIPLIER)
            < Threshold(unhealthy, deposited, LIQUIDATION_LTV_THRESHOLD_MULTIPLIER)
            <==> 4 * deposited <= unhealthy * WAD
    ensures unhealthy * WAD < 4 * deposited ==>
              Threshold(unhealthy, deposited, WITHDRAWING_LTV_THRESHOLD_MULTIPLIER)
              == Threshold(unhealthy, deposited, LIQUIDATION_LTV_THRESHOLD_MULTIPLIER)
  {
    FloorGreatest(unhealthy * WAD, deposited, 4);
    var ratio := Ratio(unhealthy, deposited);
    assert ratio < 4 ==> ratio == 0 || ratio == 1 || ratio == 2 || ratio == 3;
  }

  /** At most one action fits a snapshot, whatever the order they are tried in. */
  lemma ActionsExclusive(deposited: nat, debt: nat, unhealthy: nat, allowed: nat, injected: bool)
    requires deposited > 0 && allowed <= unhealthy && 4 * deposited <= unhealthy * WAD
    ensures !(LiquidateTrigger(deposited, debt, unhealthy) && WithdrawTrigger(deposited, debt, allowed))
    ensures !(InjectTrigger(deposited, debt, allowed) && WithdrawTrigger(deposited, debt, allowed))
    ensures Decide(deposited, debt, unhealthy, allowed, injected) == Some(Withdraw)
            <==> injected && WithdrawTrigger(deposited, debt, allowed)
    ensures Decide(deposited, debt, unhealthy, allowed, injected) == Some(Liquidate)
            <==> injected && LiquidateTrigger(deposited, debt, unhealthy)
    ensures Decide(deposited, debt, unhealthy, allowed, injected) == Some(Inject)
            <==> !injected && InjectTrigger(deposited, debt, allowed)
  {
    ThresholdsOrdered(deposited, unhealthy, allowed);
  }

  // ----- what is saved -----

  /** A truncated threshold is its exact percentage to within two units of ratio. */
  ghost predicate IsThreshold(value: Option<nat>, part: nat, whole: nat, multiplier: nat) {
    && value.Some?
    && multiplier * part - 2 * whole < value.value * whole <= multiplier * part
  }

  /** The snapshot saved for a position: its own figures, the floored ratio, the two thresholds,
      and an eligibility and action that follow from them. */
  lemma SnapshotSaved(r: Reading, risk: map<string, RiskSnapshot>)
    requires r.injected.Some? && r.figures.Some?
    ensures r.position in r.Saved(risk) && r.Saved(risk) - {r.position} == risk - {r.position}
    ensures
      var (s, f) := (r.Saved(risk)[r.position], r.figures.value);
      && Figures(s.deposited, s.debt, s.unhealthy, s.allowed) == f && s.injected == r.injected.value
      && if f.deposited == 0 then
           s.ltvWad.None? && s.maxSafeLtvWad.None? && s.withdrawThresholdWad.None?
           && !s.withdrawEligible && r.Asked().None?
         else
           && s.ltvWad.Some? && s.ltvWad.value * f.deposited <= f.debt * WAD
                                < s.ltvWad.value * f.deposited + f.deposited
           && IsThreshold(s.maxSafeLtvWad, f.allowed, f.deposited,
                          INSURING_LTV_THRESHOLD_MULTIPLIER)
           && IsThreshold(s.withdrawThresholdWad, f.allowed, f.deposited,
                          WITHDRAWING_LTV_THRESHOLD_MULTIPLIER)
           && (s.withdrawEligible
               <==> s.injected && s.ltvWad.value <= s.withdrawThresholdWad.value)
           && (r.Asked() == Some(ActionItem(Inject, r.position))
               <==> !s.injected && s.ltvWad.value > s.maxSafeLtvWad.value)
           && (r.Asked() == Some(ActionItem(Liquidate, r.position))
               <==> && s.injected
                    && s.ltvWad.value >= Threshold(f.unhealthy, f.deposited,
                                                   LIQUIDATION_LTV_THRESHOLD_MULTIPLIER))
           && (s.withdrawEligible
               <==> || r.Asked() == Some(ActionItem(Withdraw, r.position))
                    || (r.Asked() == Some(ActionItem(Liquidate, r.position))
                        && s.ltvWad.value <= s.withdrawThresholdWad.value))
  {
    var f := r.figures.value;
    if f.deposited > 0 {
      DivBounds(f.debt * WAD, f.deposited);
      TruncatedThreshold(f.allowed, f.deposited, INSURING_LTV_THRESHOLD_MULTIPLIER);
      TruncatedThreshold(f.allowed, f.deposited, WITHDRAWING_LTV_THRESHOLD_MULTIPLIER);
    }
  }

  /** A position the repository does not list is skipped without reading the chain; a listed one
      that cannot be read throws. Neither saves anything or asks for anything. */
  lemma UnreadSavesNothing(r: Reading, risk: map<string, RiskSnapshot>)
    requires r.injected.None? || r.figures.None?
    ensures r.Throws() <==> r.injected.Some?
    ensures r.Asked().None? && r.Saved(risk) == risk
  {
  }

  lemma TruncatedThreshold(part: nat, whole: nat, multiplier: nat)
    requires whole > 0 && multiplier <= WAD
    ensures IsThreshold(Some(Threshold(part, whole, multiplier)), part, whole, multiplier)
  {
    HysteresisMath.ThresholdAtMost(part, whole, multiplier);
    HysteresisMath.ThresholdAtLeast(part, whole, multiplier);
  }
}
