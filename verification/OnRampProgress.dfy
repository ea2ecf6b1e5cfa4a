/** Every deposit of the on-ramp protocol settles, within a bounded number of attempts and steps. */
module OnRampProgress {
  import opened Sequences
  import opened OnRamp

  // ----- live messages -----

  /**
   * A copy that can still claim deposit `i`, now or once it has been requeued, while carrying fewer than
   * `limit` retries. The broker keeps a message up to and including MAX_RETRIES retries; MAX_RETRIES itself
   * is reached only by failing before the claim of the final attempt.
   */
  ghost predicate Live(d: Delivery, i: nat, limit: nat) {
    && d.id == i
    && (((d.phase.Queued? || d.phase.Delivered?) && d.retries < limit)
        || (d.phase.Throwing? && d.retries + 1 < limit))
  }

  ghost predicate HasLive(s: State, i: nat, limit: nat) {
    exists k :: 0 <= k < |s.deliveries| && Live(s.deliveries[k], i, limit)
  }

  /** The limits of interest: every attempt up to the final one, and every retry the broker keeps. */
  predicate Limit(limit: nat) { limit == MAX_RETRIES || limit == MAX_RETRIES + 1 }

  /** The deposit is pending, but no message can claim it any more. */
  ghost predicate Lost(s: State, i: nat, limit: nat) {
    i < |s.rows| && s.rows[i].status == PendingConvert && !HasLive(s, i, limit)
  }

  /** A deposit waiting to be claimed has a live message. */
  ghost predicate PendingHasLive(s: State, limit: nat) {
    forall i :: 0 <= i < |s.rows| ==> !Lost(s, i, limit)
  }

  /** The claim update of the only live copy fails, on its last retry within the limit. */
  ghost predicate Loses(s: State, e: Event, i: nat, limit: nat)
    requires Enabled(s, e)
  {
    && e.ClaimFault? && i < |s.rows| && s.rows[i].status == PendingConvert
    && Live(s.deliveries[e.k], i, limit) && s.deliveries[e.k].retries + 1 == limit
    && forall k :: 0 <= k < |s.deliveries| && k != e.k ==> !Live(s.deliveries[k], i, limit)
  }

  /** The broker hands out once more a copy within the limit: a duplicate, or after a crash. */
  predicate Revives(s: State, e: Event, i: nat, limit: nat)
    requires Enabled(s, e)
  {
    (e.Duplicate? || e.Crash?) && s.deliveries[e.k].id == i && s.deliveries[e.k].retries < limit
  }

  lemma LiveWitness(s: State, k: nat, i: nat, limit: nat)
    requires k < |s.deliveries| && Live(s.deliveries[k], i, limit)
    ensures HasLive(s, i, limit)
  {
  }

  /** A live copy stays live, or passes on to its requeued copy, unless its claim update fails at the limit. */
  lemma LiveSurvives(s: State, e: Event, w: nat, i: nat, limit: nat)
    requires Safe(s) && Enabled(s, e) && Limit(limit) && !e.Creates()
    requires w < |s.deliveries| && Live(s.deliveries[w], i, limit)
    requires i < |s.rows| && s.rows[i].status == Step(s, e).rows[i].status == PendingConvert
    requires e.ClaimFault? && w == e.k ==> s.deliveries[w].retries + 1 < limit
    ensures HasLive(Step(s, e), i, limit)
  {
    assert DeliveryOk(s, s.deliveries[w]);
    if e.Requeue? && w == e.k {
      LiveWitness(Step(s, e), |s.deliveries|, i, limit);
    } else {
      LiveWitness(Step(s, e), w, i, limit);
    }
  }

  /** A copy that is live after a step was live before, unless the broker has handed it out once more. */
  lemma LiveComesFrom(s: State, e: Event, w: nat, i: nat, limit: nat)
    requires Safe(s) && Enabled(s, e) && Limit(limit) && !e.Creates()
    requires i < |s.rows| && s.rows[i].status == Step(s, e).rows[i].status == PendingConvert
    requires w < |Step(s, e).deliveries| && Live(Step(s, e).deliveries[w], i, limit)
    ensures Revives(s, e, i, limit) || HasLive(s, i, limit)
    ensures !Loses(s, e, i, limit)
  {
    assert DeliveryOk(s, s.deliveries[e.k]);
    if w < |s.deliveries| && w != e.k {
      LiveWitness(s, w, i, limit);
    } else if !e.Duplicate? && !e.Crash? {
      LiveWitness(s, e.k, i, limit);
    }
  }

  lemma RevivedIsLive(s: State, e: Event, i: nat, limit: nat)
    requires Safe(s) && Enabled(s, e) && Revives(s, e, i, limit)
    ensures HasLive(Step(s, e), i, limit)
  {
    LiveWitness(Step(s, e), if e.Crash? then e.k else |s.deliveries|, i, limit);
  }

  lemma CreationKeepsLost(s: State, e: Event, i: nat, limit: nat)
    requires Safe(s) && Enabled(s, e) && Limit(limit) && e.Creates()
    ensures Lost(Step(s, e), i, limit) <==> Lost(s, i, limit)
  {
    var s' := Step(s, e);
    if HasLive(s, i, limit) {
      var w :| 0 <= w < |s.deliveries| && Live(s.deliveries[w], i, limit);
      LiveWitness(s', w, i, limit);
    }
    if i == |s.rows| {
      LiveWitness(s', |s.deliveries|, i, limit);
    }
  }

  lemma ReleasedIsLive(s: State, e: Event, i: nat, limit: nat)
    requires Safe(s) && Enabled(s, e) && Limit(limit) && !e.Creates() && i < |s.rows|
    requires s.rows[i].status != PendingConvert && Step(s, e).rows[i].status == PendingConvert
    ensures HasLive(Step(s, e), i, limit)
  {
    assert DeliveryOk(s, s.deliveries[e.k]);
    LiveWitness(Step(s, e), e.k, i, limit);
  }

  /**
   * Exactly which steps cost a pending deposit its last live message, and which give one back. Every other
   * step, whatever faults or crashes, leaves the matter as it is.
   */
  lemma LostStepIff(s: State, e: Event, i: nat, limit: nat)
    requires Safe(s) && Enabled(s, e) && Limit(limit)
    ensures i < |s.rows| ==> i < |Step(s, e).rows|
    ensures Lost(Step(s, e), i, limit) <==>
      Loses(s, e, i, limit)
      || (Lost(s, i, limit) && Step(s, e).rows[i].status == PendingConvert && !Revives(s, e, i, limit))
  {
    var s' := Step(s, e);
    if e.Creates() {
      CreationKeepsLost(s, e, i, limit);
    } else if i < |s.rows| && s'.rows[i].status == PendingConvert {
      if s.rows[i].status != PendingConvert {
        ReleasedIsLive(s, e, i, limit);
      } else if Revives(s, e, i, limit) {
        RevivedIsLive(s, e, i, limit);
      } else if HasLive(s, i, limit) && !Loses(s, e, i, limit) {
        var w :| 0 <= w < |s.deliveries| && Live(s.deliveries[w], i, limit)
          && (e.ClaimFault? && w == e.k ==> s.deliveries[w].retries + 1 < limit);
        LiveSurvives(s, e, w, i, limit);
      } else {
        forall w | 0 <= w < |s'.deliveries| ensures !Live(s'.deliveries[w], i, limit) {
          if Live(s'.deliveries[w], i, limit) {
            LiveComesFrom(s, e, w, i, limit);
          }
        }
      }
    } else if i < |s.rows| {
      assert DeliveryOk(s, s.deliveries[e.k]);
    }
  }

  /** Whether a run ends with the deposit lost: the latest loss has not been followed by a claim or a revival. */
  ghost predicate EndsLost(s: State, run: seq<Event>, i: nat, limit: nat, lost: bool)
    requires Valid(s, run)
    decreases |run|
  {
    if run == [] then lost
    else
      var e, s' := run[0], Step(s, run[0]);
      EndsLost(s', run[1..], i, limit,
        Loses(s, e, i, limit)
        || (lost && i < |s'.rows| && s'.rows[i].status == PendingConvert && !Revives(s, e, i, limit)))
  }

  /** Over whole runs, faults, crashes and duplicates included: the deposit is lost exactly when the run ends so. */
  lemma {:induction false} LostIff(s: State, run: seq<Event>, i: nat, limit: nat)
    requires Safe(s) && Valid(s, run) && Limit(limit)
    ensures Lost(Run(s, run), i, limit) <==> EndsLost(s, run, i, limit, Lost(s, i, limit))
    decreases |run|
  {
    if run != [] {
      LostStepIff(s, run[0], i, limit);
      StepIsSafe(s, run[0]);
      LostIff(Step(s, run[0]), run[1..], i, limit);
    }
  }

  /** In no state of the run is the deposit lost. */
  ghost predicate NeverLost(s: State, run: seq<Event>, i: nat, limit: nat)
    requires Valid(s, run)
    decreases |run|
  {
    !Lost(s, i, limit) && (run == [] || NeverLost(Step(s, run[0]), run[1..], i, limit))
  }

  /** Some step of the run is a failing claim of the only live copy, on its last retry. */
  ghost predicate LosesSometime(s: State, run: seq<Event>, i: nat, limit: nat)
    requires Valid(s, run)
    decreases |run|
  {
    run != [] && (Loses(s, run[0], i, limit) || LosesSometime(Step(s, run[0]), run[1..], i, limit))
  }

  /**
   * In every run from the empty system, a pending deposit has a live message at all times if and only if the
   * claim update of its only live copy never fails on the last retry.
   */
  lemma PendingHasLiveIff(run: seq<Event>, i: nat, limit: nat)
    requires Valid(EMPTY, run) && Limit(limit)
    ensures NeverLost(EMPTY, run, i, limit) <==> !LosesSometime(EMPTY, run, i, limit)
  {
    NeverLostIff(EMPTY, run, i, limit);
  }

  lemma {:induction false} NeverLostIff(s: State, run: seq<Event>, i: nat, limit: nat)
    requires Safe(s) && Valid(s, run) && Limit(limit) && !Lost(s, i, limit)
    ensures NeverLost(s, run, i, limit) <==> !LosesSometime(s, run, i, limit)
    decreases |run|
  {
    if run != [] {
      LostStepIff(s, run[0], i, limit);
      StepIsSafe(s, run[0]);
      if !Loses(s, run[0], i, limit) {
        NeverLostIff(Step(s, run[0]), run[1..], i, limit);
      } else {
        LostNow(Step(s, run[0]), run[1..], i, limit);
      }
    }
  }

  lemma LostNow(s: State, run: seq<Event>, i: nat, limit: nat)
    requires Valid(s, run) && Lost(s, i, limit)
    ensures !NeverLost(s, run, i, limit)
  {
  }

  /** No claim update fails on the last retry within the limit. */
  ghost predicate NoFinalClaimFault(s: State, run: seq<Event>, limit: nat)
    requires Valid(s, run)
    decreases |run|
  {
    run == []
    || (&& (run[0].ClaimFault? ==> s.deliveries[run[0].k].retries + 1 != limit)
        && NoFinalClaimFault(Step(s, run[0]), run[1..], limit))
  }

  lemma StepKeepsLive(s: State, e: Event, limit: nat)
    requires Safe(s) && Enabled(s, e) && Limit(limit) && PendingHasLive(s, limit)
    requires e.ClaimFault? ==> s.deliveries[e.k].retries + 1 != limit
    ensures PendingHasLive(Step(s, e), limit)
  {
    forall i | 0 <= i < |Step(s, e).rows| ensures !Lost(Step(s, e), i, limit) {
      LostStepIff(s, e, i, limit);
    }
  }

  /**
   * So in every run in which no claim update fails on the last retry, crashes, duplicates and all other
   * faults included, every pending deposit has a message that can still claim it.
   */
  lemma {:induction false} PendingAlwaysHasLive(s: State, run: seq<Event>, limit: nat)
    requires Safe(s) && Valid(s, run) && Limit(limit) && PendingHasLive(s, limit)
    requires NoFinalClaimFault(s, run, limit)
    ensures PendingHasLive(Run(s, run), limit)
    decreases |run|
  {
    if run != [] {
      StepKeepsLive(s, run[0], limit);
      StepIsSafe(s, run[0]);
      PendingAlwaysHasLive(Step(s, run[0]), run[1..], limit);
    }
  }

  // ----- stranded deposits -----

  ghost predicate IsHeld(s: State, i: nat) {
    exists k :: 0 <= k < |s.deliveries| && s.deliveries[k].id == i && s.deliveries[k].phase.Holds()
  }

  /** Claimed, but the handler that claimed it is gone. */
  ghost predicate Stranded(s: State, i: nat) {
    i < |s.rows| && s.rows[i].status == Processing && !IsHeld(s, i)
  }

  /** The handler that holds the deposit dies, or a database call it cannot recover from fails. */
  predicate Strands(s: State, e: Event, i: nat)
    requires Enabled(s, e)
  {
    && (e.Crash? || e.ReadFault? || e.RejectFault? || e.ReleaseFault?)
    && s.deliveries[e.k].id == i && s.deliveries[e.k].phase.Holds()
  }

  lemma HeldWitness(s: State, k: nat, i: nat)
    requires k < |s.deliveries| && s.deliveries[k].id == i && s.deliveries[k].phase.Holds()
    ensures IsHeld(s, i)
  {
  }

  /** A deposit that has a handler keeps it until it is settled, released or stranded. */
  lemma HolderSurvives(s: State, e: Event, i: nat)
    requires Safe(s) && Enabled(s, e) && !Strands(s, e, i) && IsHeld(s, i)
    requires i < |s.rows| && Step(s, e).rows[i].status == Processing
    ensures IsHeld(Step(s, e), i)
  {
    var w :| 0 <= w < |s.deliveries| && s.deliveries[w].id == i && s.deliveries[w].phase.Holds();
    assert DeliveryOk(s, s.deliveries[w]);
    HeldWitness(Step(s, e), w, i);
  }

  /** Every holder after a step has held its row before, or is the stepping handler. */
  lemma HolderIsOld(s: State, e: Event, j: nat)
    requires Safe(s) && Enabled(s, e) && j < |Step(s, e).deliveries|
    ensures Step(s, e).deliveries[j].phase.Holds() ==>
      && j < |s.deliveries| && s.deliveries[j].id == Step(s, e).deliveries[j].id
      && (e.Creates() || j != e.k ==> s.deliveries[j].phase.Holds())
  {
    if !e.Creates() && Step(s, e).deliveries[j].phase.Holds() {
      HoldersAfterStep(s, e, j);
    }
  }

  /** Without a handler, or once its only handler has lost it, a claimed deposit has none afterwards. */
  lemma NoNewHolder(s: State, e: Event, i: nat)
    requires Safe(s) && Enabled(s, e) && (Stranded(s, i) || Strands(s, e, i))
    ensures Stranded(Step(s, e), i)
  {
    var s' := Step(s, e);
    if !e.Creates() {
      assert DeliveryOk(s, s.deliveries[e.k]);
    }
    assert Stranded(s, i) ==>
      forall j :: 0 <= j < |s.deliveries| && s.deliveries[j].id == i ==> !s.deliveries[j].phase.Holds();
    forall j | 0 <= j < |s'.deliveries| && s'.deliveries[j].id == i ensures !s'.deliveries[j].phase.Holds() {
      HolderIsOld(s, e, j);
    }
  }

  /** Exactly which steps strand a deposit; and nothing ever frees it again. */
  lemma StrandedStepIff(s: State, e: Event, i: nat)
    requires Safe(s) && Enabled(s, e)
    ensures Stranded(Step(s, e), i) <==> Stranded(s, i) || Strands(s, e, i)
  {
    if Stranded(s, i) || Strands(s, e, i) {
      NoNewHolder(s, e, i);
    } else if i < |s.rows| && Step(s, e).rows[i].status == Processing {
      if IsHeld(s, i) {
        HolderSurvives(s, e, i);
      } else {
        HeldWitness(Step(s, e), e.k, i);
      }
    }
  }

  /** Some step of the run strands the deposit. */
  ghost predicate StrandedSometime(s: State, run: seq<Event>, i: nat)
    requires Valid(s, run)
    decreases |run|
  {
    run != [] && (Strands(s, run[0], i) || StrandedSometime(Step(s, run[0]), run[1..], i))
  }

  /** Over whole runs: a deposit is stranded exactly when some step has stranded it, however long ago. */
  lemma {:induction false} StrandedIff(s: State, run: seq<Event>, i: nat)
    requires Safe(s) && Valid(s, run)
    ensures Stranded(Run(s, run), i) <==> Stranded(s, i) || StrandedSometime(s, run, i)
    decreases |run|
  {
    if run != [] {
      StrandedStepIff(s, run[0], i);
      StepIsSafe(s, run[0]);
      StrandedIff(Step(s, run[0]), run[1..], i);
    }
  }

  // ----- calm runs -----

  /** A claimed row has a handler that will settle it. */
  ghost predicate ProcessingIsHeld(s: State) {
    forall i :: 0 <= i < |s.rows| ==> !Stranded(s, i)
  }

  /** A message whose retries are used up belongs to a settled deposit. */
  ghost predicate Spent(s: State, d: Delivery) {
    && d.id < |s.rows|
    && (d.retries == MAX_RETRIES ==> s.rows[d.id].status.Terminal() && !d.phase.Throwing?)
    && (d.phase.Throwing? && (FinalAttempt(d) || d.kind.XlmDeposit?) ==> s.rows[d.id].status.Terminal())
  }

  ghost predicate Calm(s: State) {
    && Safe(s) && PendingHasLive(s, MAX_RETRIES) && ProcessingIsHeld(s)
    && forall k :: 0 <= k < |s.deliveries| ==> Spent(s, s.deliveries[k])
  }

  lemma StepKeepsHeld(s: State, e: Event)
    requires Safe(s) && ProcessingIsHeld(s) && Enabled(s, e) && !e.Stranding()
    ensures ProcessingIsHeld(Step(s, e))
  {
    forall i | 0 <= i < |Step(s, e).rows| ensures !Stranded(Step(s, e), i) {
      StrandedStepIff(s, e, i);
    }
  }

  lemma StepKeepsSpent(s: State, e: Event, j: nat)
    requires Calm(s) && Enabled(s, e) && !e.Stranding() && j < |Step(s, e).deliveries|
    ensures Spent(Step(s, e), Step(s, e).deliveries[j])
  {
    var s' := Step(s, e);
    StepIsSafe(s, e);
    assert DeliveryOk(s', s'.deliveries[j]);
    if !e.Creates() {
      assert DeliveryOk(s, s.deliveries[e.k]) && Spent(s, s.deliveries[e.k]);
    }
    if j < |s.deliveries| {
      assert DeliveryOk(s, s.deliveries[j]) && Spent(s, s.deliveries[j]);
      if s.rows[s.deliveries[j].id].status.Terminal() {
        TerminalStep(s, e, s.deliveries[j].id);
      }
    }
  }

  lemma StepKeepsCalm(s: State, e: Event)
    requires Calm(s) && Enabled(s, e) && !e.Stranding()
    ensures Calm(Step(s, e))
  {
    var s' := Step(s, e);
    StepIsSafe(s, e);
    StepKeepsLive(s, e, MAX_RETRIES);
    StepKeepsHeld(s, e);
    forall j | 0 <= j < |s'.deliveries| ensures Spent(s', s'.deliveries[j]) {
      StepKeepsSpent(s, e, j);
    }
  }

  ghost predicate CalmRun(run: seq<Event>) {
    forall j :: 0 <= j < |run| ==> !run[j].Stranding()
  }

  lemma {:induction false} RunKeepsCalm(s: State, run: seq<Event>)
    requires Calm(s) && Valid(s, run) && CalmRun(run)
    ensures Calm(Run(s, run))
    decreases |run|
  {
    if run != [] {
      StepKeepsCalm(s, run[0]);
      RunKeepsCalm(Step(s, run[0]), run[1..]);
    }
  }

  // ----- attempts -----

  /** No further claim of the deposit can succeed. */
  ghost predicate Closed(s: State, i: nat) {
    i < |s.rows| && (s.rows[i].status.Terminal() || Stranded(s, i))
  }

  lemma ClosedStays(s: State, e: Event, i: nat)
    requires Safe(s) && Enabled(s, e) && Closed(s, i)
    ensures Closed(Step(s, e), i)
  {
    StrandedStepIff(s, e, i);
    if s.rows[i].status.Terminal() {
      TerminalStep(s, e, i);
    }
  }

  /**
   * Attempts a copy may still lead to while its deposit is open. The last retry, on which no attempt can be
   * made unless the claim of the final attempt failed, takes over that attempt.
   */
  function Budget(d: Delivery): nat {
    match d.phase
    case Queued => if d.retries < MAX_RETRIES then MAX_RETRIES - d.retries else 1
    case Delivered => if d.retries < MAX_RETRIES then MAX_RETRIES - d.retries else 1
    case Throwing =>
      if d.retries + 1 < MAX_RETRIES then MAX_RETRIES - d.retries - 1
      else if d.retries < MAX_RETRIES then 1 else 0
    case Acking => 0
    case Gone => 0
    case _ => if d.retries < MAX_RETRIES then MAX_RETRIES - d.retries - 1 else 0
  }

  function BudgetFor(i: nat): Delivery -> int {
    (d: Delivery) => if d.id == i then Budget(d) else 0
  }

  /** Attempts a deposit may still see; a deposit yet to be created will see as many as one fresh message allows. */
  ghost function BudgetOf(s: State, i: nat): int {
    if i >= |s.rows| then MAX_RETRIES else if Closed(s, i) then 0 else SumBy(s.deliveries, BudgetFor(i))
  }

  /** The broker hands a message of the deposit out again: a duplicate, or a redelivery after a crash. */
  predicate Redelivers(s: State, e: Event, i: nat)
    requires Enabled(s, e)
  {
    (e.Duplicate? || e.Crash?) && s.deliveries[e.k].id == i
  }

  ghost function Redeliveries(s: State, run: seq<Event>, i: nat): nat
    requires Valid(s, run)
    decreases |run|
  {
    if run == [] then 0
    else (if Redelivers(s, run[0], i) then 1 else 0) + Redeliveries(Step(s, run[0]), run[1..], i)
  }

  lemma {:induction false} BudgetNonNegative(ds: seq<Delivery>, i: nat)
    ensures SumBy(ds, BudgetFor(i)) >= 0
  {
    if ds != [] {
      BudgetNonNegative(ds[1..], i);
    }
  }

  lemma {:induction false} NoBudgetElsewhere(s: State, ds: seq<Delivery>, i: nat)
    requires i >= |s.rows| && forall k :: 0 <= k < |ds| ==> DeliveryOk(s, ds[k])
    ensures SumBy(ds, BudgetFor(i)) == 0
  {
    if ds != [] {
      assert DeliveryOk(s, ds[0]);
      NoBudgetElsewhere(s, ds[1..], i);
    }
  }

  /** A step of one handler moves its budget around, and an attempt uses up one unit of it. */
  lemma BudgetMoves(d: Delivery, rows: seq<Row>, e: Event)
    requires !e.Creates() && AtPhase(d, rows, e) && d.retries <= MAX_RETRIES
    requires e.ReleaseOk? ==> d.kind.UsdcDeposit? && !FinalAttempt(d)
    requires !e.ReadFault? && !e.RejectFault? && !e.ReleaseFault?
    ensures Budget(d.(phase := NextPhase(d, e))) + SumBy(NewCopies(d, e), BudgetFor(d.id))
              + (if e.ClaimWin? then 1 else 0)
            <= Budget(d) + (if e.Duplicate? || e.Crash? then MAX_RETRIES else 0)
  {
  }

  lemma CopiesOfOthers(d: Delivery, e: Event, i: nat)
    requires i != d.id
    ensures SumBy(NewCopies(d, e), BudgetFor(i)) == 0
  {
  }

  lemma StepBudget(s: State, e: Event, i: nat)
    requires Safe(s) && Enabled(s, e)
    ensures (if Hits(s, e, i, Attempt) then 1 else 0) + BudgetOf(Step(s, e), i)
      <= BudgetOf(s, i) + if Redelivers(s, e, i) then MAX_RETRIES else 0
  {
    var s', f := Step(s, e), BudgetFor(i);
    if i < |s.rows| && Closed(s, i) {
      ClosedStays(s, e, i);
    } else if e.Creates() {
      SumByConcat(s.deliveries, [s'.deliveries[|s.deliveries|]], f);
      BudgetNonNegative(s.deliveries, i);
      if i >= |s.rows| {
        NoBudgetElsewhere(s, s.deliveries, i);
      }
    } else if i < |s.rows| {
      OpenBudget(s, e, i);
    }
  }

  lemma OpenBudget(s: State, e: Event, i: nat)
    requires Safe(s) && Enabled(s, e) && !e.Creates() && i < |s.rows| && !Closed(s, i)
    ensures (if Hits(s, e, i, Attempt) then 1 else 0) + BudgetOf(Step(s, e), i)
      <= SumBy(s.deliveries, BudgetFor(i)) + if Redelivers(s, e, i) then MAX_RETRIES else 0
  {
    var d, f := s.deliveries[e.k], BudgetFor(i);
    assert DeliveryOk(s, d);
    var d' := d.(phase := NextPhase(d, e));
    SumByUpdate(s.deliveries, e.k, d', f);
    SumByConcat(s.deliveries[e.k := d'], NewCopies(d, e), f);
    StrandedStepIff(s, e, i);
    BudgetNonNegative(s.deliveries, i);
    if i != d.id {
      CopiesOfOthers(d, e, i);
    } else if !Closed(Step(s, e), i) {
      BudgetMoves(d, s.rows, e);
    }
  }

  lemma {:induction false} RunBudget(s: State, run: seq<Event>, i: nat)
    requires Safe(s) && Valid(s, run)
    ensures Count(s, run, i, Attempt) + BudgetOf(Run(s, run), i)
      <= BudgetOf(s, i) + MAX_RETRIES * Redeliveries(s, run, i)
    decreases |run|
  {
    if run != [] {
      StepBudget(s, run[0], i);
      StepIsSafe(s, run[0]);
      RunBudget(Step(s, run[0]), run[1..], i);
    }
  }

  /**
   * In every run, whatever fails: at most MAX_RETRIES attempts each time the broker hands a message out, so
   * at most MAX_RETRIES in all when nothing is duplicated and no worker crashes.
   */
  lemma AttemptsAreBounded(run: seq<Event>, i: nat)
    requires Valid(EMPTY, run)
    ensures Count(EMPTY, run, i, Attempt) <= MAX_RETRIES * (1 + Redeliveries(EMPTY, run, i))
  {
    RunBudget(EMPTY, run, i);
    BudgetNonNegative(Run(EMPTY, run).deliveries, i);
  }

  // ----- the decreasing measure -----

  function Rank(d: Delivery): int {
    match d.phase
    case Acking => 1
    case Gone => 0
    case _ => 16 * (MAX_RETRIES - d.retries) + Offset(d.phase)
  }

  function Offset(p: Phase): int {
    match p
    case Queued => 15
    case Delivered => 14
    case Claimed => 13
    case Swapped(_) => 12
    case ReadyToMint => 11
    case Minted => 10
    case Releasing => 9
    case _ => 8
  }

  function Measure(s: State): int { SumBy(s.deliveries, Rank) }

  lemma RankStep(d: Delivery, rows: seq<Row>, e: Event)
    requires e.Work() && AtPhase(d, rows, e) && d.retries <= MAX_RETRIES
    ensures Rank(d.(phase := NextPhase(d, e))) + SumBy(NewCopies(d, e), Rank) < Rank(d)
  {
  }

  lemma WorkDecreasesMeasure(s: State, e: Event)
    requires Safe(s) && Enabled(s, e) && e.Work()
    ensures Measure(Step(s, e)) < Measure(s)
  {
    var d := s.deliveries[e.k];
    assert DeliveryOk(s, d);
    var d' := d.(phase := NextPhase(d, e));
    RankStep(d, s.rows, e);
    SumByUpdate(s.deliveries, e.k, d', Rank);
    SumByConcat(s.deliveries[e.k := d'], NewCopies(d, e), Rank);
  }

  lemma {:induction false} MeasureNonNegative(s: State, ds: seq<Delivery>)
    requires forall k :: 0 <= k < |ds| ==> DeliveryOk(s, ds[k])
    ensures SumBy(ds, Rank) >= 0
  {
    if ds != [] {
      assert DeliveryOk(s, ds[0]);
      MeasureNonNegative(s, ds[1..]);
    }
  }

  /** Left alone, the system stops: faults or not, the work steps from a state are bounded by its measure. */
  lemma {:induction false} WorkIsBounded(s: State, run: seq<Event>)
    requires Safe(s) && Valid(s, run) && forall j :: 0 <= j < |run| ==> run[j].Work()
    ensures |run| <= Measure(s) - Measure(Run(s, run))
    ensures |run| <= Measure(s)
    decreases |run|
  {
    if run == [] {
      MeasureNonNegative(s, s.deliveries);
    } else {
      WorkDecreasesMeasure(s, run[0]);
      StepIsSafe(s, run[0]);
      WorkIsBounded(Step(s, run[0]), run[1..]);
    }
  }

  /** A message that is not gone can always make a step that is not a fault. */
  lemma CanProceed(s: State, k: nat) returns (e: Event)
    requires Safe(s) && k < |s.deliveries| && !s.deliveries[k].phase.Gone?
    ensures Enabled(s, e) && e.Work() && !e.Stranding()
  {
    var d := s.deliveries[k];
    assert DeliveryOk(s, d);
    var r := s.rows[d.id];
    e := match d.phase
      case Queued => Deliver(k)
      case Delivered => if Claimable(s, d) then ClaimWin(k) else ClaimLose(k)
      case Claimed =>
        if d.kind.XlmDeposit? then Resume(k)
        else if r.usdcAmount <= 0.0 then Reject(k)
        else if r.xlmAmount.Some? then Resume(k) else SwapFail(k)
      case Swapped(_) => PersistOk(k)
      case ReadyToMint => MintFail(k)
      case Minted => CompleteOk(k)
      case Releasing => ReleaseOk(k)
      case Throwing => if d.retries < MAX_RETRIES then Requeue(k) else DeadLetter(k)
      case _ => Ack(k);
  }

  ghost predicate Quiescent(s: State) {
    forall k :: 0 <= k < |s.deliveries| ==> s.deliveries[k].phase.Gone?
  }

  ghost predicate Stuck(s: State) {
    forall e: Event :: Enabled(s, e) && e.Work() ==> e.Stranding()
  }

  lemma StuckIsQuiescent(s: State)
    requires Safe(s) && Stuck(s)
    ensures Quiescent(s)
  {
    forall k | 0 <= k < |s.deliveries| ensures s.deliveries[k].phase.Gone? {
      if !s.deliveries[k].phase.Gone? {
        var e := CanProceed(s, k);
      }
    }
  }

  lemma QuiescentIff(s: State, i: nat, limit: nat)
    requires Quiescent(s) && i < |s.rows|
    ensures s.rows[i].status.Terminal() <==> !Stranded(s, i) && !Lost(s, i, limit)
  {
    assert !HasLive(s, i, limit) && !IsHeld(s, i);
  }

  lemma {:induction false} NeverLosingEndsWell(s: State, run: seq<Event>, i: nat, limit: nat)
    requires Valid(s, run) && !LosesSometime(s, run, i, limit)
    ensures !EndsLost(s, run, i, limit, false)
    decreases |run|
  {
    if run != [] {
      NeverLosingEndsWell(Step(s, run[0]), run[1..], i, limit);
    }
  }

  /**
   * From every reachable state, with any faults whatever, further handling takes at most Measure steps. When
   * no handler can proceed, a deposit is completed or failed if and only if no step of the run has stranded
   * it and the run does not end with its last message lost: faults that hit other deposits, or that hit this
   * one before its last retry, make no difference.
   */
  lemma EveryDepositSettles(history: seq<Event>, run: seq<Event>, i: nat)
    requires Valid(EMPTY, history) && Valid(Run(EMPTY, history), run)
    requires forall j :: 0 <= j < |run| ==> run[j].Work()
    ensures |run| <= Measure(Run(EMPTY, history))
    ensures Valid(EMPTY, history + run)
    ensures var t := Run(EMPTY, history + run);
      Stuck(t) && i < |t.rows| ==>
        (t.rows[i].status.Terminal() <==>
          && !StrandedSometime(EMPTY, history + run, i)
          && !EndsLost(EMPTY, history + run, i, MAX_RETRIES + 1, false))
  {
    var all := history + run;
    RunIsSafe(EMPTY, history);
    WorkIsBounded(Run(EMPTY, history), run);
    RunConcat(EMPTY, history, run);
    RunIsSafe(EMPTY, all);
    StrandedIff(EMPTY, all, i);
    LostIff(EMPTY, all, i, MAX_RETRIES + 1);
    var t := Run(EMPTY, all);
    if Stuck(t) && i < |t.rows| {
      StuckIsQuiescent(t);
      QuiescentIff(t, i, MAX_RETRIES + 1);
    }
  }

  /** In particular a deposit settles if nothing strands it and its last claim update never fails. */
  lemma UnharmedDepositSettles(run: seq<Event>, i: nat)
    requires Valid(EMPTY, run) && Stuck(Run(EMPTY, run)) && i < |Run(EMPTY, run).rows|
    requires !StrandedSometime(EMPTY, run, i) && !LosesSometime(EMPTY, run, i, MAX_RETRIES + 1)
    ensures Run(EMPTY, run).rows[i].status.Terminal()
  {
    NeverLosingEndsWell(EMPTY, run, i, MAX_RETRIES + 1);
    assert run + [] == run;
    EveryDepositSettles(run, [], i);
  }

  // ----- where the hypotheses matter -----

  /** Deliver, fail the claim, requeue, ack, from retry `r` up to the dead letter queue. */
  function FaultyRounds(r: nat): seq<Event>
    requires r <= MAX_RETRIES
    decreases MAX_RETRIES - r
  {
    if r == MAX_RETRIES then LastRound(r) else FailedRound(r) + FaultyRounds(r + 1)
  }

  function FailedRound(r: nat): seq<Event> {
    [Deliver(r)] + ([ClaimFault(r)] + ([Requeue(r)] + ([Ack(r)] + [])))
  }

  function LastRound(r: nat): seq<Event> {
    [Deliver(r)] + ([ClaimFault(r)] + ([DeadLetter(r)] + []))
  }

  /** The newest copy, at retry `r`, is queued; all earlier ones are gone. */
  ghost predicate BeforeRound(s: State, r: nat) {
    && |s.deliveries| == r + 1 && |s.rows| == 1
    && s.deliveries[r] == Delivery(UsdcDeposit, 0, r, Queued)
    && forall k :: 0 <= k < r ==> s.deliveries[k].phase.Gone?
  }

  function Advance(s: State, k: nat, p: Phase): State
    requires k < |s.deliveries|
  {
    s.(deliveries := s.deliveries[k := s.deliveries[k].(phase := p)])
  }

  /** A step that only moves one handler along. */
  lemma Advances(s: State, e: Event)
    requires !e.Creates() && Enabled(s, e) && (e.Deliver? || e.ClaimFault? || e.DeadLetter? || e.Ack?)
    ensures Step(s, e) == Advance(s, e.k, NextPhase(s.deliveries[e.k], e))
  {
    var d := s.deliveries[e.k];
    if d.id < |s.rows| {
      assert s.rows[d.id := s.rows[d.id]] == s.rows;
    }
  }

  lemma FailedClaim(s: State, r: nat) returns (t: State)
    requires r <= MAX_RETRIES && BeforeRound(s, r)
    ensures t == Advance(s, r, Throwing)
    ensures forall rest :: Valid(t, rest) ==>
      && Valid(s, [Deliver(r)] + ([ClaimFault(r)] + rest))
      && Run(s, [Deliver(r)] + ([ClaimFault(r)] + rest)) == Run(t, rest)
  {
    Advances(s, Deliver(r));
    var s1 := Step(s, Deliver(r));
    Advances(s1, ClaimFault(r));
    t := Step(s1, ClaimFault(r));
    assert t.deliveries == Advance(s, r, Throwing).deliveries;
    forall rest | Valid(t, rest)
      ensures Valid(s, [Deliver(r)] + ([ClaimFault(r)] + rest))
      ensures Run(s, [Deliver(r)] + ([ClaimFault(r)] + rest)) == Run(t, rest)
    {
      RunCons(s1, ClaimFault(r), rest);
      RunCons(s, Deliver(r), [ClaimFault(r)] + rest);
    }
  }

  lemma RoundFails(s: State, r: nat)
    requires r < MAX_RETRIES && BeforeRound(s, r)
    ensures Valid(s, FailedRound(r)) && BeforeRound(Run(s, FailedRound(r)), r + 1)
    ensures Run(s, FailedRound(r)).rows == s.rows
  {
    var t := FailedClaim(s, r);
    var s3 := Step(t, Requeue(r));
    assert s3.rows == s.rows;
    Advances(s3, Ack(r));
    RunCons(s3, Ack(r), []);
    RunCons(t, Requeue(r), [Ack(r)] + []);
  }

  lemma LastRoundFails(s: State, r: nat)
    requires r == MAX_RETRIES && BeforeRound(s, r)
    ensures Valid(s, LastRound(r)) && Quiescent(Run(s, LastRound(r)))
    ensures Run(s, LastRound(r)).rows == s.rows
  {
    var t := FailedClaim(s, r);
    Advances(t, DeadLetter(r));
    RunCons(t, DeadLetter(r), []);
  }

  lemma {:induction false} LostAfter(s: State, r: nat)
    requires r <= MAX_RETRIES && BeforeRound(s, r)
    ensures Valid(s, FaultyRounds(r)) && Run(s, FaultyRounds(r)).rows == s.rows
    ensures Quiescent(Run(s, FaultyRounds(r)))
    decreases MAX_RETRIES - r
  {
    if r == MAX_RETRIES {
      LastRoundFails(s, r);
    } else {
      RoundFails(s, r);
      LostAfter(Run(s, FailedRound(r)), r + 1);
      RunConcat(s, FailedRound(r), FaultyRounds(r + 1));
    }
  }

  /** Six failing claim updates in a row exhaust the message while the deposit is still pending. */
  lemma ClaimFaultsLoseTheMessage(amount: real) returns (run: seq<Event>)
    ensures Valid(EMPTY, run) && Lost(Run(EMPTY, run), 0, MAX_RETRIES + 1) && Quiescent(Run(EMPTY, run))
  {
    var s := Step(EMPTY, CreateUsdc(amount));
    var first: nat :| first == 0;
    LostAfter(s, first);
    RunCons(EMPTY, CreateUsdc(amount), FaultyRounds(first));
    run := [CreateUsdc(amount)] + FaultyRounds(first);
    assert s.rows[0].status == PendingConvert;
    assert !HasLive(Run(s, FaultyRounds(first)), 0, MAX_RETRIES + 1);
  }

  /** A worker that crashes between claim and settlement leaves the deposit in `processing` for good. */
  lemma CrashStrandsForGood(amount: real, more: seq<Event>)
    requires Valid(CrashedWhileHolding(amount), more)
    ensures Stranded(Run(CrashedWhileHolding(amount), more), 0)
  {
    StepIsSafe(EMPTY, CreateUsdc(amount));
    var s1 := Step(EMPTY, CreateUsdc(amount));
    StepIsSafe(s1, Deliver(0));
    var s2 := Step(s1, Deliver(0));
    StepIsSafe(s2, ClaimWin(0));
    var s3 := Step(s2, ClaimWin(0));
    StepIsSafe(s3, Crash(0));
    StrandedStepIff(s3, Crash(0), 0);
    StrandedIff(CrashedWhileHolding(amount), more, 0);
  }

  function CrashedWhileHolding(amount: real): State {
    Step(Step(Step(Step(EMPTY, CreateUsdc(amount)), Deliver(0)), ClaimWin(0)), Crash(0))
  }
}
