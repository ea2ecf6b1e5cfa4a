/**
 * The on-ramp claim, retry and settle protocol (src/jobs/usdcConvertAndMintJob.ts and
 * src/jobs/xlmToAcbuJob.ts) as a state machine: database rows, and every copy of every broker
 * message with the point its handler has reached. Copies advance in any interleaving; external
 * swaps and mints succeed or fail freely; the broker may duplicate a message; workers may crash
 * and database calls may fail.
 */
module OnRamp {
  import opened Sequences

  const MAX_RETRIES: nat := 5

  datatype Status = PendingConvert | Processing | Completed | Failed {
    predicate Terminal() { Completed? || Failed? }
  }

  datatype Source = UsdcDeposit | XlmDeposit

  /** What has happened to a deposit so far; the database does not store it. */
  datatype History = History(
    attempts: nat,    // claims won
    swaps: nat,       // USDC to XLM swaps that moved funds
    lostSwaps: nat,   // of those, swaps not recorded: the call threw afterwards, or the xlmAmount update failed
    mintCalls: nat,   // calls of mintFromUsdcInternal
    mints: nat,       // of those, calls that minted
    lostMints: nat)   // of those, mints not recorded: the call threw afterwards, or the "completed" update failed

  datatype Row = Row(
    source: Source, usdcAmount: real, xlmAmount: Option<real>, status: Status, past: History)

  datatype Phase =
    | Queued               // in the queue
    | Delivered            // handler running, before the claim
    | Claimed              // row claimed, before the external swap
    | Swapped(xlm: real)   // swap confirmed, xlmAmount not yet written
    | ReadyToMint
    | Minted               // minted, "completed" not yet written
    | Releasing            // in the catch block, before its update
    | Throwing             // the exception has reached the consumer
    | Acking               // only the ack is left
    | Gone
  {
    /** The handler is between its claim and its settling update. */
    predicate Holds() { Claimed? || Swapped? || ReadyToMint? || Minted? || Releasing? }
  }

  datatype Delivery = Delivery(kind: Source, id: nat, retries: nat, phase: Phase)

  datatype State = State(rows: seq<Row>, deliveries: seq<Delivery>)

  const EMPTY := State([], [])

  const NO_HISTORY := History(0, 0, 0, 0, 0, 0)

  datatype Event =
    | CreateUsdc(amount: real)
    | CreateXlm(xlm: real, amount: real)
    | Duplicate(k: nat)
    | Crash(k: nat)
    | Deliver(k: nat)
    | ClaimWin(k: nat)
    | ClaimLose(k: nat)
    | ClaimFault(k: nat)
    | ReadFault(k: nat)
    | Reject(k: nat)
    | RejectFault(k: nat)
    | SwapOk(k: nat, received: real)
    | SwapFail(k: nat)                  // swapUsdcToXlm throws, and nothing has moved
    | SwapLost(k: nat)                  // it throws although the funds have moved
    | PersistOk(k: nat)
    | PersistFault(k: nat)
    | Resume(k: nat)
    | MintOk(k: nat)
    | MintFail(k: nat)                  // mintFromUsdcInternal throws, and nothing has been minted
    | MintLost(k: nat)                  // it throws although it has minted
    | CompleteOk(k: nat)
    | CompleteFault(k: nat)
    | ReleaseOk(k: nat)
    | ReleaseFault(k: nat)
    | Requeue(k: nat)
    | DeadLetter(k: nat)
    | Ack(k: nat)
  {
    predicate Creates() { CreateUsdc? || CreateXlm? }

    /** Progress of one handler, as opposed to new work or a crash. */
    predicate Work() { !Creates() && !Duplicate? && !Crash? }

    /** Leaves the row stranded or burns a retry without an attempt. */
    predicate Stranding() { Crash? || ClaimFault? || ReadFault? || RejectFault? || ReleaseFault? }
  }

  // ----- steps -----

  /** The where clause of the atomic updateMany; only the USDC job filters on the source. */
  predicate Claimable(s: State, d: Delivery) {
    && d.id < |s.rows| && s.rows[d.id].status == PendingConvert
    && (d.kind == UsdcDeposit ==> s.rows[d.id].source == UsdcDeposit)
  }

  predicate FinalAttempt(d: Delivery) { d.retries >= MAX_RETRIES - 1 }

  predicate AtPhase(d: Delivery, rows: seq<Row>, e: Event)
    requires !e.Creates()
  {
    var known := d.id < |rows|;
    match e
    case Duplicate(_) => known && !d.phase.Gone?
    case Crash(_) => known && !d.phase.Queued? && !d.phase.Gone?
    case Deliver(_) => d.phase.Queued?
    case ClaimWin(_) => d.phase.Delivered? && Claimable(State(rows, []), d)
    case ClaimLose(_) => d.phase.Delivered? && !Claimable(State(rows, []), d)
    case ClaimFault(_) => d.phase.Delivered?
    case ReadFault(_) => d.phase.Claimed?
    case Reject(_) => known && d.phase.Claimed? && d.kind.UsdcDeposit? && rows[d.id].usdcAmount <= 0.0
    case RejectFault(_) => known && d.phase.Claimed? && d.kind.UsdcDeposit? && rows[d.id].usdcAmount <= 0.0
    case SwapOk(_, _) => MustSwap(d, rows)
    case SwapFail(_) => MustSwap(d, rows)
    case SwapLost(_) => MustSwap(d, rows)
    case PersistOk(_) => known && d.phase.Swapped?
    case PersistFault(_) => known && d.phase.Swapped?
    case Resume(_) => known && d.phase.Claimed? &&
      (d.kind.XlmDeposit? || (rows[d.id].usdcAmount > 0.0 && rows[d.id].xlmAmount.Some?))
    case MintOk(_) => known && d.phase.ReadyToMint?
    case MintFail(_) => known && d.phase.ReadyToMint?
    case MintLost(_) => known && d.phase.ReadyToMint?
    case CompleteOk(_) => known && d.phase.Minted?
    case CompleteFault(_) => known && d.phase.Minted?
    case ReleaseOk(_) => known && d.phase.Releasing?
    case ReleaseFault(_) => d.phase.Releasing?
    case Requeue(_) => d.phase.Throwing? && d.retries < MAX_RETRIES
    case DeadLetter(_) => d.phase.Throwing? && d.retries >= MAX_RETRIES
    case Ack(_) => d.phase.Acking?
  }

  predicate MustSwap(d: Delivery, rows: seq<Row>) {
    && d.id < |rows| && d.phase.Claimed? && d.kind.UsdcDeposit?
    && rows[d.id].usdcAmount > 0.0 && rows[d.id].xlmAmount.None?
  }

  predicate Enabled(s: State, e: Event) {
    e.Creates() || (e.k < |s.deliveries| && AtPhase(s.deliveries[e.k], s.rows, e))
  }

  /** Where the handler stands after the step. */
  function NextPhase(d: Delivery, e: Event): Phase
    requires !e.Creates()
  {
    match e
    case Duplicate(_) => d.phase
    case Crash(_) => Queued
    case Deliver(_) => Delivered
    case ClaimWin(_) => Claimed
    case ClaimLose(_) => Acking
    case ClaimFault(_) => Throwing
    case ReadFault(_) => Throwing
    case Reject(_) => Acking
    case RejectFault(_) => Throwing
    case SwapOk(_, x) => Swapped(x)
    case SwapFail(_) => Releasing
    case SwapLost(_) => Releasing
    case PersistOk(_) => ReadyToMint
    case PersistFault(_) => Releasing
    case Resume(_) => ReadyToMint
    case MintOk(_) => Minted
    case MintFail(_) => Releasing
    case MintLost(_) => Releasing
    case CompleteOk(_) => Acking
    case CompleteFault(_) => Releasing
    case ReleaseOk(_) => Throwing
    case ReleaseFault(_) => Throwing
    case Requeue(_) => Acking
    case DeadLetter(_) => Gone
    case Ack(_) => Gone
  }

  /** What the step does to the row. */
  function NextRow(r: Row, d: Delivery, e: Event): Row
    requires !e.Creates()
  {
    var p := r.past;
    match e
    case ClaimWin(_) => r.(status := Processing, past := p.(attempts := p.attempts + 1))
    case Reject(_) => r.(status := Failed)
    case SwapOk(_, _) => r.(past := p.(swaps := p.swaps + 1))
    case SwapLost(_) => r.(past := p.(swaps := p.swaps + 1, lostSwaps := p.lostSwaps + 1))
    case PersistOk(_) => if d.phase.Swapped? then r.(xlmAmount := Some(d.phase.xlm)) else r
    case PersistFault(_) => r.(past := p.(lostSwaps := p.lostSwaps + 1))
    case MintOk(_) => r.(past := p.(mintCalls := p.mintCalls + 1, mints := p.mints + 1))
    case MintFail(_) => r.(past := p.(mintCalls := p.mintCalls + 1))
    case MintLost(_) =>
      r.(past := p.(mintCalls := p.mintCalls + 1, mints := p.mints + 1, lostMints := p.lostMints + 1))
    case CompleteOk(_) => r.(status := Completed)
    case CompleteFault(_) => r.(past := p.(lostMints := p.lostMints + 1))
    case ReleaseOk(_) => r.(status := if d.kind.XlmDeposit? || FinalAttempt(d) then Failed else PendingConvert)
    case _ => r
  }

  /** A requeued or duplicated copy that joins the queue in this step. */
  function NewCopies(d: Delivery, e: Event): seq<Delivery> {
    match e
    case Duplicate(_) => [d.(phase := Queued)]
    case Requeue(_) => [d.(retries := d.retries + 1, phase := Queued)]
    case _ => []
  }

  function Step(s: State, e: Event): State
    requires Enabled(s, e)
  {
    match e
    case CreateUsdc(amount) =>
      State(s.rows + [Row(UsdcDeposit, amount, None, PendingConvert, NO_HISTORY)],
            s.deliveries + [Delivery(UsdcDeposit, |s.rows|, 0, Queued)])
    case CreateXlm(xlm, amount) =>
      State(s.rows + [Row(XlmDeposit, amount, Some(xlm), PendingConvert, NO_HISTORY)],
            s.deliveries + [Delivery(XlmDeposit, |s.rows|, 0, Queued)])
    case _ =>
      var d := s.deliveries[e.k];
      State(if d.id < |s.rows| then s.rows[d.id := NextRow(s.rows[d.id], d, e)] else s.rows,
            s.deliveries[e.k := d.(phase := NextPhase(d, e))] + NewCopies(d, e))
  }

  ghost predicate Valid(s: State, run: seq<Event>)
    decreases |run|
  {
    run == [] || (Enabled(s, run[0]) && Valid(Step(s, run[0]), run[1..]))
  }

  ghost function Run(s: State, run: seq<Event>): State
    requires Valid(s, run)
    decreases |run|
  {
    if run == [] then s else Run(Step(s, run[0]), run[1..])
  }

  lemma RunCons(s: State, e: Event, rest: seq<Event>)
    requires Enabled(s, e) && Valid(Step(s, e), rest)
    ensures Valid(s, [e] + rest) && Run(s, [e] + rest) == Run(Step(s, e), rest)
  {
    assert ([e] + rest)[1..] == rest;
  }

  // ----- the safety invariant -----

  /** What the books of a deposit say at rest. */
  ghost predicate RowOk(r: Row) {
    var p := r.past;
    && p.lostSwaps <= p.swaps <= p.lostSwaps + 1
    && p.lostMints <= p.mints <= p.lostMints + 1
    && p.mints <= p.mintCalls
    && (r.source.UsdcDeposit? && r.xlmAmount.Some? ==> p.swaps == p.lostSwaps + 1)
    && (r.source.UsdcDeposit? && r.status == PendingConvert && r.xlmAmount.None? ==> p.swaps == p.lostSwaps)
    && (r.status == Completed ==> p.mints == p.lostMints + 1)
    && (r.status == Completed && r.source.UsdcDeposit? ==> r.xlmAmount.Some?)
    && (r.status == PendingConvert || r.status == Failed ==> p.mints == p.lostMints)
    && (r.source.XlmDeposit? ==> p.swaps == 0 && p.mintCalls <= 1)
    && (r.source.XlmDeposit? && r.status == PendingConvert ==> p.mintCalls == 0)
  }

  /** What they say while a handler holds the row. */
  ghost predicate PhaseOk(r: Row, ph: Phase) {
    var p := r.past;
    match ph
    case Claimed =>
      && (r.source.UsdcDeposit? && r.xlmAmount.None? ==> p.swaps == p.lostSwaps)
      && p.mints == p.lostMints && (r.source.XlmDeposit? ==> p.mintCalls == 0)
    case Swapped(_) =>
      r.source.UsdcDeposit? && r.xlmAmount.None? && p.swaps == p.lostSwaps + 1 && p.mints == p.lostMints
    case ReadyToMint =>
      && (r.source.UsdcDeposit? ==> r.xlmAmount.Some?)
      && p.mints == p.lostMints && (r.source.XlmDeposit? ==> p.mintCalls == 0)
    case Minted => (r.source.UsdcDeposit? ==> r.xlmAmount.Some?) && p.mints == p.lostMints + 1
    case Releasing =>
      && (r.source.UsdcDeposit? && r.xlmAmount.None? ==> p.swaps == p.lostSwaps)
      && p.mints == p.lostMints
    case _ => true
  }

  ghost predicate DeliveryOk(s: State, d: Delivery) {
    && d.id < |s.rows| && s.rows[d.id].source == d.kind && d.retries <= MAX_RETRIES
    && (d.phase.Holds() ==> s.rows[d.id].status == Processing && PhaseOk(s.rows[d.id], d.phase))
  }

  /** At most one handler is between claim and settle on the same row. */
  ghost predicate Exclusive(s: State) {
    forall j, k | 0 <= j < |s.deliveries| && 0 <= k < |s.deliveries| ::
      (s.deliveries[j].phase.Holds() && s.deliveries[k].phase.Holds() && s.deliveries[j].id == s.deliveries[k].id)
      ==> j == k
  }

  ghost predicate Safe(s: State) {
    && (forall k :: 0 <= k < |s.deliveries| ==> DeliveryOk(s, s.deliveries[k]))
    && Exclusive(s)
    && (forall i :: 0 <= i < |s.rows| ==> RowOk(s.rows[i]))
  }

  /** The event touches only the row its handler may touch. */
  ghost predicate MayWrite(d: Delivery, r: Row) {
    d.phase.Holds() || (d.phase.Delivered? && r.status == PendingConvert)
  }

  lemma WritesAreLicensed(s: State, e: Event)
    requires Safe(s) && Enabled(s, e) && !e.Creates()
    ensures var d := s.deliveries[e.k]; var r := s.rows[d.id]; var r' := NextRow(r, d, e);
      && (r' == r || MayWrite(d, r))
      && r'.source == r.source && RowOk(r')
      && (NextPhase(d, e).Holds() && !e.Duplicate? ==>
            MayWrite(d, r) && r'.status == Processing && PhaseOk(r', NextPhase(d, e)))
  {
    var d := s.deliveries[e.k];
    assert DeliveryOk(s, d);
    assert RowOk(s.rows[d.id]);
  }

  /** Whoever may write a row is alone on it. */
  lemma WriterIsAlone(s: State, k: nat, j: nat)
    requires Safe(s) && k < |s.deliveries| && j < |s.deliveries| && j != k
    requires s.deliveries[j].id == s.deliveries[k].id
    requires MayWrite(s.deliveries[k], s.rows[s.deliveries[k].id])
    ensures !s.deliveries[j].phase.Holds()
  {
    assert DeliveryOk(s, s.deliveries[j]);
  }

  lemma StepKeepsDeliveries(s: State, e: Event, j: nat)
    requires Safe(s) && Enabled(s, e) && !e.Creates() && j < |Step(s, e).deliveries|
    ensures DeliveryOk(Step(s, e), Step(s, e).deliveries[j])
  {
    var d, s' := s.deliveries[e.k], Step(s, e);
    assert DeliveryOk(s, d);
    WritesAreLicensed(s, e);
    if j < |s.deliveries| && j != e.k {
      assert DeliveryOk(s, s.deliveries[j]);
      if s.deliveries[j].id == d.id && MayWrite(d, s.rows[d.id]) {
        WriterIsAlone(s, e.k, j);
      }
    }
  }

  lemma StepKeepsExclusive(s: State, e: Event)
    requires Safe(s) && Enabled(s, e) && !e.Creates()
    ensures Exclusive(Step(s, e))
  {
    var s' := Step(s, e);
    forall j, k | 0 <= j < |s'.deliveries| && 0 <= k < |s'.deliveries|
      && s'.deliveries[j].phase.Holds() && s'.deliveries[k].phase.Holds()
      && s'.deliveries[j].id == s'.deliveries[k].id
      ensures j == k
    {
      HoldersAfterStep(s, e, j);
      HoldersAfterStep(s, e, k);
    }
  }

  /** After a step a holder is either the stepping handler or one that held its row before. */
  lemma HoldersAfterStep(s: State, e: Event, j: nat)
    requires Safe(s) && Enabled(s, e) && !e.Creates() && j < |Step(s, e).deliveries|
    requires Step(s, e).deliveries[j].phase.Holds()
    ensures j < |s.deliveries| && s.deliveries[j].id == Step(s, e).deliveries[j].id
    ensures j != e.k ==> s.deliveries[j].phase.Holds()
    ensures j != e.k && s.deliveries[j].id == s.deliveries[e.k].id ==> !Step(s, e).deliveries[e.k].phase.Holds()
  {
    var d := s.deliveries[e.k];
    assert DeliveryOk(s, d);
    WritesAreLicensed(s, e);
    if j < |s.deliveries| && j != e.k && s.deliveries[j].id == d.id && MayWrite(d, s.rows[d.id]) {
      WriterIsAlone(s, e.k, j);
    }
  }

  /** Every step, faults and crashes included, keeps the invariant. */
  lemma StepIsSafe(s: State, e: Event)
    requires Safe(s) && Enabled(s, e)
    ensures Safe(Step(s, e))
  {
    var s' := Step(s, e);
    if e.Creates() {
      forall k | 0 <= k < |s'.deliveries| ensures DeliveryOk(s', s'.deliveries[k]) {
        if k < |s.deliveries| {
          assert DeliveryOk(s, s.deliveries[k]);
        }
      }
    } else {
      forall k | 0 <= k < |s'.deliveries| ensures DeliveryOk(s', s'.deliveries[k]) {
        StepKeepsDeliveries(s, e, k);
      }
      StepKeepsExclusive(s, e);
      WritesAreLicensed(s, e);
    }
  }

  /** Safety over whole runs. */
  lemma {:induction false} RunIsSafe(s: State, run: seq<Event>)
    requires Safe(s) && Valid(s, run)
    ensures Safe(Run(s, run))
    decreases |run|
  {
    if run != [] {
      StepIsSafe(s, run[0]);
      RunIsSafe(Step(s, run[0]), run[1..]);
    }
  }

  lemma {:induction false} RunConcat(s: State, a: seq<Event>, b: seq<Event>)
    requires Valid(s, a) && Valid(Run(s, a), b)
    ensures Valid(s, a + b) && Run(s, a + b) == Run(Run(s, a), b)
    decreases |a|
  {
    if a == [] {
      assert a + b == b;
    } else {
      assert (a + b)[1..] == a[1..] + b;
      RunConcat(Step(s, a[0]), a[1..], b);
    }
  }

  /** In every run from the empty system a deposit being processed has at most one handler on it. */
  lemma OneHolderPerDeposit(run: seq<Event>, j: nat, k: nat)
    requires Valid(EMPTY, run)
    requires j < |Run(EMPTY, run).deliveries| && k < |Run(EMPTY, run).deliveries|
    requires Run(EMPTY, run).deliveries[j].phase.Holds() && Run(EMPTY, run).deliveries[k].phase.Holds()
    requires Run(EMPTY, run).deliveries[j].id == Run(EMPTY, run).deliveries[k].id
    ensures j == k
    ensures Run(EMPTY, run).deliveries[j].id < |Run(EMPTY, run).rows|
    ensures Run(EMPTY, run).rows[Run(EMPTY, run).deliveries[j].id].status == Processing
  {
    RunIsSafe(EMPTY, run);
    assert DeliveryOk(Run(EMPTY, run), Run(EMPTY, run).deliveries[j]);
  }

  // ----- completed and failed are absorbing -----

  lemma TerminalStep(s: State, e: Event, i: nat)
    requires Safe(s) && Enabled(s, e) && i < |s.rows| && s.rows[i].status.Terminal()
    ensures i < |Step(s, e).rows| && Step(s, e).rows[i] == s.rows[i]
  {
    if !e.Creates() {
      assert DeliveryOk(s, s.deliveries[e.k]);
      WritesAreLicensed(s, e);
    }
  }

  /** A settled deposit never changes again: not its status, not its amounts, not its effects. */
  lemma {:induction false} TerminalIsAbsorbing(s: State, run: seq<Event>, i: nat)
    requires Safe(s) && Valid(s, run) && i < |s.rows| && s.rows[i].status.Terminal()
    ensures i < |Run(s, run).rows| && Run(s, run).rows[i] == s.rows[i]
    decreases |run|
  {
    if run != [] {
      TerminalStep(s, run[0], i);
      StepIsSafe(s, run[0]);
      TerminalIsAbsorbing(Step(s, run[0]), run[1..], i);
    }
  }

  // ----- effects counted over runs -----

  datatype Effect = Attempt | Swap | LostSwap | MintCall | Mint | LostMint

  predicate Causes(e: Event, f: Effect) {
    match f
    case Attempt => e.ClaimWin?
    case Swap => e.SwapOk? || e.SwapLost?
    case LostSwap => e.PersistFault? || e.SwapLost?
    case MintCall => e.MintOk? || e.MintFail? || e.MintLost?
    case Mint => e.MintOk? || e.MintLost?
    case LostMint => e.CompleteFault? || e.MintLost?
  }

  function Tally(p: History, f: Effect): nat {
    match f
    case Attempt => p.attempts
    case Swap => p.swaps
    case LostSwap => p.lostSwaps
    case MintCall => p.mintCalls
    case Mint => p.mints
    case LostMint => p.lostMints
  }

  function Books(s: State, i: nat): History {
    if i < |s.rows| then s.rows[i].past else NO_HISTORY
  }

  predicate Hits(s: State, e: Event, i: nat, f: Effect)
    requires Enabled(s, e)
  {
    !e.Creates() && s.deliveries[e.k].id == i && Causes(e, f)
  }

  /** How often a run has the given effect on deposit `i`. */
  ghost function Count(s: State, run: seq<Event>, i: nat, f: Effect): nat
    requires Valid(s, run)
    decreases |run|
  {
    if run == [] then 0
    else (if Hits(s, run[0], i, f) then 1 else 0) + Count(Step(s, run[0]), run[1..], i, f)
  }

  lemma StepBooks(s: State, e: Event, i: nat, f: Effect)
    requires Safe(s) && Enabled(s, e)
    ensures Tally(Books(Step(s, e), i), f) == Tally(Books(s, i), f) + if Hits(s, e, i, f) then 1 else 0
  {
    if !e.Creates() {
      assert DeliveryOk(s, s.deliveries[e.k]);
    }
  }

  lemma {:induction false} BooksCountEffects(s: State, run: seq<Event>, i: nat, f: Effect)
    requires Safe(s) && Valid(s, run)
    ensures Tally(Books(Run(s, run), i), f) == Tally(Books(s, i), f) + Count(s, run, i, f)
    decreases |run|
  {
    if run != [] {
      StepBooks(s, run[0], i, f);
      StepIsSafe(s, run[0]);
      BooksCountEffects(Step(s, run[0]), run[1..], i, f);
    }
  }

  /**
   * USDC deposits, in every run from the empty system: the on-chain swap happens at most once more than
   * it goes unrecorded, and exactly once more if the deposit completes. So a completed deposit was swapped
   * exactly once if and only if no swap went unrecorded.
   */
  lemma UsdcSwapsOnce(run: seq<Event>, i: nat)
    requires Valid(EMPTY, run) && i < |Run(EMPTY, run).rows|
    requires Run(EMPTY, run).rows[i].source == UsdcDeposit
    ensures Count(EMPTY, run, i, LostSwap) <= Count(EMPTY, run, i, Swap) <= Count(EMPTY, run, i, LostSwap) + 1
    ensures Run(EMPTY, run).rows[i].status == Completed ==>
      Count(EMPTY, run, i, Swap) == Count(EMPTY, run, i, LostSwap) + 1
    ensures Run(EMPTY, run).rows[i].status == Completed ==>
      (Count(EMPTY, run, i, Swap) == 1 <==> Count(EMPTY, run, i, LostSwap) == 0)
    ensures Run(EMPTY, run).rows[i].xlmAmount.Some? ==>
      Count(EMPTY, run, i, Swap) == Count(EMPTY, run, i, LostSwap) + 1
  {
    RunIsSafe(EMPTY, run);
    BooksCountEffects(EMPTY, run, i, Swap);
    BooksCountEffects(EMPTY, run, i, LostSwap);
    assert RowOk(Run(EMPTY, run).rows[i]);
  }

  /** Mints of any deposit: one per completion, plus one for each mint that went unrecorded. */
  lemma MintsOncePerCompletion(run: seq<Event>, i: nat)
    requires Valid(EMPTY, run) && i < |Run(EMPTY, run).rows|
    ensures Count(EMPTY, run, i, LostMint) <= Count(EMPTY, run, i, Mint) <= Count(EMPTY, run, i, LostMint) + 1
    ensures Run(EMPTY, run).rows[i].status == Completed ==>
      Count(EMPTY, run, i, Mint) == Count(EMPTY, run, i, LostMint) + 1
    ensures Run(EMPTY, run).rows[i].status == Failed ==>
      Count(EMPTY, run, i, Mint) == Count(EMPTY, run, i, LostMint)
  {
    RunIsSafe(EMPTY, run);
    BooksCountEffects(EMPTY, run, i, Mint);
    BooksCountEffects(EMPTY, run, i, LostMint);
    assert RowOk(Run(EMPTY, run).rows[i]);
  }

  /** An XLM deposit's mint is called at most once, whatever fails or crashes. */
  lemma XlmMintsOnce(run: seq<Event>, i: nat)
    requires Valid(EMPTY, run) && i < |Run(EMPTY, run).rows|
    requires Run(EMPTY, run).rows[i].source == XlmDeposit
    ensures Count(EMPTY, run, i, MintCall) <= 1
    ensures Count(EMPTY, run, i, Swap) == 0
  {
    RunIsSafe(EMPTY, run);
    BooksCountEffects(EMPTY, run, i, MintCall);
    BooksCountEffects(EMPTY, run, i, Swap);
    assert RowOk(Run(EMPTY, run).rows[i]);
  }
}
