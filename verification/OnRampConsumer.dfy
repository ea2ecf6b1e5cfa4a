/**
 * The two queue consumers as they run, statement by statement, against the shared rows and queue.
 * Each handler is proved to perform a run of the protocol in OnRamp, and its outcome is stated in full.
 */
module OnRampConsumer {
  import opened Sequences
  import opened OnRamp

  /** What the outside world answers during one handling of a message. */
  datatype Answers = Answers(
    swap: Option<real>, swapLanded: bool,   // what the swap returned; whether one that threw has moved funds
    mint: bool, mintLanded: bool,           // whether the mint returned; whether one that threw has minted
    claimFails: bool, readFails: bool, rejectFails: bool,
    persistFails: bool, completeFails: bool, releaseFails: bool)
  {
    predicate DatabaseUp() {
      !claimFails && !readFails && !rejectFails && !persistFails && !completeFails && !releaseFails
    }
  }

  class Backend {
    var s: State

    constructor ()
      ensures s == EMPTY
    {
      s := EMPTY;
    }

    /** One atomic step of handler `e.k`, appended to the trace. */
    method Take(e: Event, ghost start: State, ghost trace: seq<Event>) returns (ghost longer: seq<Event>)
      requires !e.Creates() && Enabled(s, e) && Performs(start, trace, s)
      requires s.deliveries[e.k].id < |s.rows|
      modifies this
      ensures Performs(start, longer, s)
      ensures s == Updated(old(s), e.k, NextPhase(old(s).deliveries[e.k], e),
        NextRow(old(s).rows[old(s).deliveries[e.k].id], old(s).deliveries[e.k], e),
        NewCopies(old(s).deliveries[e.k], e))
    {
      Appended(start, trace, s, e);
      longer := trace + [e];
      s := Step(s, e);
    }

    /** The catch block and the consumer's view of it: release or fail the row, then rethrow. */
    method Release(k: nat, a: Answers, ghost start: State, ghost trace: seq<Event>)
      returns (ghost longer: seq<Event>)
      requires Performs(start, trace, s)
      requires k < |s.deliveries| && s.deliveries[k].phase.Releasing? && s.deliveries[k].id < |s.rows|
      requires s.rows[s.deliveries[k].id].status == Processing
      modifies this
      ensures Performs(start, longer, s)
      ensures Moved(old(s), s, k) && s.deliveries[k].phase == Throwing
      ensures RowIs(old(s), s, k, BackOff(old(s).deliveries[k], a)) && SameEffects(old(s), s, k)
    {
      if a.releaseFails {
        longer := Take(ReleaseFault(k), start, trace);
      } else {
        longer := Take(ReleaseOk(k), start, trace);
      }
    }

    /** The conditional updateMany and the read of the claimed row, shared by both jobs. */
    method Claim(k: nat, a: Answers, ghost start: State, ghost trace: seq<Event>)
      returns (claimed: bool, threw: bool, ghost longer: seq<Event>)
      requires Performs(start, trace, s)
      requires k < |s.deliveries| && s.deliveries[k].phase.Delivered? && s.deliveries[k].id < |s.rows|
      modifies this
      ensures Performs(start, longer, s) && Moved(old(s), s, k)
      ensures s.deliveries[k].phase == if claimed then Claimed else if threw then Throwing else Acking
      ensures claimed == (!a.claimFails && !a.readFails && Claimable(old(s), old(s).deliveries[k]))
      ensures threw == (a.claimFails || (a.readFails && Claimable(old(s), old(s).deliveries[k])))
      ensures a.claimFails || !Claimable(old(s), old(s).deliveries[k]) ==> s.rows == old(s).rows
      ensures !a.claimFails && Claimable(old(s), old(s).deliveries[k]) ==>
        RowIs(old(s), s, k, Processing) && SameEffects(old(s), s, k)
    {
      if a.claimFails {
        longer := Take(ClaimFault(k), start, trace);
        assert s.rows == old(s).rows;
        return false, true, longer;
      }
      if !Claimable(s, s.deliveries[k]) {
        longer := Take(ClaimLose(k), start, trace);
        assert s.rows == old(s).rows;
        return false, false, longer;
      }
      longer := Take(ClaimWin(k), start, trace);
      if a.readFails {
        longer := Take(ReadFault(k), start, longer);
        return false, true, longer;
      }
      return true, false, longer;
    }

    /** processUsdcConvertAndMint, from the claim to the return or the exception. */
    method ProcessUsdcConvertAndMint(k: nat, a: Answers) returns (threw: bool, ghost trace: seq<Event>)
      requires k < |s.deliveries| && s.deliveries[k].phase.Delivered? && s.deliveries[k].kind.UsdcDeposit?
      requires s.deliveries[k].id < |s.rows|
      modifies this
      ensures Performs(old(s), trace, s)
      ensures Moved(old(s), s, k) && s.deliveries[k].phase == if threw then Throwing else Acking
      ensures threw == Throws(old(s), old(s).deliveries[k], a) && Handled(old(s), s, k, a)
    {
      ghost var start := s;
      var claimed: bool;
      claimed, threw, trace := Claim(k, a, start, []);
      if !claimed {
        return;
      }
      if s.rows[s.deliveries[k].id].usdcAmount <= 0.0 {
        threw, trace := Refuse(k, a, start, trace);
        return;
      }
      threw, trace := SwapOrResume(k, a, start, trace);
      if threw {
        return;
      }
      threw, trace := MintAndComplete(k, a, start, trace);
    }

    /** A deposit without an amount is failed and acknowledged. */
    method Refuse(k: nat, a: Answers, ghost start: State, ghost trace: seq<Event>)
      returns (threw: bool, ghost longer: seq<Event>)
      requires Performs(start, trace, s)
      requires k < |s.deliveries| && s.deliveries[k].phase.Claimed? && s.deliveries[k].id < |s.rows|
      requires Refused(s.rows[s.deliveries[k].id], s.deliveries[k])
      requires s.rows[s.deliveries[k].id].status == Processing
      modifies this
      ensures Performs(start, longer, s)
      ensures Moved(old(s), s, k) && s.deliveries[k].phase == if threw then Throwing else Acking
      ensures threw == a.rejectFails && SameEffects(old(s), s, k)
      ensures RowIs(old(s), s, k, if a.rejectFails then Processing else Failed)
    {
      if a.rejectFails {
        longer := Take(RejectFault(k), start, trace);
      } else {
        longer := Take(Reject(k), start, trace);
      }
      threw := a.rejectFails;
    }

    /** Step 1: the external swap and its record, skipped when an earlier attempt has recorded one. */
    method SwapOrResume(k: nat, a: Answers, ghost start: State, ghost trace: seq<Event>)
      returns (threw: bool, ghost longer: seq<Event>)
      requires Performs(start, trace, s)
      requires k < |s.deliveries| && s.deliveries[k].phase.Claimed? && s.deliveries[k].kind.UsdcDeposit?
      requires s.deliveries[k].id < |s.rows| && s.rows[s.deliveries[k].id].usdcAmount > 0.0
      requires s.rows[s.deliveries[k].id].status == Processing
      modifies this
      ensures Performs(start, longer, s)
      ensures Moved(old(s), s, k) && s.deliveries[k].phase == if threw then Throwing else ReadyToMint
      ensures threw == SwapThrows(old(s).rows[old(s).deliveries[k].id], old(s).deliveries[k], a)
      ensures SwapOutcome(old(s), s, k, a, threw)
    {
      if s.rows[s.deliveries[k].id].xlmAmount.Some? {
        longer := Take(Resume(k), start, trace);
        return false, longer;
      }
      threw, longer := ExternalSwap(k, a, start, trace);
    }

    /** swapUsdcToXlm and the update that records what it returned. */
    method ExternalSwap(k: nat, a: Answers, ghost start: State, ghost trace: seq<Event>)
      returns (threw: bool, ghost longer: seq<Event>)
      requires Performs(start, trace, s)
      requires k < |s.deliveries| && MustSwap(s.deliveries[k], s.rows)
      requires s.rows[s.deliveries[k].id].status == Processing
      modifies this
      ensures Performs(start, longer, s)
      ensures Moved(old(s), s, k) && s.deliveries[k].phase == if threw then Throwing else ReadyToMint
      ensures threw == (a.swap.None? || a.persistFails) && SwapOutcome(old(s), s, k, a, threw)
    {
      if a.swap.None? {
        longer := Take(if a.swapLanded then SwapLost(k) else SwapFail(k), start, trace);
        longer := Release(k, a, start, longer);
        return true, longer;
      }
      longer := Take(SwapOk(k, a.swap.value), start, trace);
      threw, longer := Record(k, a, start, longer);
    }

    /** The update that records a swap. */
    method Record(k: nat, a: Answers, ghost start: State, ghost trace: seq<Event>)
      returns (threw: bool, ghost longer: seq<Event>)
      requires Performs(start, trace, s)
      requires k < |s.deliveries| && s.deliveries[k].phase.Swapped? && s.deliveries[k].id < |s.rows|
      requires s.rows[s.deliveries[k].id].status == Processing
      modifies this
      ensures Performs(start, longer, s)
      ensures Moved(old(s), s, k) && s.deliveries[k].phase == if threw then Throwing else ReadyToMint
      ensures threw == a.persistFails && SameEffects(old(s), s, k)
      ensures threw ==> RowIs(old(s), s, k, BackOff(old(s).deliveries[k], a))
      ensures !threw ==> var r, r' := old(s).rows[old(s).deliveries[k].id], s.rows[s.deliveries[k].id];
        r' == r.(xlmAmount := Some(old(s).deliveries[k].phase.xlm), past := r'.past)
    {
      if a.persistFails {
        longer := Take(PersistFault(k), start, trace);
        longer := Release(k, a, start, longer);
        return true, longer;
      }
      longer := Take(PersistOk(k), start, trace);
      return false, longer;
    }

    /** The mint and its two possible settlements, shared by both jobs. */
    method MintAndComplete(k: nat, a: Answers, ghost start: State, ghost trace: seq<Event>)
      returns (threw: bool, ghost longer: seq<Event>)
      requires Performs(start, trace, s)
      requires k < |s.deliveries| && s.deliveries[k].phase.ReadyToMint? && s.deliveries[k].id < |s.rows|
      requires s.rows[s.deliveries[k].id].status == Processing
      modifies this
      ensures Performs(start, longer, s)
      ensures Moved(old(s), s, k) && s.deliveries[k].phase == if threw then Throwing else Acking
      ensures threw == (!a.mint || a.completeFails) && MintOutcome(old(s), s, k, a)
    {
      if !a.mint {
        longer := Take(if a.mintLanded then MintLost(k) else MintFail(k), start, trace);
        longer := Release(k, a, start, longer);
        return true, longer;
      }
      longer := Take(MintOk(k), start, trace);
      threw, longer := Complete(k, a, start, longer);
    }

    /** The update that records a mint. */
    method Complete(k: nat, a: Answers, ghost start: State, ghost trace: seq<Event>)
      returns (threw: bool, ghost longer: seq<Event>)
      requires Performs(start, trace, s)
      requires k < |s.deliveries| && s.deliveries[k].phase.Minted? && s.deliveries[k].id < |s.rows|
      requires s.rows[s.deliveries[k].id].status == Processing
      modifies this
      ensures Performs(start, longer, s)
      ensures Moved(old(s), s, k) && s.deliveries[k].phase == if threw then Throwing else Acking
      ensures threw == a.completeFails && SameEffects(old(s), s, k)
      ensures RowIs(old(s), s, k, if a.completeFails then BackOff(old(s).deliveries[k], a) else Completed)
    {
      if a.completeFails {
        longer := Take(CompleteFault(k), start, trace);
        longer := Release(k, a, start, longer);
        return true, longer;
      }
      longer := Take(CompleteOk(k), start, trace);
      return false, longer;
    }

    /** processXlmToAcbu: the sibling that never hands a row back. */
    method ProcessXlmToAcbu(k: nat, a: Answers) returns (threw: bool, ghost trace: seq<Event>)
      requires k < |s.deliveries| && s.deliveries[k].phase.Delivered? && s.deliveries[k].kind.XlmDeposit?
      requires s.deliveries[k].id < |s.rows|
      modifies this
      ensures Performs(old(s), trace, s)
      ensures Moved(old(s), s, k) && s.deliveries[k].phase == if threw then Throwing else Acking
      ensures threw == Throws(old(s), old(s).deliveries[k], a) && Handled(old(s), s, k, a)
    {
      ghost var start := s;
      var claimed: bool;
      claimed, threw, trace := Claim(k, a, start, []);
      if !claimed {
        return;
      }
      trace := Take(Resume(k), start, trace);
      threw, trace := MintAndComplete(k, a, start, trace);
    }

    /**
     * The consumer callback: process the message, then ack it, requeue it or send it to the DLQ. The row ends
     * as the answers say, and exactly when the handling throws and retries are left a copy joins the queue.
     */
    method Consume(k: nat, a: Answers) returns (ghost trace: seq<Event>)
      requires k < |s.deliveries| && s.deliveries[k].phase.Queued? && s.deliveries[k].id < |s.rows|
      modifies this
      ensures Performs(old(s), trace, s)
      ensures |s.rows| == |old(s).rows|
      ensures forall i :: 0 <= i < |s.rows| && i != old(s).deliveries[k].id ==> s.rows[i] == old(s).rows[i]
      ensures Handled(old(s), s, k, a)
      ensures a.DatabaseUp() ==> Settled(old(s), s, k, a)
      ensures s.deliveries == old(s).deliveries[k := old(s).deliveries[k].(phase := Gone)]
        + if Throws(old(s), old(s).deliveries[k], a) && old(s).deliveries[k].retries < MAX_RETRIES
          then [old(s).deliveries[k].(retries := old(s).deliveries[k].retries + 1)] else []
    {
      ghost var start := s;
      ghost var first := Take(Deliver(k), start, []);
      var threw: bool;
      ghost var delivered := s;
      if s.deliveries[k].kind.UsdcDeposit? {
        threw, trace := ProcessUsdcConvertAndMint(k, a);
      } else {
        threw, trace := ProcessXlmToAcbu(k, a);
      }
      ghost var processed := s;
      Joined(start, first, trace, s);
      trace := first + trace;
      trace := Answer(k, threw, start, trace);
      WholeDelivery(start, delivered, processed, s, k, a);
    }

    /** Ack, or requeue with one more retry, or dead-letter. */
    method Answer(k: nat, threw: bool, ghost start: State, ghost trace: seq<Event>)
      returns (ghost longer: seq<Event>)
      requires Performs(start, trace, s)
      requires k < |s.deliveries| && s.deliveries[k].phase == (if threw then Throwing else Acking)
      requires s.deliveries[k].id < |s.rows|
      modifies this
      ensures Performs(start, longer, s) && s.rows == old(s).rows
      ensures s.deliveries == old(s).deliveries[k := old(s).deliveries[k].(phase := Gone)]
        + if threw && old(s).deliveries[k].retries < MAX_RETRIES
          then [old(s).deliveries[k].(retries := old(s).deliveries[k].retries + 1, phase := Queued)] else []
    {
      if !threw {
        longer := Take(Ack(k), start, trace);
      } else if s.deliveries[k].retries >= MAX_RETRIES {
        longer := Take(DeadLetter(k), start, trace);
      } else {
        longer := Take(Requeue(k), start, trace);
        longer := Take(Ack(k), start, longer);
      }
    }
  }

  /** `trace` is a run of the protocol from `start` to `s`. */
  ghost predicate Performs(start: State, trace: seq<Event>, s: State) {
    Valid(start, trace) && Run(start, trace) == s
  }

  function Updated(s: State, k: nat, p: Phase, r: Row, copies: seq<Delivery>): State
    requires k < |s.deliveries| && s.deliveries[k].id < |s.rows|
  {
    State(s.rows[s.deliveries[k].id := r], s.deliveries[k := s.deliveries[k].(phase := p)] + copies)
  }

  lemma Appended(start: State, trace: seq<Event>, s: State, e: Event)
    requires Performs(start, trace, s) && Enabled(s, e)
    ensures Performs(start, trace + [e], Step(s, e))
  {
    RunCons(s, e, []);
    assert [e] + [] == [e];
    RunConcat(start, trace, [e]);
  }

  lemma Joined(start: State, a: seq<Event>, b: seq<Event>, s: State)
    requires Valid(start, a) && Performs(Run(start, a), b, s)
    ensures Performs(start, a + b, s)
  {
    RunConcat(start, a, b);
  }

  /** Handler `k` has advanced; no other handler and no other row has changed. */
  ghost predicate Moved(s: State, t: State, k: nat) {
    && k < |s.deliveries| && |t.deliveries| == |s.deliveries| && |t.rows| == |s.rows|
    && (forall j :: 0 <= j < |s.deliveries| && j != k ==> t.deliveries[j] == s.deliveries[j])
    && t.deliveries[k] == s.deliveries[k].(phase := t.deliveries[k].phase)
    && (forall i :: 0 <= i < |s.rows| && i != s.deliveries[k].id ==> t.rows[i] == s.rows[i])
  }

  /** The row of handler `k` has the given status and keeps its source and amounts. */
  ghost predicate RowIs(s: State, t: State, k: nat, status: Status) {
    && k < |s.deliveries| && s.deliveries[k].id < |s.rows| && s.deliveries[k].id < |t.rows|
    && var r, r' := s.rows[s.deliveries[k].id], t.rows[s.deliveries[k].id];
       r' == r.(status := status, past := r'.past)
  }

  // ----- what one delivery does -----

  /** A USDC deposit without an amount. */
  predicate Refused(r: Row, d: Delivery) { d.kind.UsdcDeposit? && r.usdcAmount <= 0.0 }

  /** A swap is due, and it or its record fails. */
  predicate SwapThrows(r: Row, d: Delivery, a: Answers) {
    d.kind.UsdcDeposit? && r.xlmAmount.None? && (a.swap.None? || a.persistFails)
  }

  /** The handling ends with an exception. */
  predicate Throws(s: State, d: Delivery, a: Answers) {
    || a.claimFails
    || (Claimable(s, d) &&
        (a.readFails ||
         (if Refused(s.rows[d.id], d) then a.rejectFails
          else SwapThrows(s.rows[d.id], d, a) || !a.mint || a.completeFails)))
  }

  /** Where the catch block leaves the row. */
  function BackOff(d: Delivery, a: Answers): Status {
    if a.releaseFails then Processing
    else if d.kind.XlmDeposit? || FinalAttempt(d) then Failed else PendingConvert
  }

  function Count1(b: bool): nat { if b then 1 else 0 }

  /** Nothing has been swapped or minted for the row of handler `k`. */
  ghost predicate SameEffects(s: State, t: State, k: nat) {
    && k < |s.deliveries| && s.deliveries[k].id < |s.rows| && s.deliveries[k].id < |t.rows|
    && var p, p' := s.rows[s.deliveries[k].id].past, t.rows[s.deliveries[k].id].past;
       p'.swaps == p.swaps && p'.mintCalls == p.mintCalls && p'.mints == p.mints
  }

  /** A swap is recorded unless one was recorded before; one that threw counts if it has moved funds. */
  ghost predicate SwapOutcome(s: State, t: State, k: nat, a: Answers, threw: bool)
    requires k < |s.deliveries| && s.deliveries[k].id < |s.rows| && s.deliveries[k].id < |t.rows|
  {
    var d := s.deliveries[k];
    var r, r' := s.rows[d.id], t.rows[d.id];
    && (threw ==> RowIs(s, t, k, BackOff(d, a)))
    && (!threw ==> r' == r.(xlmAmount := if r.xlmAmount.Some? then r.xlmAmount else a.swap, past := r'.past))
    && r'.past.swaps == r.past.swaps + Count1(r.xlmAmount.None? && (a.swap.Some? || a.swapLanded))
    && r'.past.mintCalls == r.past.mintCalls && r'.past.mints == r.past.mints
  }

  /** One mint call, and its settlement. */
  ghost predicate MintOutcome(s: State, t: State, k: nat, a: Answers)
    requires k < |s.deliveries| && s.deliveries[k].id < |s.rows| && s.deliveries[k].id < |t.rows|
  {
    var d := s.deliveries[k];
    var p, p' := s.rows[d.id].past, t.rows[d.id].past;
    && RowIs(s, t, k, if a.mint && !a.completeFails then Completed else BackOff(d, a))
    && p'.swaps == p.swaps && p'.mintCalls == p.mintCalls + 1 && p'.mints == p.mints + Count1(a.mint || a.mintLanded)
  }

  /** Everything one handling does to its row, whatever fails. */
  ghost predicate Handled(s: State, t: State, k: nat, a: Answers)
    requires k < |s.deliveries| && s.deliveries[k].id < |s.rows| && s.deliveries[k].id < |t.rows|
  {
    var d := s.deliveries[k];
    var r, r' := s.rows[d.id], t.rows[d.id];
    if a.claimFails || !Claimable(s, d) then r' == r
    else if a.readFails then RowIs(s, t, k, Processing) && SameEffects(s, t, k)
    else if Refused(r, d) then
      RowIs(s, t, k, if a.rejectFails then Processing else Failed) && SameEffects(s, t, k)
    else if SwapThrows(r, d, a) then SwapOutcome(s, t, k, a, true)
    else
      var swapped := d.kind.UsdcDeposit? && r.xlmAmount.None?;
      && r'.status == (if a.mint && !a.completeFails then Completed else BackOff(d, a))
      && r'.xlmAmount == (if swapped then a.swap else r.xlmAmount)
      && r'.source == r.source && r'.usdcAmount == r.usdcAmount
      && r'.past.swaps == r.past.swaps + Count1(swapped)
      && r'.past.mintCalls == r.past.mintCalls + 1
      && r'.past.mints == r.past.mints + Count1(a.mint || a.mintLanded)
  }

  /** In particular, with the database up: untouched, failed for good, handed back, or completed. */
  ghost predicate Settled(s: State, t: State, k: nat, a: Answers)
    requires k < |s.deliveries| && s.deliveries[k].id < |s.rows| && s.deliveries[k].id < |t.rows|
  {
    var d := s.deliveries[k];
    var r, r' := s.rows[d.id], t.rows[d.id];
    var last := d.kind.XlmDeposit? || d.retries >= MAX_RETRIES - 1;
    var succeeds := a.mint && (d.kind.XlmDeposit? || r.xlmAmount.Some? || a.swap.Some?);
    && (!Claimable(s, d) ==> r' == r)
    && (Claimable(s, d) ==>
          && (Refused(r, d) ==> r'.status == Failed)
          && (!Refused(r, d) && succeeds ==> r'.status == Completed)
          && (!Refused(r, d) && !succeeds ==> r'.status == if last then Failed else PendingConvert))
  }

  /** A delivery from the queue to its answer: only handler `k` and its row have changed in between. */
  lemma WholeDelivery(start: State, delivered: State, processed: State, t: State, k: nat, a: Answers)
    requires k < |start.deliveries| && start.deliveries[k].phase.Queued? && start.deliveries[k].id < |start.rows|
    requires delivered.rows == start.rows
    requires delivered.deliveries == start.deliveries[k := start.deliveries[k].(phase := Delivered)]
    requires Moved(delivered, processed, k) && Handled(delivered, processed, k, a) && t.rows == processed.rows
    requires var threw := Throws(delivered, delivered.deliveries[k], a); var d := processed.deliveries[k];
      && d.phase == (if threw then Throwing else Acking)
      && t.deliveries == processed.deliveries[k := d.(phase := Gone)]
           + if threw && d.retries < MAX_RETRIES then [d.(retries := d.retries + 1, phase := Queued)] else []
    ensures |t.rows| == |start.rows|
    ensures forall i :: 0 <= i < |t.rows| && i != start.deliveries[k].id ==> t.rows[i] == start.rows[i]
    ensures Handled(start, t, k, a) && (a.DatabaseUp() ==> Settled(start, t, k, a))
    ensures t.deliveries == start.deliveries[k := start.deliveries[k].(phase := Gone)]
      + if Throws(start, start.deliveries[k], a) && start.deliveries[k].retries < MAX_RETRIES
        then [start.deliveries[k].(retries := start.deliveries[k].retries + 1)] else []
  {
    assert processed.deliveries[k := processed.deliveries[k].(phase := Gone)]
      == start.deliveries[k := start.deliveries[k].(phase := Gone)];
  }
}
