/**
 * Which calls of consumeJti accept a token before it expires, exactly, in every run of the deny-list
 * (src/utils/jtiDenyList.ts), Redis failures and late commands included.
 */
module JtiAccepts {
  import opened Sequences
  import opened JtiDenyList

  /** The token has not expired. */
  predicate Early(exp: Expiry, s: State, jti: string) { s.now < exp(jti) * 1000 }

  lemma {:induction false} TimePasses(exp: Expiry, s: State, run: seq<Event>)
    requires Valid(exp, s, run)
    ensures s.now <= Run(exp, s, run).now
    decreases |run|
  {
    if run != [] {
      TimePasses(exp, Step(exp, s, run[0]), run[1..]);
    }
  }

  // ----- the key in Redis -----

  /** A command for the key of the token reaches Redis: a SET NX, on time or late, or the SET of a revocation. */
  predicate Commands(s: State, e: Event, jti: string)
    requires Enabled(s, e)
  {
    (e.SetNx? || e.Land? || e.SetKey?) && s.calls[e.k].jti == jti
  }

  ghost predicate Reached(exp: Expiry, s: State, run: seq<Event>, jti: string)
    requires Valid(exp, s, run)
    decreases |run|
  {
    run != [] && (Commands(s, run[0], jti) || Reached(exp, Step(exp, s, run[0]), run[1..], jti))
  }

  /** Every key written, and every key about to be, lives until its token expires. */
  ghost predicate KeysLast(exp: Expiry, s: State) {
    && (forall jti :: jti in s.redis ==> s.redis[jti] >= exp(jti) * 1000)
    && forall k :: 0 <= k < |s.calls| ==> Covers(exp, s, s.calls[k])
  }

  lemma StepKeysLast(exp: Expiry, s: State, e: Event)
    requires KeysLast(exp, s) && Enabled(s, e)
    ensures KeysLast(exp, Step(exp, s, e))
  {
    var t := Step(exp, s, e);
    if e.SetNx? || e.SetNxFault? || e.Land? || e.SetKey? {
      assert Covers(exp, s, s.calls[e.k]);
    }
    forall k | 0 <= k < |t.calls| ensures Covers(exp, t, t.calls[k]) {
      if k < |s.calls| {
        assert Covers(exp, s, s.calls[k]);
      }
    }
  }

  lemma StepReaches(exp: Expiry, s: State, e: Event, jti: string)
    requires Enabled(s, e)
    ensures jti in Step(exp, s, e).redis <==> jti in s.redis || Commands(s, e, jti)
  {
  }

  lemma {:induction false} RunReaches(exp: Expiry, s: State, run: seq<Event>, jti: string)
    requires KeysLast(exp, s) && Valid(exp, s, run)
    ensures KeysLast(exp, Run(exp, s, run))
    ensures jti in Run(exp, s, run).redis <==> jti in s.redis || Reached(exp, s, run, jti)
    decreases |run|
  {
    if run != [] {
      StepKeysLast(exp, s, run[0]);
      StepReaches(exp, s, run[0], jti);
      RunReaches(exp, Step(exp, s, run[0]), run[1..], jti);
    }
  }

  /** Until the token expires its key is there if and only if some command for it has reached Redis. */
  lemma KeyLiveIff(exp: Expiry, s: State, run: seq<Event>, jti: string)
    requires Fresh(s) && Valid(exp, s, run) && Early(exp, Run(exp, s, run), jti)
    ensures var t := Run(exp, s, run); LiveKey(t.redis, jti, t.now) <==> Reached(exp, s, run, jti)
  {
    RunReaches(exp, s, run, jti);
  }

  /** Which call wins the claim: the one whose SET NX is the first command for the token to reach Redis. */
  lemma ClaimWinsIff(exp: Expiry, s: State, run: seq<Event>, k: nat)
    requires Fresh(s) && Valid(exp, s, run) && Enabled(Run(exp, s, run), SetNx(k))
    requires Early(exp, Run(exp, s, run), Run(exp, s, run).calls[k].jti)
    ensures var t := Run(exp, s, run);
      Step(exp, t, SetNx(k)).calls[k].stage.Claimed? <==> !Reached(exp, s, run, t.calls[k].jti)
  {
    KeyLiveIff(exp, s, run, Run(exp, s, run).calls[k].jti);
  }

  // ----- the mirror of one instance -----

  /** The instance takes note of the token: it accepts it, or revokes it. */
  predicate Notes(s: State, e: Event, i: nat, jti: string)
    requires Enabled(s, e)
  {
    || (e.FinishConsume? && s.calls[e.k].instance == i && s.calls[e.k].jti == jti)
    || (e.BeginRevoke? && e.instance == i && e.jti == jti)
  }

  ghost predicate Noted(exp: Expiry, s: State, run: seq<Event>, i: nat, jti: string)
    requires Valid(exp, s, run)
    decreases |run|
  {
    run != [] && (Notes(s, run[0], i, jti) || Noted(exp, Step(exp, s, run[0]), run[1..], i, jti))
  }

  lemma StepNotes(exp: Expiry, s: State, e: Event, i: nat, jti: string)
    requires LocalsExact(exp, s) && Enabled(s, e) && Early(exp, s, jti)
    ensures jti in Local(Step(exp, s, e), i) <==> jti in Local(s, i) || Notes(s, e, i, jti)
  {
  }

  lemma {:induction false} RunNotes(exp: Expiry, s: State, run: seq<Event>, i: nat, jti: string)
    requires LocalsExact(exp, s) && Valid(exp, s, run) && Early(exp, Run(exp, s, run), jti)
    ensures LocalsExact(exp, Run(exp, s, run))
    ensures jti in Local(Run(exp, s, run), i) <==> jti in Local(s, i) || Noted(exp, s, run, i, jti)
    decreases |run|
  {
    if run != [] {
      TimePasses(exp, s, run);
      StepKeepsLocals(exp, s, run[0]);
      StepNotes(exp, s, run[0], i, jti);
      RunNotes(exp, Step(exp, s, run[0]), run[1..], i, jti);
    }
  }

  /** Until the token expires an instance knows it if and only if it has accepted or revoked it. */
  lemma LocallyKnownIff(exp: Expiry, s: State, run: seq<Event>, i: nat, jti: string)
    requires Fresh(s) && Valid(exp, s, run) && Early(exp, Run(exp, s, run), jti)
    ensures var t := Run(exp, s, run);
      jti in Pruned(Local(t, i), t.now) <==> Noted(exp, s, run, i, jti)
  {
    RunNotes(exp, s, run, i, jti);
  }

  /** Whether consumeJti refuses the token at once, without asking Redis. */
  lemma RefusedAtOnceIff(exp: Expiry, s: State, run: seq<Event>, i: nat, jti: string)
    requires Fresh(s) && Valid(exp, s, run) && Early(exp, Run(exp, s, run), jti)
    ensures var t := Run(exp, s, run);
      Step(exp, t, BeginConsume(i, jti)).calls == t.calls <==> Noted(exp, s, run, i, jti)
  {
    LocallyKnownIff(exp, s, run, i, jti);
  }

  /** What isJtiRevoked answers before the expiry, whatever has happened. */
  lemma RevokedIff(exp: Expiry, s: State, run: seq<Event>, i: nat, jti: string)
    requires Fresh(s) && Valid(exp, s, run) && Early(exp, Run(exp, s, run), jti)
    ensures Revoked(Run(exp, s, run), i, jti) <==> Noted(exp, s, run, i, jti) || Reached(exp, s, run, jti)
  {
    LocallyKnownIff(exp, s, run, i, jti);
    KeyLiveIff(exp, s, run, jti);
  }

  // ----- how many calls accept -----

  /** A call for the token comes to accept it, and has only to write its mirror before it returns true. */
  predicate Decides(exp: Expiry, s: State, e: Event, jti: string)
    requires Enabled(s, e)
  {
    && (e.SetNx? || e.SetNxFault?) && s.calls[e.k].jti == jti && Early(exp, s, jti)
    && Decided(Step(exp, s, e).calls[e.k])
  }

  /** A SET NX for the token fails or times out. */
  predicate Fails(exp: Expiry, s: State, e: Event, jti: string)
    requires Enabled(s, e)
  {
    e.SetNxFault? && s.calls[e.k].jti == jti && Early(exp, s, jti)
  }

  ghost function Decisions(exp: Expiry, s: State, run: seq<Event>, jti: string): nat
    requires Valid(exp, s, run)
    decreases |run|
  {
    if run == [] then 0
    else (if Decides(exp, s, run[0], jti) then 1 else 0) + Decisions(exp, Step(exp, s, run[0]), run[1..], jti)
  }

  ghost function Failures(exp: Expiry, s: State, run: seq<Event>, jti: string): nat
    requires Valid(exp, s, run)
    decreases |run|
  {
    if run == [] then 0
    else (if Fails(exp, s, run[0], jti) then 1 else 0) + Failures(exp, Step(exp, s, run[0]), run[1..], jti)
  }

  /** The first command for the token to reach Redis is a SET NX, and comes before the expiry. */
  ghost predicate FirstIsSetNx(exp: Expiry, s: State, run: seq<Event>, jti: string)
    requires Valid(exp, s, run)
    decreases |run|
  {
    run != [] &&
    if Commands(s, run[0], jti) then run[0].SetNx? && Early(exp, s, jti)
    else FirstIsSetNx(exp, Step(exp, s, run[0]), run[1..], jti)
  }

  lemma {:induction false} DecisionsExactly(exp: Expiry, s: State, run: seq<Event>, jti: string)
    requires KeysLast(exp, s) && Valid(exp, s, run)
    ensures Decisions(exp, s, run, jti) ==
      Failures(exp, s, run, jti) + if jti !in s.redis && FirstIsSetNx(exp, s, run, jti) then 1 else 0
    decreases |run|
  {
    if run != [] {
      StepKeysLast(exp, s, run[0]);
      StepReaches(exp, s, run[0], jti);
      DecisionsExactly(exp, Step(exp, s, run[0]), run[1..], jti);
    }
  }

  function AcceptedBefore(jti: string, limit: int): Accept -> int {
    (a: Accept) => if a.jti == jti && a.at < limit then 1 else 0
  }

  function DecidedBefore(jti: string, limit: int): Call -> int {
    (c: Call) => if Decided(c) && c.jti == jti && c.stage.at < limit then 1 else 0
  }

  /** Accepts of the token decided before it expires: those returned, and those about to return. */
  function AcceptCount(exp: Expiry, s: State, jti: string): int {
    SumBy(s.accepts, AcceptedBefore(jti, exp(jti) * 1000)) + SumBy(s.calls, DecidedBefore(jti, exp(jti) * 1000))
  }

  lemma OneMoreCall(calls: seq<Call>, k: nat, stage: Stage, more: seq<Call>, f: Call -> int)
    requires k < |calls|
    ensures SumBy(calls[k := calls[k].(stage := stage)] + more, f) ==
      SumBy(calls, f) - f(calls[k]) + f(calls[k].(stage := stage)) + SumBy(more, f)
  {
    SumByUpdate(calls, k, calls[k].(stage := stage), f);
    SumByConcat(calls[k := calls[k].(stage := stage)], more, f);
  }

  lemma FinishCounts(exp: Expiry, s: State, k: nat, jti: string)
    requires Enabled(s, FinishConsume(k))
    ensures AcceptCount(exp, Step(exp, s, FinishConsume(k)), jti) == AcceptCount(exp, s, jti)
  {
    OneMoreCall(s.calls, k, Done, [], DecidedBefore(jti, exp(jti) * 1000));
    assert s.calls[k := s.calls[k].(stage := Done)] + [] == s.calls[k := s.calls[k].(stage := Done)];
    SumByConcat(s.accepts, [AcceptOf(s, k)], AcceptedBefore(jti, exp(jti) * 1000));
  }

  lemma BeginCounts(exp: Expiry, s: State, e: Event, jti: string)
    requires e.BeginConsume? || e.BeginRevoke?
    ensures AcceptCount(exp, Step(exp, s, e), jti) == AcceptCount(exp, s, jti)
  {
    var t := Step(exp, s, e);
    if t.calls != s.calls {
      SumByConcat(s.calls, [t.calls[|s.calls|]], DecidedBefore(jti, exp(jti) * 1000));
    }
  }

  /** A command that reaches Redis, or fails to, moves its call to another stage. */
  lemma MoveCounts(exp: Expiry, s: State, e: Event, jti: string)
    requires Enabled(s, e) && (e.SetNx? || e.SetNxFault? || e.Land? || e.SetKey? || e.SetFault?)
    ensures AcceptCount(exp, Step(exp, s, e), jti) == AcceptCount(exp, s, jti) + if Decides(exp, s, e, jti) then 1 else 0
  {
    var t := Step(exp, s, e);
    OneMoreCall(s.calls, e.k, t.calls[e.k].stage, t.calls[|s.calls|..], DecidedBefore(jti, exp(jti) * 1000));
    assert t.calls == s.calls[e.k := s.calls[e.k].(stage := t.calls[e.k].stage)] + t.calls[|s.calls|..];
  }

  lemma StepCounts(exp: Expiry, s: State, e: Event, jti: string)
    requires Enabled(s, e)
    ensures AcceptCount(exp, Step(exp, s, e), jti) == AcceptCount(exp, s, jti) + if Decides(exp, s, e, jti) then 1 else 0
  {
    match e
    case Tick(_) =>
    case Prune(_) =>
    case BeginConsume(_, _) => BeginCounts(exp, s, e, jti);
    case BeginRevoke(_, _) => BeginCounts(exp, s, e, jti);
    case FinishConsume(k) => FinishCounts(exp, s, k, jti);
    case _ => MoveCounts(exp, s, e, jti);
  }

  lemma {:induction false} RunCounts(exp: Expiry, s: State, run: seq<Event>, jti: string)
    requires Valid(exp, s, run)
    ensures AcceptCount(exp, Run(exp, s, run), jti) == AcceptCount(exp, s, jti) + Decisions(exp, s, run, jti)
    decreases |run|
  {
    if run != [] {
      StepCounts(exp, s, run[0], jti);
      RunCounts(exp, Step(exp, s, run[0]), run[1..], jti);
    }
  }

  /**
   * In every run: the number of calls that accept a token before it expires is the number of its SET NX that
   * fail, plus one if the first command for it to reach Redis is a SET NX. So more than one accepts exactly
   * when there are two of these.
   */
  lemma AcceptsExactly(exp: Expiry, s: State, run: seq<Event>, jti: string)
    requires Fresh(s) && Valid(exp, s, run)
    ensures AcceptCount(exp, Run(exp, s, run), jti) ==
      Failures(exp, s, run, jti) + if FirstIsSetNx(exp, s, run, jti) then 1 else 0
    ensures AcceptCount(exp, Run(exp, s, run), jti) > 1 <==>
      Failures(exp, s, run, jti) >= 2 || (Failures(exp, s, run, jti) == 1 && FirstIsSetNx(exp, s, run, jti))
  {
    RunCounts(exp, s, run, jti);
    DecisionsExactly(exp, s, run, jti);
  }

  // ----- without failures -----

  /** No SET NX for the token fails, and nobody revokes it. */
  ghost predicate Undisturbed(exp: Expiry, s: State, run: seq<Event>, jti: string)
    requires Valid(exp, s, run)
    decreases |run|
  {
    run == []
    || (&& !(run[0].SetNxFault? && s.calls[run[0].k].jti == jti) && !(run[0].BeginRevoke? && run[0].jti == jti)
        && Undisturbed(exp, Step(exp, s, run[0]), run[1..], jti))
  }

  /** Some SET NX for the token reaches Redis before the expiry. */
  ghost predicate SetNxArrives(exp: Expiry, s: State, run: seq<Event>, jti: string)
    requires Valid(exp, s, run)
    decreases |run|
  {
    run != []
    && ((run[0].SetNx? && s.calls[run[0].k].jti == jti && Early(exp, s, jti))
        || SetNxArrives(exp, Step(exp, s, run[0]), run[1..], jti))
  }

  ghost predicate OnlyConsumes(s: State, jti: string) {
    forall k :: 0 <= k < |s.calls| && s.calls[k].jti == jti ==>
      !s.calls[k].stage.LateSetNx? && !s.calls[k].stage.AwaitingSet?
  }

  lemma {:induction false} NoneArrivesLate(exp: Expiry, s: State, run: seq<Event>, jti: string)
    requires Valid(exp, s, run) && !Early(exp, s, jti)
    ensures !SetNxArrives(exp, s, run, jti)
    decreases |run|
  {
    if run != [] {
      NoneArrivesLate(exp, Step(exp, s, run[0]), run[1..], jti);
    }
  }

  lemma {:induction false} UndisturbedRun(exp: Expiry, s: State, run: seq<Event>, jti: string)
    requires Valid(exp, s, run) && Undisturbed(exp, s, run, jti) && OnlyConsumes(s, jti)
    ensures Failures(exp, s, run, jti) == 0
    ensures FirstIsSetNx(exp, s, run, jti) <==> SetNxArrives(exp, s, run, jti)
    decreases |run|
  {
    if run != [] {
      var t := Step(exp, s, run[0]);
      UndisturbedRun(exp, t, run[1..], jti);
      if Commands(s, run[0], jti) && !Early(exp, s, jti) {
        NoneArrivesLate(exp, t, run[1..], jti);
      }
    }
  }

  /**
   * Where no SET NX for the token fails and nobody revokes it, exactly one call accepts it before it expires,
   * however many instances try, as soon as one SET NX has reached Redis in time; and none otherwise.
   */
  lemma ExactlyOneAccepts(exp: Expiry, s: State, run: seq<Event>, jti: string)
    requires Fresh(s) && Valid(exp, s, run) && Undisturbed(exp, s, run, jti)
    ensures AcceptCount(exp, Run(exp, s, run), jti) == if SetNxArrives(exp, s, run, jti) then 1 else 0
  {
    AcceptsExactly(exp, s, run, jti);
    UndisturbedRun(exp, s, run, jti);
  }
}
