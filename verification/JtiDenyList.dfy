/**
 * The cross-instance deny-list of single-use tokens (src/utils/jtiDenyList.ts). Times are milliseconds,
 * expiry claims are seconds; the expiry of a token is a property of its id, as in a signed token.
 */
module JtiDenyList {
  import opened Sequences

  /** Seconds until the expiry, rounded up and at least 1. */
  function TtlSeconds(exp: int, now: int): (r: int)
    ensures r >= 1 && now + r * 1000 >= exp * 1000
    ensures r > 1 ==> now + (r - 1) * 1000 < exp * 1000
  {
    var remaining := (exp * 1000 - now + 999) / 1000;
    if remaining > 0 then remaining else 1
  }

  function Pruned(local: map<string, int>, now: int): map<string, int> {
    map jti | jti in local && local[jti] > now :: local[jti]
  }

  /** A key with an expired TTL is absent. */
  predicate LiveKey(redis: map<string, int>, jti: string, now: int) {
    jti in redis && now < redis[jti]
  }

  // ----- the code of one instance -----

  class Redis {
    var keys: map<string, int>

    constructor ()
      ensures keys == map[]
    {
      keys := map[];
    }

    /** SET with EX and NX: the check and the claim are one operation. */
    method SetNx(jti: string, ttl: int, now: int) returns (claimed: bool)
      modifies this
      ensures claimed == !LiveKey(old(keys), jti, now)
      ensures keys == if claimed then old(keys)[jti := now + ttl * 1000] else old(keys)
    {
      claimed := !(jti in keys && now < keys[jti]);
      if claimed {
        keys := keys[jti := now + ttl * 1000];
      }
    }

    method Set(jti: string, ttl: int, now: int)
      modifies this
      ensures keys == old(keys)[jti := now + ttl * 1000]
    {
      keys := keys[jti := now + ttl * 1000];
    }
  }

  class Instance {
    var localDenyList: map<string, int>

    constructor ()
      ensures localDenyList == map[]
    {
      localDenyList := map[];
    }

    /** The pruning loop over the entries. */
    method PruneExpired(now: int)
      modifies this
      ensures localDenyList == Pruned(old(localDenyList), now)
    {
      var todo := localDenyList.Keys;
      while todo != {}
        invariant todo <= old(localDenyList).Keys
        invariant localDenyList == map jti | jti in old(localDenyList)
          && (jti in todo || old(localDenyList)[jti] > now) :: old(localDenyList)[jti]
        decreases |todo|
      {
        var jti :| jti in todo;
        if localDenyList[jti] <= now {
          localDenyList := localDenyList - {jti};
        }
        todo := todo - {jti};
      }
    }

    /** consumeJti up to its await: whether the token is still unknown to this instance. */
    method CheckLocally(jti: string, now: int) returns (unknown: bool)
      modifies this
      ensures localDenyList == Pruned(old(localDenyList), now) && unknown == (jti !in localDenyList)
    {
      PruneExpired(now);
      return jti !in localDenyList;
    }

    /** consumeJti after its await, when the claim was won or Redis did not answer. */
    method Remember(jti: string, exp: int)
      modifies this
      ensures localDenyList == old(localDenyList)[jti := exp * 1000]
    {
      localDenyList := localDenyList[jti := exp * 1000];
    }

    /**
     * consumeJti when no other call of this instance runs during its await, its two clock readings taken at the
     * same instant; `up` says whether Redis answers.
     */
    method ConsumeJti(redis: Redis, jti: string, exp: int, now: int, up: bool) returns (won: bool)
      modifies this, redis
      ensures won <==> !(jti in Pruned(old(localDenyList), now)) && (up ==> !LiveKey(old(redis.keys), jti, now))
      ensures localDenyList == (if won then Pruned(old(localDenyList), now)[jti := exp * 1000]
                                else Pruned(old(localDenyList), now))
      ensures redis.keys == (if won && up then old(redis.keys)[jti := now + TtlSeconds(exp, now) * 1000]
                             else old(redis.keys))
      ensures won && up && now < exp * 1000 ==> LiveKey(redis.keys, jti, now) && redis.keys[jti] >= exp * 1000
    {
      var unknown := CheckLocally(jti, now);
      if !unknown {
        return false;
      }
      if up {
        var claimed := redis.SetNx(jti, TtlSeconds(exp, now), now);
        if !claimed {
          return false;
        }
      }
      Remember(jti, exp);
      return true;
    }

    method RevokeJti(redis: Redis, jti: string, exp: int, now: int, up: bool)
      modifies this, redis
      ensures localDenyList == old(localDenyList)[jti := exp * 1000]
      ensures redis.keys == (if up then old(redis.keys)[jti := now + TtlSeconds(exp, now) * 1000] else old(redis.keys))
    {
      localDenyList := localDenyList[jti := exp * 1000];
      if up {
        redis.Set(jti, TtlSeconds(exp, now), now);
      }
    }

    method IsJtiRevoked(redis: Redis, jti: string, now: int, up: bool) returns (revoked: bool)
      modifies this
      ensures localDenyList == Pruned(old(localDenyList), now)
      ensures revoked <==> jti in Pruned(old(localDenyList), now) || (up && LiveKey(redis.keys, jti, now))
    {
      PruneExpired(now);
      if jti in localDenyList {
        return true;
      }
      revoked := up && jti in redis.keys && now < redis.keys[jti];
    }
  }

  // ----- many instances, in any interleaving -----

  datatype Stage =
    | AwaitingSetNx(ttl: int)          // consumeJti past its local check
    | Claimed(claim: nat, at: int)     // SET NX succeeded, local mirror not yet written
    | Fallback(at: int)                // SET NX failed or timed out, local mirror not yet written
    | LateSetNx(ttl: int)              // a SET NX given up by its caller that may still arrive
    | AwaitingSet(ttl: int)            // revokeJti past its local write
    | Done

  /** `began` is the number of calls that had returned true when this one began. */
  datatype Call = Call(instance: nat, jti: string, began: nat, stage: Stage)

  /** A successful SET NX of a call that is going to return true. */
  datatype Claim = Claim(jti: string, at: int, call: nat)

  /** A call of consumeJti that returned true, decided at `at`: by a claim, or without one when Redis failed. */
  datatype Accept = Accept(jti: string, instance: nat, call: nat, began: nat, claim: Option<nat>, at: int)

  datatype State = State(
    now: int, redis: map<string, int>, locals: map<nat, map<string, int>>, calls: seq<Call>, claims: seq<Claim>,
    accepts: seq<Accept>)

  datatype Event =
    | Tick(ms: nat)
    | Prune(instance: nat)
    | BeginConsume(instance: nat, jti: string)
    | SetNx(k: nat)
    | SetNxFault(k: nat)
    | Land(k: nat)
    | FinishConsume(k: nat)
    | BeginRevoke(instance: nat, jti: string)
    | SetKey(k: nat)
    | SetFault(k: nat)

  /** Seconds at which the token of an id expires. */
  type Expiry = string -> int

  function Local(s: State, i: nat): map<string, int> {
    if i in s.locals then s.locals[i] else map[]
  }

  function WithLocal(s: State, i: nat, local: map<string, int>): State {
    s.(locals := s.locals[i := local])
  }

  predicate Enabled(s: State, e: Event) {
    match e
    case SetNx(k) => k < |s.calls| && s.calls[k].stage.AwaitingSetNx?
    case SetNxFault(k) => k < |s.calls| && s.calls[k].stage.AwaitingSetNx?
    case Land(k) => k < |s.calls| && s.calls[k].stage.LateSetNx?
    case FinishConsume(k) => k < |s.calls| && Decided(s.calls[k])
    case SetKey(k) => k < |s.calls| && s.calls[k].stage.AwaitingSet?
    case SetFault(k) => k < |s.calls| && s.calls[k].stage.AwaitingSet?
    case _ => true
  }

  predicate Decided(c: Call) { c.stage.Claimed? || c.stage.Fallback? }

  function At(s: State, k: nat, stage: Stage): State
    requires k < |s.calls|
  {
    s.(calls := s.calls[k := s.calls[k].(stage := stage)])
  }

  function Begin(s: State, i: nat, jti: string, stage: Stage): State {
    s.(calls := s.calls + [Call(i, jti, |s.accepts|, stage)])
  }

  function AcceptOf(s: State, k: nat): Accept
    requires k < |s.calls| && Decided(s.calls[k])
  {
    var c := s.calls[k];
    Accept(c.jti, c.instance, k, c.began, if c.stage.Claimed? then Some(c.stage.claim) else None, c.stage.at)
  }

  function Step(exp: Expiry, s: State, e: Event): State
    requires Enabled(s, e)
  {
    match e
    case Tick(ms) => s.(now := s.now + ms)
    case Prune(i) => WithLocal(s, i, Pruned(Local(s, i), s.now))
    case BeginConsume(i, jti) =>
      var local := Pruned(Local(s, i), s.now);
      var t := WithLocal(s, i, local);
      if jti in local then t else Begin(t, i, jti, AwaitingSetNx(TtlSeconds(exp(jti), s.now)))
    case SetNx(k) =>
      var c := s.calls[k];
      if LiveKey(s.redis, c.jti, s.now) then At(s, k, Done)
      else At(s, k, Claimed(|s.claims|, s.now)).(
        redis := s.redis[c.jti := s.now + c.stage.ttl * 1000], claims := s.claims + [Claim(c.jti, s.now, k)])
    case SetNxFault(k) =>
      var c := s.calls[k];
      Begin(At(s, k, Fallback(s.now)), c.instance, c.jti, LateSetNx(c.stage.ttl))
    case Land(k) =>
      var c := s.calls[k];
      At(s, k, Done).(
        redis := if LiveKey(s.redis, c.jti, s.now) then s.redis else s.redis[c.jti := s.now + c.stage.ttl * 1000])
    case FinishConsume(k) =>
      var c := s.calls[k];
      WithLocal(At(s, k, Done), c.instance, Local(s, c.instance)[c.jti := exp(c.jti) * 1000])
        .(accepts := s.accepts + [AcceptOf(s, k)])
    case BeginRevoke(i, jti) =>
      Begin(WithLocal(s, i, Local(s, i)[jti := exp(jti) * 1000]), i, jti,
        AwaitingSet(TtlSeconds(exp(jti), s.now)))
    case SetKey(k) =>
      var c := s.calls[k];
      At(s, k, Done).(redis := s.redis[c.jti := s.now + c.stage.ttl * 1000])
    case SetFault(k) => At(s, k, Done)
  }

  ghost predicate Valid(exp: Expiry, s: State, run: seq<Event>)
    decreases |run|
  {
    run == [] || (Enabled(s, run[0]) && Valid(exp, Step(exp, s, run[0]), run[1..]))
  }

  ghost function Run(exp: Expiry, s: State, run: seq<Event>): State
    requires Valid(exp, s, run)
    decreases |run|
  {
    if run == [] then s else Run(exp, Step(exp, s, run[0]), run[1..])
  }

  /** What isJtiRevoked answers at instance `i`. */
  predicate Revoked(s: State, i: nat, jti: string) {
    jti in Pruned(Local(s, i), s.now) || LiveKey(s.redis, jti, s.now)
  }

  // ----- the invariant -----

  /** The TTL of a call under way still reaches the expiry of its token. */
  ghost predicate Covers(exp: Expiry, s: State, c: Call) {
    match c.stage
    case AwaitingSetNx(ttl) => s.now + ttl * 1000 >= exp(c.jti) * 1000
    case AwaitingSet(ttl) => s.now + ttl * 1000 >= exp(c.jti) * 1000
    case LateSetNx(ttl) => s.now + ttl * 1000 >= exp(c.jti) * 1000
    case _ => true
  }

  /** A claimed token stays denied until it expires. */
  ghost predicate Denied(exp: Expiry, s: State, jti: string) {
    s.now < exp(jti) * 1000 ==> jti in s.redis && s.redis[jti] >= exp(jti) * 1000
  }

  ghost predicate Safe(exp: Expiry, s: State) {
    && (forall k :: 0 <= k < |s.calls| ==> Covers(exp, s, s.calls[k]))
    && (forall k :: 0 <= k < |s.claims| ==> Denied(exp, s, s.claims[k].jti) && s.claims[k].at <= s.now)
    && SingleUse(exp, s.claims)
  }

  /** No second claim of a token before it expires. */
  ghost predicate SingleUse(exp: Expiry, claims: seq<Claim>) {
    forall i, j | 0 <= i < j < |claims| ::
      claims[i].jti == claims[j].jti ==> claims[j].at >= exp(claims[j].jti) * 1000
  }

  lemma StepIsSafe(exp: Expiry, s: State, e: Event)
    requires Safe(exp, s) && Enabled(s, e)
    ensures Safe(exp, Step(exp, s, e))
  {
    var t := Step(exp, s, e);
    forall k | 0 <= k < |t.calls| ensures Covers(exp, t, t.calls[k]) {
      if k < |s.calls| {
        assert Covers(exp, s, s.calls[k]);
      }
    }
    if e.SetNx? || e.SetNxFault? || e.Land? || e.SetKey? {
      assert Covers(exp, s, s.calls[e.k]);
    }
    forall k | 0 <= k < |t.claims| ensures Denied(exp, t, t.claims[k].jti) && t.claims[k].at <= t.now {
      if k < |s.claims| {
        assert Denied(exp, s, s.claims[k].jti);
      }
    }
    if e.SetNx? && |t.claims| > |s.claims| {
      forall i | 0 <= i < |s.claims| && s.claims[i].jti == s.calls[e.k].jti
        ensures s.now >= exp(s.calls[e.k].jti) * 1000
      {
        assert Denied(exp, s, s.claims[i].jti);
      }
    }
  }

  lemma {:induction false} RunIsSafe(exp: Expiry, s: State, run: seq<Event>)
    requires Safe(exp, s) && Valid(exp, s, run)
    ensures Safe(exp, Run(exp, s, run))
    decreases |run|
  {
    if run != [] {
      StepIsSafe(exp, s, run[0]);
      RunIsSafe(exp, Step(exp, s, run[0]), run[1..]);
    }
  }

  ghost predicate Fresh(s: State) {
    s.redis == map[] && s.locals == map[] && s.calls == [] && s.claims == [] && s.accepts == []
  }

  /**
   * In every interleaving of any number of instances, Redis failures included: two claims of one token are
   * never both made before it expires, and from the first claim until then every instance that can ask Redis
   * answers "revoked".
   */
  lemma SingleUseInEveryRun(exp: Expiry, s: State, run: seq<Event>)
    requires Fresh(s) && Valid(exp, s, run)
    ensures var t := Run(exp, s, run);
      && (forall i, j | 0 <= i < j < |t.claims| ::
            t.claims[i].jti == t.claims[j].jti ==> t.claims[j].at >= exp(t.claims[j].jti) * 1000)
      && (forall k, i: nat :: 0 <= k < |t.claims| && t.now < exp(t.claims[k].jti) * 1000 ==>
            Revoked(t, i, t.claims[k].jti))
  {
    RunIsSafe(exp, s, run);
    var t := Run(exp, s, run);
    forall k, i: nat | 0 <= k < |t.claims| && t.now < exp(t.claims[k].jti) * 1000
      ensures Revoked(t, i, t.claims[k].jti)
    {
      assert Denied(exp, t, t.claims[k].jti);
    }
  }

  /** A claim is never forgotten: the list of claims only grows. */
  lemma {:induction false} ClaimsOnlyGrow(exp: Expiry, s: State, run: seq<Event>)
    requires Valid(exp, s, run)
    ensures s.claims <= Run(exp, s, run).claims
    decreases |run|
  {
    if run != [] {
      ClaimsOnlyGrow(exp, Step(exp, s, run[0]), run[1..]);
    }
  }

  /** Once claimed, whatever happens afterwards, a token is revoked at every instance until it expires. */
  lemma ClaimHoldsUntilExpiry(exp: Expiry, s: State, before: seq<Event>, after: seq<Event>, k: nat, i: nat)
    requires Fresh(s) && Valid(exp, s, before) && Valid(exp, Run(exp, s, before), after)
    requires k < |Run(exp, s, before).claims|
    ensures var jti := Run(exp, s, before).claims[k].jti; var t := Run(exp, Run(exp, s, before), after);
      t.now < exp(jti) * 1000 ==> Revoked(t, i, jti)
  {
    var m := Run(exp, s, before);
    RunIsSafe(exp, s, before);
    RunIsSafe(exp, m, after);
    ClaimsOnlyGrow(exp, m, after);
    var t := Run(exp, m, after);
    assert t.claims[k] == m.claims[k];
    assert Denied(exp, t, t.claims[k].jti);
  }

  /** Pruning, at any instance and time, changes no answer of any instance. */
  lemma PruningIsInvisible(exp: Expiry, s: State, i: nat, j: nat, jti: string)
    ensures Revoked(Step(exp, s, Prune(i)), j, jti) == Revoked(s, j, jti)
  {
    assert Pruned(Pruned(Local(s, i), s.now), s.now) == Pruned(Local(s, i), s.now);
  }

  // ----- when Redis fails -----

  ghost predicate SameToken(a: Accept, jti: string, i: nat) { a.jti == jti && a.instance == i }

  /** The mirrors hold nothing but expiry times. */
  ghost predicate LocalsExact(exp: Expiry, s: State) {
    forall i, jti :: i in s.locals && jti in s.locals[i] ==> s.locals[i][jti] == exp(jti) * 1000
  }

  /** What was accepted on this instance before a call began had expired by the time `at`. */
  ghost predicate Sequential(exp: Expiry, s: State, began: nat, jti: string, i: nat, at: int) {
    began <= |s.accepts|
    && forall a :: 0 <= a < began && SameToken(s.accepts[a], jti, i) ==> at >= exp(jti) * 1000
  }

  /** The time a call has been decided at, or the present. */
  function DecidedAt(s: State, c: Call): int { if Decided(c) then c.stage.at else s.now }

  ghost predicate CallOk(exp: Expiry, s: State, k: nat)
    requires k < |s.calls|
  {
    var c := s.calls[k];
    && DecidedAt(s, c) <= s.now
    && (c.stage.AwaitingSetNx? || Decided(c) ==> Sequential(exp, s, c.began, c.jti, c.instance, DecidedAt(s, c)))
    && (c.stage.Claimed? ==> ClaimIs(s, c.stage.claim, Claim(c.jti, c.stage.at, k)))
  }

  ghost predicate ClaimIs(s: State, n: nat, claim: Claim) { n < |s.claims| && s.claims[n] == claim }

  ghost predicate AcceptOk(exp: Expiry, s: State, j: nat)
    requires j < |s.accepts|
  {
    var a := s.accepts[j];
    && a.call < |s.calls| && s.calls[a.call].stage.Done? && a.began <= j
    && Sequential(exp, s, a.began, a.jti, a.instance, a.at)
    && (a.claim.Some? ==> ClaimIs(s, a.claim.value, Claim(a.jti, a.at, a.call)))
    && (s.now < exp(a.jti) * 1000 ==> a.jti in Local(s, a.instance))
  }

  ghost predicate Accounted(exp: Expiry, s: State) {
    && LocalsExact(exp, s)
    && (forall k :: 0 <= k < |s.calls| ==> CallOk(exp, s, k))
    && (forall j :: 0 <= j < |s.accepts| ==> AcceptOk(exp, s, j))
    && forall i, j :: 0 <= i < j < |s.accepts| ==> s.accepts[i].call != s.accepts[j].call
  }

  lemma StepKeepsLocals(exp: Expiry, s: State, e: Event)
    requires LocalsExact(exp, s) && Enabled(s, e)
    ensures LocalsExact(exp, Step(exp, s, e))
  {
  }

  /** Mirrors lose only entries that have expired. */
  lemma StepRemembers(exp: Expiry, s: State, e: Event, i: nat, jti: string)
    requires LocalsExact(exp, s) && Enabled(s, e) && jti in Local(s, i)
    ensures Step(exp, s, e).now < exp(jti) * 1000 ==> jti in Local(Step(exp, s, e), i)
  {
  }

  /** A call that begins finds every earlier accept of its instance expired, or it would have been refused. */
  lemma BeginsSequentially(exp: Expiry, s: State, i: nat, jti: string)
    requires Accounted(exp, s) && jti !in Pruned(Local(s, i), s.now)
    ensures Sequential(exp, s, |s.accepts|, jti, i, s.now)
  {
    forall a | 0 <= a < |s.accepts| && SameToken(s.accepts[a], jti, i) ensures s.now >= exp(jti) * 1000 {
      assert AcceptOk(exp, s, a);
    }
  }

  lemma StepKeepsCall(exp: Expiry, s: State, e: Event, k: nat)
    requires Accounted(exp, s) && Enabled(s, e) && k < |Step(exp, s, e).calls|
    ensures CallOk(exp, Step(exp, s, e), k)
  {
    if k < |s.calls| {
      assert CallOk(exp, s, k);
    } else if e.BeginConsume? {
      BeginsSequentially(exp, s, e.instance, e.jti);
    }
  }

  lemma StepKeepsAccept(exp: Expiry, s: State, e: Event, j: nat)
    requires Accounted(exp, s) && Enabled(s, e) && j < |Step(exp, s, e).accepts|
    ensures AcceptOk(exp, Step(exp, s, e), j)
  {
    var t := Step(exp, s, e);
    if j < |s.accepts| {
      assert AcceptOk(exp, s, j);
      if s.accepts[j].jti in Local(s, s.accepts[j].instance) {
        StepRemembers(exp, s, e, s.accepts[j].instance, s.accepts[j].jti);
      }
    } else {
      assert CallOk(exp, s, e.k);
    }
  }

  lemma StepIsAccounted(exp: Expiry, s: State, e: Event)
    requires Accounted(exp, s) && Enabled(s, e)
    ensures Accounted(exp, Step(exp, s, e))
  {
    var t := Step(exp, s, e);
    StepKeepsLocals(exp, s, e);
    forall k | 0 <= k < |t.calls| ensures CallOk(exp, t, k) {
      StepKeepsCall(exp, s, e, k);
    }
    forall j | 0 <= j < |t.accepts| ensures AcceptOk(exp, t, j) {
      StepKeepsAccept(exp, s, e, j);
    }
    forall i, j | 0 <= i < j < |t.accepts| ensures t.accepts[i].call != t.accepts[j].call {
      assert AcceptOk(exp, s, i);
    }
  }

  lemma {:induction false} RunIsAccounted(exp: Expiry, s: State, run: seq<Event>)
    requires Accounted(exp, s) && Valid(exp, s, run)
    ensures Accounted(exp, Run(exp, s, run))
    decreases |run|
  {
    if run != [] {
      StepIsAccounted(exp, s, run[0]);
      RunIsAccounted(exp, Step(exp, s, run[0]), run[1..]);
    }
  }

  lemma {:induction false} AcceptsOnlyGrow(exp: Expiry, s: State, run: seq<Event>)
    requires Valid(exp, s, run)
    ensures s.accepts <= Run(exp, s, run).accepts
    decreases |run|
  {
    if run != [] {
      AcceptsOnlyGrow(exp, Step(exp, s, run[0]), run[1..]);
    }
  }

  /** A call that accepts without a claim has had its SET NX fail. */
  lemma {:induction false} UnclaimedMeansFault(exp: Expiry, s: State, run: seq<Event>, j: nat)
    requires Valid(exp, s, run) && |s.accepts| <= j < |Run(exp, s, run).accepts|
    requires Run(exp, s, run).accepts[j].claim.None?
    ensures var k := Run(exp, s, run).accepts[j].call;
      SetNxFault(k) in run || (k < |s.calls| && s.calls[k].stage.Fallback?)
    decreases |run|
  {
    var s1 := Step(exp, s, run[0]);
    assert run == [run[0]] + run[1..];
    if j < |s1.accepts| {
      AcceptsOnlyGrow(exp, s1, run[1..]);
    } else {
      UnclaimedMeansFault(exp, s1, run[1..], j);
    }
  }

  lemma DistinctClaims(exp: Expiry, s: State, i: nat, j: nat)
    requires Accounted(exp, s) && i < j < |s.accepts|
    ensures var a, b := s.accepts[i], s.accepts[j];
      a.claim.Some? && b.claim.Some? ==>
        && a.claim.value != b.claim.value
        && ClaimIs(s, a.claim.value, Claim(a.jti, a.at, a.call)) && ClaimIs(s, b.claim.value, Claim(b.jti, b.at, b.call))
  {
    assert AcceptOk(exp, s, i) && AcceptOk(exp, s, j);
  }

  /**
   * What is left of single use when Redis fails, in every run. If two calls accept one token, both decided
   * before it expires, then the SET NX of at least one of them failed; and if they ran on one instance, then
   * the second began before the first had returned.
   */
  lemma DoubleAcceptNeedsOutage(exp: Expiry, s: State, run: seq<Event>, i: nat, j: nat)
    requires Fresh(s) && Valid(exp, s, run) && i < j < |Run(exp, s, run).accepts|
    requires var a, b := Run(exp, s, run).accepts[i], Run(exp, s, run).accepts[j];
      a.jti == b.jti && a.at < exp(a.jti) * 1000 && b.at < exp(b.jti) * 1000
    ensures var a, b := Run(exp, s, run).accepts[i], Run(exp, s, run).accepts[j];
      && (SetNxFault(a.call) in run || SetNxFault(b.call) in run)
      && (a.instance == b.instance ==> b.began <= i)
  {
    var t := Run(exp, s, run);
    RunIsSafe(exp, s, run);
    RunIsAccounted(exp, s, run);
    assert AcceptOk(exp, t, j);
    DistinctClaims(exp, t, i, j);
    if t.accepts[i].claim.None? {
      UnclaimedMeansFault(exp, s, run, i);
    } else {
      assert t.accepts[j].claim.None?;
      UnclaimedMeansFault(exp, s, run, j);
    }
  }

  /** An instance that has accepted a token refuses it until it expires, Redis or no Redis. */
  lemma AcceptingInstanceRemembers(exp: Expiry, s: State, run: seq<Event>, j: nat)
    requires Fresh(s) && Valid(exp, s, run) && j < |Run(exp, s, run).accepts|
    ensures var t := Run(exp, s, run); var a := t.accepts[j];
      t.now < exp(a.jti) * 1000 ==> a.jti in Pruned(Local(t, a.instance), t.now)
  {
    RunIsAccounted(exp, s, run);
    assert AcceptOk(exp, Run(exp, s, run), j);
  }

  lemma Prefix(exp: Expiry, s: State, e: Event, rest: seq<Event>)
    requires Enabled(s, e) && Valid(exp, Step(exp, s, e), rest)
    ensures Valid(exp, s, [e] + rest) && Run(exp, s, [e] + rest) == Run(exp, Step(exp, s, e), rest)
  {
    assert ([e] + rest)[1..] == rest;
  }

  /** Both ways it does happen: calls that overlap, on one instance or two ... */
  lemma OverlappingCallsBothAccept(exp: Expiry, s: State, jti: string, a: nat, b: nat) returns (run: seq<Event>)
    requires Fresh(s)
    ensures Valid(exp, s, run)
    ensures var t := Run(exp, s, run);
      && t.now == s.now && |t.accepts| == 2
      && t.accepts[0] == Accept(jti, a, 0, 0, None, s.now) && t.accepts[1] == Accept(jti, b, 1, 0, None, s.now)
  {
    var s1 := Step(exp, s, BeginConsume(a, jti));
    var s2 := Step(exp, s1, BeginConsume(b, jti));
    var s3 := Step(exp, s2, SetNxFault(0));
    var s4 := Step(exp, s3, SetNxFault(1));
    var s5 := Step(exp, s4, FinishConsume(0));
    Prefix(exp, s5, FinishConsume(1), []);
    Prefix(exp, s4, FinishConsume(0), [FinishConsume(1)] + []);
    Prefix(exp, s3, SetNxFault(1), [FinishConsume(0)] + ([FinishConsume(1)] + []));
    Prefix(exp, s2, SetNxFault(0), [SetNxFault(1)] + ([FinishConsume(0)] + ([FinishConsume(1)] + [])));
    run := [SetNxFault(0)] + ([SetNxFault(1)] + ([FinishConsume(0)] + ([FinishConsume(1)] + [])));
    Prefix(exp, s1, BeginConsume(b, jti), run);
    run := [BeginConsume(b, jti)] + run;
    Prefix(exp, s, BeginConsume(a, jti), run);
    run := [BeginConsume(a, jti)] + run;
  }

  /** ... and calls one after the other on two instances. */
  lemma SiblingsBothAccept(exp: Expiry, s: State, jti: string, a: nat, b: nat) returns (run: seq<Event>)
    requires Fresh(s) && a != b
    ensures Valid(exp, s, run)
    ensures var t := Run(exp, s, run);
      && t.now == s.now && |t.accepts| == 2
      && t.accepts[0] == Accept(jti, a, 0, 0, None, s.now) && t.accepts[1] == Accept(jti, b, 2, 1, None, s.now)
  {
    var s1 := Step(exp, s, BeginConsume(a, jti));
    var s2 := Step(exp, s1, SetNxFault(0));
    var s3 := Step(exp, s2, FinishConsume(0));
    var s4 := Step(exp, s3, BeginConsume(b, jti));
    var s5 := Step(exp, s4, SetNxFault(2));
    Prefix(exp, s5, FinishConsume(2), []);
    run := [FinishConsume(2)] + [];
    Prefix(exp, s4, SetNxFault(2), run);
    run := [SetNxFault(2)] + run;
    Prefix(exp, s3, BeginConsume(b, jti), run);
    run := [BeginConsume(b, jti)] + run;
    Prefix(exp, s2, FinishConsume(0), run);
    run := [FinishConsume(0)] + run;
    Prefix(exp, s1, SetNxFault(0), run);
    run := [SetNxFault(0)] + run;
    Prefix(exp, s, BeginConsume(a, jti), run);
    run := [BeginConsume(a, jti)] + run;
  }
}
