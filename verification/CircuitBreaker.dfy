/** The circuit breaker (src/utils/circuitBreaker.ts) against a specification by its call history. */
module CircuitBreaker {
  import opened Sequences

  datatype Mode = Closed | Open | HalfOpen

  datatype Options = Options(failureThreshold: int, cooldownMs: int, successThreshold: int)

  datatype State = State(mode: Mode, failureCount: nat, successCount: nat, lastFailureTime: Option<int>)

  const INITIAL := State(Closed, 0, 0, None)

  /** A call, with the clock reading it makes if it makes one. GetMetrics is GetState. */
  datatype Call =
    | CanExecute(now: int)
    | RecordSuccess
    | RecordFailure(now: int)
    | GetState(now: int)
    | Reset

  function TransitionTo(s: State, mode: Mode): State {
    if s.mode == mode then s
    else match mode
      case Closed => s.(mode := mode, failureCount := 0, successCount := 0)
      case HalfOpen => s.(mode := mode, successCount := 0)
      case Open => s.(mode := mode)
  }

  /** The truth test on `lastFailureTime` treats 0 like null. */
  predicate CooledDown(o: Options, s: State, now: int) {
    && s.lastFailureTime.Some? && s.lastFailureTime.value != 0
    && now - s.lastFailureTime.value >= o.cooldownMs
  }

  function Wake(o: Options, s: State, now: int): State {
    if s.mode == Open && CooledDown(o, s, now) then TransitionTo(s, HalfOpen) else s
  }

  function Success(o: Options, s: State): State {
    match s.mode
    case HalfOpen =>
      var t := s.(successCount := s.successCount + 1);
      if t.successCount >= o.successThreshold then TransitionTo(t, Closed) else t
    case Closed => s.(failureCount := 0)
    case Open => s
  }

  function Fail(o: Options, s: State, now: int): State {
    var t := s.(failureCount := s.failureCount + 1, lastFailureTime := Some(now));
    if s.mode == HalfOpen || (s.mode == Closed && t.failureCount >= o.failureThreshold)
    then TransitionTo(t, Open) else t
  }

  function Step(o: Options, s: State, c: Call): State {
    match c
    case CanExecute(now) => Wake(o, s, now)
    case GetState(now) => Wake(o, s, now)
    case RecordSuccess => Success(o, s)
    case RecordFailure(now) => Fail(o, s, now)
    case Reset => INITIAL
  }

  /** Whether canExecute lets the request through. */
  predicate Allows(o: Options, s: State, now: int) { s.mode != Open || CooledDown(o, s, now) }

  class CircuitBreaker {
    var mode: Mode
    var failureCount: nat
    var successCount: nat
    var lastFailureTime: Option<int>
    const options: Options

    function View(): State
      reads this
    {
      State(mode, failureCount, successCount, lastFailureTime)
    }

    constructor (options: Options)
      ensures View() == INITIAL && this.options == options
    {
      this.options := options;
      mode, failureCount, successCount, lastFailureTime := Closed, 0, 0, None;
    }

    method SwitchTo(newMode: Mode)
      modifies this
      ensures View() == TransitionTo(old(View()), newMode)
    {
      if mode != newMode {
        mode := newMode;
        if newMode == Closed {
          failureCount := 0;
          successCount := 0;
        } else if newMode == HalfOpen {
          successCount := 0;
        }
      }
    }

    method CanExecute(now: int) returns (allowed: bool)
      modifies this
      ensures View() == Step(options, old(View()), Call.CanExecute(now))
      ensures allowed == Allows(options, old(View()), now)
      ensures !allowed ==> old(mode) == Open && mode == Open
      ensures old(mode) != Open ==> allowed && mode == old(mode)
    {
      if mode == Closed {
        return true;
      }
      if mode == Open {
        if lastFailureTime.Some? && lastFailureTime.value != 0
          && now - lastFailureTime.value >= options.cooldownMs {
          SwitchTo(HalfOpen);
          return true;
        }
        return false;
      }
      return true;
    }

    method RecordSuccess()
      modifies this
      ensures View() == Step(options, old(View()), Call.RecordSuccess)
    {
      if mode == HalfOpen {
        successCount := successCount + 1;
        if successCount >= options.successThreshold {
          SwitchTo(Closed);
        }
      } else if mode == Closed {
        failureCount := 0;
      }
    }

    method RecordFailure(now: int)
      modifies this
      ensures View() == Step(options, old(View()), Call.RecordFailure(now))
    {
      failureCount := failureCount + 1;
      lastFailureTime := Some(now);
      if mode == HalfOpen {
        SwitchTo(Open);
      } else if mode == Closed && failureCount >= options.failureThreshold {
        SwitchTo(Open);
      }
    }

    method GetState(now: int) returns (m: Mode)
      modifies this
      ensures View() == Step(options, old(View()), Call.GetState(now)) && m == mode
    {
      if mode == Open && lastFailureTime.Some? && lastFailureTime.value != 0 {
        if now - lastFailureTime.value >= options.cooldownMs {
          SwitchTo(HalfOpen);
        }
      }
      m := mode;
    }

    method Reset()
      modifies this
      ensures View() == Step(options, old(View()), Call.Reset)
    {
      SwitchTo(Closed);
      failureCount := 0;
      successCount := 0;
      lastFailureTime := None;
    }
  }

  // ----- histories -----

  /** The state after a history of calls. */
  function After(o: Options, h: seq<Call>): State {
    if h == [] then INITIAL else Step(o, After(o, h[..|h| - 1]), h[|h| - 1])
  }

  ghost predicate Positive(o: Options) { o.failureThreshold >= 1 && o.successThreshold >= 1 }

  function Failures(h: seq<Call>): nat {
    if h == [] then 0 else Failures(h[..|h| - 1]) + if h[|h| - 1].RecordFailure? then 1 else 0
  }

  function Successes(h: seq<Call>): nat {
    if h == [] then 0 else Successes(h[..|h| - 1]) + if h[|h| - 1].RecordSuccess? then 1 else 0
  }

  /** Throughout h[j..] the breaker is in the given mode. */
  ghost predicate Stays(o: Options, h: seq<Call>, j: nat, mode: Mode) {
    j <= |h| && forall m :: j <= m <= |h| ==> After(o, h[..m]).mode == mode
  }

  /** Nothing since `j` has restarted the count of failures, and something did just before, or nothing has happened. */
  ghost predicate CountingFailuresSince(o: Options, h: seq<Call>, j: nat) {
    && Stays(o, h, j, Closed)
    && (forall m :: j <= m < |h| ==> !h[m].RecordSuccess? && !h[m].Reset?)
    && (j == 0 || h[j - 1].RecordSuccess? || h[j - 1].Reset? || After(o, h[..j - 1]).mode != Closed)
  }

  lemma Prefixes(h: seq<Call>)
    requires h != []
    ensures forall m :: 0 <= m < |h| ==> h[..|h| - 1][..m] == h[..m]
    ensures h[..|h|] == h
    ensures forall j :: 0 <= j < |h| ==> h[j..][..|h| - j - 1] == h[..|h| - 1][j..] && h[j..][|h| - j - 1] == h[|h| - 1]
  {
  }

  /** The failure count of a closed breaker is the number of failures since counting last restarted. */
  lemma {:induction false} ClosedCount(o: Options, h: seq<Call>) returns (j: nat)
    requires Positive(o) && After(o, h).mode == Closed
    ensures CountingFailuresSince(o, h, j)
    ensures After(o, h).failureCount == Failures(h[j..]) < o.failureThreshold
    decreases |h|
  {
    if h == [] {
      return 0;
    }
    Prefixes(h);
    var last, before := h[|h| - 1], h[..|h| - 1];
    if After(o, before).mode == Closed && !last.RecordSuccess? && !last.Reset? {
      j := ClosedCount(o, before);
      assert h[j..] != [];
    } else {
      j := |h|;
    }
  }

  /** A closed breaker opens exactly on the failureThreshold-th failure since counting last restarted. */
  lemma OpensExactlyOnThreshold(o: Options, h: seq<Call>, c: Call) returns (j: nat)
    requires Positive(o) && After(o, h).mode == Closed
    ensures CountingFailuresSince(o, h, j)
    ensures Step(o, After(o, h), c).mode != Closed <==>
      c.RecordFailure? && Failures(h[j..]) + 1 == o.failureThreshold
    ensures Step(o, After(o, h), c).mode != HalfOpen
  {
    j := ClosedCount(o, h);
  }

  /** `m` is the latest failure, and no reset has followed it. */
  ghost predicate LatestFailure(h: seq<Call>, m: nat) {
    && m < |h| && h[m].RecordFailure?
    && forall i :: m < i < |h| ==> !h[i].RecordFailure? && !h[i].Reset?
  }

  lemma {:induction false} TracksLatestFailure(o: Options, h: seq<Call>) returns (m: nat)
    requires After(o, h).mode != Closed
    ensures LatestFailure(h, m) && After(o, h).lastFailureTime == Some(h[m].now)
    decreases |h|
  {
    Prefixes(h);
    var last, before := h[|h| - 1], h[..|h| - 1];
    if last.RecordFailure? {
      m := |h| - 1;
    } else {
      m := TracksLatestFailure(o, before);
    }
  }

  /** The cooldown after a failure stamped `failed` is over; a failure stamped 0 is not recognised as one. */
  predicate Recovered(o: Options, failed: int, now: int) { failed != 0 && now - failed >= o.cooldownMs }

  /** While open, execution is refused exactly during the cooldown after the latest failure. */
  lemma RefusesDuringCooldown(o: Options, h: seq<Call>, now: int) returns (m: nat)
    requires After(o, h).mode == Open
    ensures LatestFailure(h, m)
    ensures Allows(o, After(o, h), now) <==> Recovered(o, h[m].now, now)
    ensures Step(o, After(o, h), CanExecute(now)).mode == HalfOpen <==> Recovered(o, h[m].now, now)
  {
    m := TracksLatestFailure(o, h);
  }

  /**
   * After every history a request is refused if and only if the breaker is open and the cooldown after its
   * latest failure is not over; a closed one refuses nobody.
   */
  lemma RefusedIff(o: Options, h: seq<Call>, now: int) returns (m: nat)
    ensures After(o, h).mode == Open ==> LatestFailure(h, m)
    ensures !Allows(o, After(o, h), now) <==>
      After(o, h).mode == Open && LatestFailure(h, m) && !Recovered(o, h[m].now, now)
  {
    if After(o, h).mode == Open {
      m := TracksLatestFailure(o, h);
    } else {
      m := 0;
    }
  }

  /** A request is all that lets an open breaker try again, and trying changes nothing else. */
  lemma RequestsOnlyWake(o: Options, s: State, now: int)
    ensures var t := Step(o, s, CanExecute(now));
      && (t.mode != s.mode ==> s.mode == Open && t.mode == HalfOpen && t.successCount == 0 && Allows(o, s, now))
      && (t.mode == s.mode ==> t == s)
      && t.failureCount == s.failureCount && t.lastFailureTime == s.lastFailureTime
      && Step(o, s, GetState(now)) == t
  {
  }

  /** Calls that neither fail nor reset. */
  ghost predicate Passive(calls: seq<Call>) {
    forall i :: 0 <= i < |calls| ==> !calls[i].RecordFailure? && !calls[i].Reset?
  }

  /** The call looks at the clock and finds the cooldown over. */
  predicate Wakes(o: Options, failed: int, c: Call) {
    (c.CanExecute? || c.GetState?) && Recovered(o, failed, c.now)
  }

  /**
   * Whatever follows without another failure or a reset, the breaker is still open if and only if none of
   * those calls came after the cooldown.
   */
  lemma {:induction false} StaysOpenIff(o: Options, h: seq<Call>, more: seq<Call>) returns (m: nat)
    requires After(o, h).mode == Open && Passive(more)
    ensures LatestFailure(h, m) && After(o, h).lastFailureTime == Some(h[m].now)
    ensures After(o, h + more).mode == Open <==> forall i :: 0 <= i < |more| ==> !Wakes(o, h[m].now, more[i])
    ensures After(o, h + more).mode == Open ==> After(o, h + more) == After(o, h)
    decreases |more|
  {
    if more == [] {
      m := TracksLatestFailure(o, h);
      assert h + more == h;
    } else {
      var before, last := more[..|more| - 1], more[|more| - 1];
      var m' := StaysOpenIff(o, h, before);
      m := m';
      assert (h + more)[..|h + more| - 1] == h + before;
    }
  }

  /** After a failure stamped 0 the breaker stays open forever, whatever the clock says later. */
  lemma ZeroTimestampSticks(o: Options, h: seq<Call>, more: seq<Call>, now: int)
    requires After(o, h).mode == Open && After(o, h).lastFailureTime == Some(0) && Passive(more)
    ensures After(o, h + more).mode == Open && !Allows(o, After(o, h + more), now)
  {
    var m := StaysOpenIff(o, h, more);
  }

  /** The breaker has been half open since call `j - 1` woke it. */
  ghost predicate TrialSince(o: Options, h: seq<Call>, j: nat) {
    && 0 < j && Stays(o, h, j, HalfOpen) && After(o, h[..j - 1]).mode == Open
    && forall m :: j <= m < |h| ==> !h[m].RecordFailure? && !h[m].Reset?
  }

  lemma {:induction false} TrialCount(o: Options, h: seq<Call>) returns (j: nat)
    requires Positive(o) && After(o, h).mode == HalfOpen
    ensures TrialSince(o, h, j)
    ensures After(o, h).successCount == Successes(h[j..]) < o.successThreshold
    decreases |h|
  {
    Prefixes(h);
    var before := h[..|h| - 1];
    if After(o, before).mode == HalfOpen {
      j := TrialCount(o, before);
      assert h[j..] != [];
    } else {
      j := |h|;
    }
  }

  /**
   * Without a reset a breaker that is not closed closes exactly on the successThreshold-th success of a trial
   * in which nothing has failed, never directly from open; and a trial ends with the first failure.
   */
  lemma ClosesExactlyOnThreshold(o: Options, h: seq<Call>, c: Call) returns (j: nat)
    requires Positive(o) && After(o, h).mode != Closed && !c.Reset?
    ensures j <= |h| && (After(o, h).mode == HalfOpen ==> TrialSince(o, h, j))
    ensures Step(o, After(o, h), c).mode == Closed <==>
      After(o, h).mode == HalfOpen && c.RecordSuccess? && Successes(h[j..]) + 1 == o.successThreshold
    ensures After(o, h).mode == HalfOpen ==> (Step(o, After(o, h), c).mode == Open <==> c.RecordFailure?)
  {
    if After(o, h).mode == HalfOpen {
      j := TrialCount(o, h);
    } else {
      j := 0;
    }
  }

  function Requests(clock: seq<int>): seq<Call> {
    seq(|clock|, i requires 0 <= i < |clock| => CanExecute(clock[i]))
  }

  lemma AfterLonger(o: Options, h: seq<Call>, c: Call, longer: seq<Call>)
    requires longer == h + [c]
    ensures After(o, longer) == Step(o, After(o, h), c)
    ensures forall m :: 0 <= m <= |h| ==> longer[..m] == h[..m]
    ensures longer[..|longer|] == longer && h[..|h|] == h
  {
    assert longer[..|longer| - 1] == h;
  }

  lemma StaysLonger(o: Options, h: seq<Call>, c: Call, longer: seq<Call>, j: nat, mode: Mode)
    requires Stays(o, h, j, mode) && longer == h + [c] && After(o, longer).mode == mode
    ensures Stays(o, longer, j, mode)
  {
    AfterLonger(o, h, c, longer);
    forall m | j <= m <= |longer| ensures After(o, longer[..m]).mode == mode {
      if m <= |h| {
        assert longer[..m] == h[..m];
      } else {
        assert longer[..m] == longer;
      }
    }
  }

  lemma RequestInTrial(o: Options, h: seq<Call>, c: Call, longer: seq<Call>, j: nat)
    requires TrialSince(o, h, j) && After(o, h).mode == HalfOpen && c.CanExecute? && longer == h + [c]
    ensures After(o, longer) == After(o, h) && TrialSince(o, longer, j)
  {
    AfterLonger(o, h, c, longer);
    StaysLonger(o, h, c, longer, j, HalfOpen);
    assert longer[..j - 1] == h[..j - 1];
  }

  /**
   * A trial is not limited to one request: however many requests ask, at whatever times, each is let through
   * and the trial goes on as it was.
   */
  lemma {:induction false} TrialAdmitsEveryRequest(o: Options, h: seq<Call>, clock: seq<int>, now: int) returns (j: nat)
    requires Positive(o) && After(o, h).mode == HalfOpen
    ensures After(o, h + Requests(clock)) == After(o, h) && Allows(o, After(o, h + Requests(clock)), now)
    ensures TrialSince(o, h, j) && TrialSince(o, h + Requests(clock), j)
    decreases |clock|
  {
    if clock == [] {
      j := TrialCount(o, h);
      assert h + Requests(clock) == h;
    } else {
      var before, last := clock[..|clock| - 1], CanExecute(clock[|clock| - 1]);
      j := TrialAdmitsEveryRequest(o, h, before, now);
      assert h + Requests(clock) == h + Requests(before) + [last];
      RequestInTrial(o, h + Requests(before), last, h + Requests(clock), j);
    }
  }
}
