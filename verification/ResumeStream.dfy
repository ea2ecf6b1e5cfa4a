/**
 * The resumable change stream (src/config/mongodb.ts): events of a log are yielded one by one, and the
 * token of an event is saved after it has been yielded. Events are numbered by their log position.
 */
module ResumeStream {
  import opened Sequences

  datatype Phase =
    | Closed                  // no generator running
    | Reading(next: nat)      // waiting for the event at this position
    | Yielded(event: nat)     // the consumer has the event, its token is not saved yet

  datatype State = State(logged: nat, saved: Option<nat>, phase: Phase, out: seq<nat>)

  const INITIAL := State(0, None, Closed, [])

  datatype Step = Append | Open | Yield | Save | Crash

  predicate Enabled(s: State, e: Step) {
    match e
    case Append => true
    case Open => s.phase.Closed?
    case Yield => s.phase.Reading? && s.phase.next < s.logged
    case Save => s.phase.Yielded?
    case Crash => !s.phase.Closed?
  }

  /** Without a stored token a stream starts at the end of the log. */
  function StartOf(s: State): nat {
    if s.saved.Some? then s.saved.value + 1 else s.logged
  }

  function Take(s: State, e: Step): State
    requires Enabled(s, e)
  {
    match e
    case Append => s.(logged := s.logged + 1)
    case Open => s.(phase := Reading(StartOf(s)))
    case Yield => s.(phase := Yielded(s.phase.next), out := s.out + [s.phase.next])
    case Save => s.(saved := Some(s.phase.event), phase := Reading(s.phase.event + 1))
    case Crash => s.(phase := Closed)
  }

  ghost predicate Valid(s: State, run: seq<Step>)
    decreases |run|
  {
    run == [] || (Enabled(s, run[0]) && Valid(Take(s, run[0]), run[1..]))
  }

  ghost function Run(s: State, run: seq<Step>): State
    requires Valid(s, run)
    decreases |run|
  {
    if run == [] then s else Run(Take(s, run[0]), run[1..])
  }

  // ----- once a token has been saved -----

  /** The stream stands right behind the stored token. */
  ghost predicate Resumed(s: State) {
    && s.saved.Some? && s.saved.value < s.logged
    && (s.phase.Reading? ==> s.phase.next == s.saved.value + 1)
    && (s.phase.Yielded? ==> s.phase.event == s.saved.value + 1 < s.logged)
  }

  /** Positions from `first` on, each the one before or its successor. */
  ghost predicate InLogOrder(out: seq<nat>, first: nat) {
    && (out != [] ==> out[0] == first)
    && forall i :: 0 < i < |out| ==> out[i] == out[i - 1] || out[i] == out[i - 1] + 1
  }

  function Repeats(out: seq<nat>): nat {
    if |out| < 2 then 0
    else Repeats(out[..|out| - 1]) + if out[|out| - 1] == out[|out| - 2] then 1 else 0
  }

  function Crashes(run: seq<Step>): nat {
    if run == [] then 0 else (if run[0].Crash? then 1 else 0) + Crashes(run[1..])
  }

  /** How the events yielded since position `base` of the output relate to the stored token. */
  ghost predicate Delivered(s: State, base: nat, first: nat, crashes: nat) {
    && Resumed(s) && base <= |s.out| && InLogOrder(s.out[base..], first)
    && first <= s.saved.value + 1
    && (s.out[base..] == [] ==> s.saved.value + 1 == first && !s.phase.Yielded?)
    && (s.out[base..] != [] ==>
          s.out[|s.out| - 1] == s.saved.value || s.out[|s.out| - 1] == s.saved.value + 1)
    && (s.phase.Yielded? ==> s.out[base..] != [] && s.out[|s.out| - 1] == s.phase.event)
    && (s.phase.Reading? && s.out[base..] != [] && s.out[|s.out| - 1] == s.saved.value + 1 ==>
          Repeats(s.out[base..]) < crashes)
    && (s.phase.Closed? && s.out[base..] != [] && s.out[|s.out| - 1] == s.saved.value + 1 ==>
          Repeats(s.out[base..]) < crashes)
    && Repeats(s.out[base..]) <= crashes
  }

  lemma RepeatsOfLonger(out: seq<nat>, x: nat)
    ensures Repeats(out + [x]) == Repeats(out) + if out != [] && out[|out| - 1] == x then 1 else 0
  {
    assert (out + [x])[..|out|] == out;
  }

  lemma StepDelivers(s: State, e: Step, base: nat, first: nat, crashes: nat)
    requires Delivered(s, base, first, crashes) && Enabled(s, e)
    ensures Delivered(Take(s, e), base, first, crashes + if e.Crash? then 1 else 0)
  {
    if e.Yield? {
      var before := s.out[base..];
      assert (s.out + [s.phase.next])[base..] == before + [s.phase.next];
      RepeatsOfLonger(before, s.phase.next);
      assert before != [] ==> before[|before| - 1] == s.out[|s.out| - 1];
    }
  }

  lemma {:induction false} RunDelivers(s: State, run: seq<Step>, base: nat, first: nat, crashes: nat)
    requires Delivered(s, base, first, crashes) && Valid(s, run)
    ensures Delivered(Run(s, run), base, first, crashes + Crashes(run))
    decreases |run|
  {
    if run != [] {
      StepDelivers(s, run[0], base, first, crashes);
      RunDelivers(Take(s, run[0]), run[1..], base, first, crashes + if run[0].Crash? then 1 else 0);
    }
  }

  lemma {:induction false} NoGaps(out: seq<nat>, first: nat, e: nat)
    requires InLogOrder(out, first) && out != [] && first <= e <= out[|out| - 1]
    ensures e in out
    decreases |out|
  {
    if out[|out| - 1] != e {
      var shorter := out[..|out| - 1];
      assert shorter != [];
      NoGaps(shorter, first, e);
    }
  }

  /** From a state right after a save: what the rest of a run yields. */
  lemma AfterSave(s: State, run: seq<Step>)
    requires Resumed(s) && s.phase.Reading? && Valid(s, run)
    ensures |s.out| <= |Run(s, run).out|
    ensures DeliveredSince(s.out, s.saved.value, Run(s, run), Crashes(run))
  {
    var first := s.saved.value + 1;
    assert s.out[|s.out|..] == [];
    RunDelivers(s, run, |s.out|, first, 0);
    var t := Run(s, run);
    var later := t.out[|s.out|..];
    assert later != [] ==> later[|later| - 1] == t.out[|t.out| - 1];
    forall e | later != [] && first <= e <= later[|later| - 1] ensures e in later {
      NoGaps(later, first, e);
    }
  }

  /**
   * What has been yielded since `before`: the events behind `token` in log order, none skipped, repeated at
   * most once per crash; and the stored token has not run ahead of them.
   */
  ghost predicate DeliveredSince(before: seq<nat>, token: nat, t: State, crashes: nat) {
    && |before| <= |t.out| && t.saved.Some?
    && var later := t.out[|before|..];
      && InLogOrder(later, token + 1)
      && Repeats(later) <= crashes
      && (forall e :: later != [] && token < e <= later[|later| - 1] ==> e in later)
      && (forall e :: token < e <= t.saved.value ==> e in later)
  }

  // ----- every state of a run -----

  ghost predicate NonDecreasing(out: seq<nat>) { forall i :: 0 < i < |out| ==> out[i - 1] <= out[i] }

  function Last(out: seq<nat>): nat
    requires out != []
  {
    out[|out| - 1]
  }

  /** How log, token, stream and output are related in every reachable state. */
  ghost predicate Sound(s: State) {
    && NonDecreasing(s.out)
    && (s.out != [] ==> Last(s.out) < s.logged)
    && (s.saved.Some? ==> Resumed(s) && s.out != [] && s.saved.value <= Last(s.out) <= s.saved.value + 1)
    && (s.phase.Reading? ==> s.phase.next <= s.logged && (s.out != [] ==> Last(s.out) <= s.phase.next))
    && (s.phase.Yielded? ==> s.out != [] && Last(s.out) == s.phase.event)
  }

  lemma StepIsSound(s: State, e: Step)
    requires Sound(s) && Enabled(s, e)
    ensures Sound(Take(s, e))
  {
  }

  lemma {:induction false} RunIsSound(s: State, run: seq<Step>)
    requires Sound(s) && Valid(s, run)
    ensures Sound(Run(s, run))
    decreases |run|
  {
    if run != [] {
      StepIsSound(s, run[0]);
      RunIsSound(Take(s, run[0]), run[1..]);
    }
  }

  /** A run can be looked at in two parts. */
  lemma {:induction false} RunSplit(s: State, run: seq<Step>, n: nat)
    requires Valid(s, run) && n <= |run|
    ensures Valid(s, run[..n]) && Valid(Run(s, run[..n]), run[n..])
    ensures Run(Run(s, run[..n]), run[n..]) == Run(s, run)
    decreases n
  {
    if n == 0 {
      assert run[..0] == [] && run[0..] == run;
    } else {
      RunSplit(Take(s, run[0]), run[1..], n - 1);
      assert run[..n] == [run[0]] + run[1..][..n - 1] && run[n..] == run[1..][n - 1..];
      Prefix(s, run[0], run[1..][..n - 1]);
    }
  }

  /**
   * In every run, from every save on, across any number of crashes and restarts: the later events are yielded
   * in log order, none is skipped, and there are at most as many repetitions as crashes.
   */
  lemma AtLeastOnceInOrder(run: seq<Step>, k: nat)
    requires Valid(INITIAL, run) && k < |run| && run[k].Save?
    ensures Valid(INITIAL, run[..k + 1]) && Run(INITIAL, run[..k + 1]).out != []
    ensures var before := Run(INITIAL, run[..k + 1]).out;
      DeliveredSince(before, Last(before), Run(INITIAL, run), Crashes(run[k + 1..]))
  {
    RunSplit(INITIAL, run, k);
    RunSplit(INITIAL, run, k + 1);
    var s := Run(INITIAL, run[..k]);
    RunIsSound(INITIAL, run[..k]);
    assert run[..k + 1] == run[..k] + [Save] && run[k..][0] == Save;
    assert [Save][1..] == [];
    RunConcat(INITIAL, run[..k], [Save]);
    StepIsSound(s, Save);
    AfterSave(Take(s, Save), run[k + 1..]);
  }

  /** Any logged event behind the token is yielded after finitely many steps that are not crashes. */
  lemma {:induction false} ReachesEvent(s: State, e: nat) returns (run: seq<Step>)
    requires Resumed(s) && s.phase.Reading? && s.saved.value < e < s.logged
    ensures Valid(s, run) && Crashes(run) == 0 && e in Run(s, run).out
    ensures |run| == 2 * (e - s.saved.value) - 1
    decreases e - s.saved.value
  {
    var s1 := Take(s, Yield);
    if e == s.phase.next {
      run := [Yield];
      assert run[1..] == [];
      assert s1.out[|s.out|] == e;
    } else {
      var s2 := Take(s1, Save);
      var rest := ReachesEvent(s2, e);
      run := [Yield] + ([Save] + rest);
      assert run[1..] == [Save] + rest && ([Save] + rest)[1..] == rest;
      assert Valid(s1, [Save] + rest) && Run(s1, [Save] + rest) == Run(s2, rest);
    }
  }

  // ----- before the first token -----

  /** The next event due to the consumer: the events are counted from position `first`. */
  function Owed(out: seq<nat>, first: nat): nat { if out == [] then first else Last(out) + 1 }

  /** A stream opened here starts behind an event that is still owed. */
  predicate OpensBehind(s: State, first: nat) {
    s.saved.None? && Owed(s.out, first) < s.logged
  }

  /** Some session opened behind an owed event, without a stored token, goes on to yield one. */
  ghost predicate Skips(s: State, run: seq<Step>, first: nat, behind: bool)
    requires Valid(s, run)
    decreases |run|
  {
    run != [] &&
    match run[0]
    case Open => Skips(Take(s, Open), run[1..], first, OpensBehind(s, first))
    case Yield => behind || Skips(Take(s, Yield), run[1..], first, false)
    case _ => Skips(Take(s, run[0]), run[1..], first, behind)
  }

  /** The running session stands behind an owed event. */
  predicate Behind(s: State, first: nat) { s.phase.Reading? && Owed(s.out, first) < s.phase.next }

  ghost predicate Gapless(out: seq<nat>, first: nat) {
    (out != [] ==> out[0] <= first) && forall i :: 0 < i < |out| ==> out[i] <= out[i - 1] + 1
  }

  lemma GapStep(s: State, e: Step, first: nat)
    requires Sound(s) && Enabled(s, e)
    ensures Gapless(Take(s, e).out, first) <==> Gapless(s.out, first) && !(e.Yield? && Behind(s, first))
    ensures e.Open? ==> (Behind(Take(s, e), first) <==> OpensBehind(s, first))
    ensures e.Append? || e.Yield? || e.Save? ==> (Behind(Take(s, e), first) <==> e.Append? && Behind(s, first))
  {
    var out := Take(s, e).out;
    assert out[..|s.out|] == s.out;
    assert e.Yield? && s.out != [] ==> out[|out| - 1] == s.phase.next && out[|out| - 2] == Last(s.out);
    assert Gapless(out, first) ==> Gapless(out[..|s.out|], first);
  }

  lemma {:induction false} GaplessIff(s: State, run: seq<Step>, first: nat, behind: bool)
    requires Sound(s) && Valid(s, run) && (s.phase.Reading? ==> behind == Behind(s, first))
    requires s.phase.Yielded? ==> !behind
    ensures Gapless(Run(s, run).out, first) <==> Gapless(s.out, first) && !Skips(s, run, first, behind)
    decreases |run|
  {
    if run != [] {
      var e, t := run[0], Take(s, run[0]);
      GapStep(s, e, first);
      StepIsSound(s, e);
      match e
      case Open => GaplessIff(t, run[1..], first, OpensBehind(s, first));
      case Yield => GaplessIff(t, run[1..], first, false);
      case _ => GaplessIff(t, run[1..], first, behind);
    }
  }

  lemma {:induction false} NonDecreasingBetween(out: seq<nat>, i: nat, j: nat)
    requires NonDecreasing(out) && i <= j < |out|
    ensures out[i] <= out[j]
    decreases j
  {
    if i < j {
      NonDecreasingBetween(out, i, j - 1);
    }
  }

  /** In an output that is in order and starts at `first` or later, nothing from there on is missing if there is no gap. */
  lemma CompleteIffGapless(out: seq<nat>, first: nat)
    requires out != [] && NonDecreasing(out) && first <= out[0]
    ensures (forall e :: first <= e <= Last(out) ==> e in out) <==> Gapless(out, first)
  {
    NonDecreasingBetween(out, 0, |out| - 1);
    if Gapless(out, first) {
      forall e | first <= e <= Last(out) ensures e in out {
        NoGaps(out, first, e);
      }
    } else if out[0] > first {
      MissingBelow(out, first);
    } else {
      var i :| 0 < i < |out| && out[i] > out[i - 1] + 1;
      MissingBetween(out, i);
      NonDecreasingBetween(out, 0, i - 1);
      NonDecreasingBetween(out, i, |out| - 1);
    }
  }

  lemma MissingBelow(out: seq<nat>, e: nat)
    requires out != [] && NonDecreasing(out) && e < out[0]
    ensures e !in out
  {
    forall j | 0 <= j < |out| ensures out[j] != e {
      NonDecreasingBetween(out, 0, j);
    }
  }

  lemma MissingBetween(out: seq<nat>, i: nat)
    requires NonDecreasing(out) && 0 < i < |out| && out[i] > out[i - 1] + 1
    ensures out[i - 1] + 1 !in out
  {
    forall j | 0 <= j < |out| ensures out[j] != out[i - 1] + 1 {
      if j < i {
        NonDecreasingBetween(out, j, i - 1);
      } else {
        NonDecreasingBetween(out, i, j);
      }
    }
  }

  /** Since the log had length `first`: nothing before that position is stored, awaited or yielded. */
  ghost predicate Since(s: State, first: nat) {
    && first <= s.logged && (s.out != [] ==> first <= s.out[0])
    && (s.saved.Some? ==> first <= s.saved.value)
    && (s.phase.Reading? ==> first <= s.phase.next)
    && (s.phase.Yielded? ==> first <= s.phase.event)
  }

  lemma {:induction false} RunIsSince(s: State, run: seq<Step>, first: nat)
    requires Since(s, first) && Valid(s, run)
    ensures Since(Run(s, run), first)
    decreases |run|
  {
    if run != [] {
      RunIsSince(Take(s, run[0]), run[1..], first);
    }
  }

  /** Step `k` opens the first stream of the run. */
  ghost predicate FirstOpening(run: seq<Step>, k: nat) {
    k < |run| && run[k].Open? && forall j :: 0 <= j < k ==> !run[j].Open?
  }

  /** Before the first stream is opened nothing happens but appends. */
  lemma {:induction false} OnlyAppends(s: State, run: seq<Step>)
    requires Valid(s, run) && s.phase.Closed? && forall j :: 0 <= j < |run| ==> !run[j].Open?
    ensures Run(s, run) == s.(logged := s.logged + |run|)
    decreases |run|
  {
    if run != [] {
      assert run[0].Append?;
      OnlyAppends(Take(s, run[0]), run[1..]);
    }
  }

  /**
   * In every run that has yielded something, counting from the log position at which the first stream was
   * opened: every event up to the last yielded one has been yielded if and only if no stream opened without
   * a stored token, when an event still owed had already been logged, has yielded anything.
   */
  lemma UnsavedRestartIff(run: seq<Step>, k: nat)
    requires Valid(INITIAL, run) && FirstOpening(run, k) && Run(INITIAL, run).out != []
    ensures Valid(INITIAL, run[..k])
    ensures var out := Run(INITIAL, run).out; var first := Run(INITIAL, run[..k]).logged;
      (forall e :: first <= e <= Last(out) ==> e in out) <==> !Skips(INITIAL, run, first, false)
  {
    RunSplit(INITIAL, run, k);
    OnlyAppends(INITIAL, run[..k]);
    var s := Run(INITIAL, run[..k]);
    GaplessIff(INITIAL, run, s.logged, false);
    RunIsSound(INITIAL, run);
    RunIsSince(s, run[k..], s.logged);
    CompleteIffGapless(Run(INITIAL, run).out, s.logged);
  }

  /** A crash before the first save can lose an event for good: of three events the second is never seen. */
  lemma FirstTokenGap()
    ensures var run := [Open, Append, Yield, Crash, Append, Open, Append, Yield];
      Valid(INITIAL, run) && Run(INITIAL, run).out == [0, 2]
  {
    var s1 := State(0, None, Reading(0), []);
    var s2 := State(1, None, Reading(0), []);
    var s3 := State(1, None, Yielded(0), [0]);
    var s4 := State(1, None, Closed, [0]);
    var s5 := State(2, None, Closed, [0]);
    var s6 := State(2, None, Reading(2), [0]);
    var s7 := State(3, None, Reading(2), [0]);
    Prefix(s7, Yield, []);
    Prefix(s6, Append, [Yield]);
    Prefix(s5, Open, [Append, Yield]);
    Prefix(s4, Append, [Open, Append, Yield]);
    Prefix(s3, Crash, [Append, Open, Append, Yield]);
    Prefix(s2, Yield, [Crash, Append, Open, Append, Yield]);
    Prefix(s1, Append, [Yield, Crash, Append, Open, Append, Yield]);
    Prefix(INITIAL, Open, [Append, Yield, Crash, Append, Open, Append, Yield]);
  }

  /** Nor is anything known of what was logged before the first event is yielded: of three events only the last is seen. */
  lemma FirstYieldGap()
    ensures var run := [Open, Append, Crash, Append, Open, Append, Yield];
      Valid(INITIAL, run) && FirstOpening(run, 0) && Run(INITIAL, run).out == [2]
  {
    var s1 := State(0, None, Reading(0), []);
    var s2 := State(1, None, Reading(0), []);
    var s3 := State(1, None, Closed, []);
    var s4 := State(2, None, Closed, []);
    var s5 := State(2, None, Reading(2), []);
    var s6 := State(3, None, Reading(2), []);
    Prefix(s6, Yield, []);
    Prefix(s5, Append, [Yield]);
    Prefix(s4, Open, [Append, Yield]);
    Prefix(s3, Append, [Open, Append, Yield]);
    Prefix(s2, Crash, [Append, Open, Append, Yield]);
    Prefix(s1, Append, [Crash, Append, Open, Append, Yield]);
    Prefix(INITIAL, Open, [Append, Crash, Append, Open, Append, Yield]);
  }

  lemma Prefix(s: State, e: Step, rest: seq<Step>)
    requires Enabled(s, e) && Valid(Take(s, e), rest)
    ensures Valid(s, [e] + rest) && Run(s, [e] + rest) == Run(Take(s, e), rest)
  {
    assert ([e] + rest)[1..] == rest;
  }

  lemma {:induction false} RunConcat(s: State, a: seq<Step>, b: seq<Step>)
    requires Valid(s, a) && Valid(Run(s, a), b)
    ensures Valid(s, a + b) && Run(s, a + b) == Run(Run(s, a), b)
    decreases |a|
  {
    if a == [] {
      assert a + b == b;
    } else {
      assert (a + b)[1..] == a[1..] + b;
      RunConcat(Take(s, a[0]), a[1..], b);
    }
  }

  // ----- the generator -----

  class Consumer {
    var s: State

    constructor ()
      ensures s == INITIAL
    {
      s := INITIAL;
    }

    method Perform(e: Step, ghost start: State, ghost trace: seq<Step>) returns (ghost longer: seq<Step>)
      requires Enabled(s, e) && Valid(start, trace) && Run(start, trace) == s
      modifies this
      ensures s == Take(old(s), e) && Valid(start, longer) && Run(start, longer) == s
    {
      longer := trace + [e];
      assert [e][1..] == [];
      RunConcat(start, trace, [e]);
      s := Take(s, e);
    }

    /**
     * watchWithResumeToken over the events now in the log, abandoned after `limit` events: before the
     * token of the last one is saved, or after. It is a run of the machine, and it yields the events
     * behind the starting point one after the other.
     */
    method WatchWithResumeToken(limit: nat, dropLastToken: bool) returns (ghost trace: seq<Step>)
      requires s.phase.Closed?
      modifies this
      ensures Valid(old(s), trace) && Run(old(s), trace) == s && s.phase.Closed?
      ensures s.logged == old(s).logged && |s.out| >= |old(s).out| && s.out[..|old(s).out|] == old(s).out
      ensures |s.out| - |old(s).out| <= limit
      ensures forall i :: |old(s).out| <= i < |s.out| ==> s.out[i] == StartOf(old(s)) + (i - |old(s).out|)
      ensures !dropLastToken && |s.out| > |old(s).out| ==> s.saved == Some(s.out[|s.out| - 1])
      ensures StartOf(old(s)) + limit <= s.logged ==> |s.out| == |old(s).out| + limit
    {
      ghost var start := s;
      trace := Perform(Open, start, []);
      var n := 0;
      while n < limit && s.phase.next < s.logged
        invariant 0 <= n <= limit && s.phase.Reading? && s.phase.next == StartOf(start) + n
        invariant Valid(start, trace) && Run(start, trace) == s && s.logged == start.logged
        invariant |s.out| == |start.out| + n && s.out[..|start.out|] == start.out
        invariant forall i :: |start.out| <= i < |s.out| ==> s.out[i] == StartOf(start) + (i - |start.out|)
        invariant n > 0 ==> s.saved == Some(s.out[|s.out| - 1])
      {
        trace := Perform(Yield, start, trace);
        n := n + 1;
        if n == limit && dropLastToken {
          trace := Perform(Crash, start, trace);
          return;
        }
        trace := Perform(Save, start, trace);
      }
      trace := Perform(Crash, start, trace);
    }
  }
}
