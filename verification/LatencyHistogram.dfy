/** The latency histogram (src/middleware/metrics.ts). Durations are exact reals. */
module LatencyHistogram {
  import opened Sequences

  const FIRST: nat := 0
  const BOUNDARY_COUNT: nat := 11
  const BUCKETS: nat := 12

  const P50: nat := 50
  const P95: nat := 95
  const P99: nat := 99

  /** The bucket boundaries, in milliseconds. */
  function Boundary(i: nat): real {
    match i
    case 0 => 5.0
    case 1 => 10.0
    case 2 => 25.0
    case 3 => 50.0
    case 4 => 100.0
    case 5 => 250.0
    case 6 => 500.0
    case 7 => 1000.0
    case 8 => 2500.0
    case 9 => 5000.0
    case _ => 10000.0
  }
  const MAX_OBSERVATIONS: nat := 10000

  function Id(x: real): real { x }

  /** `findIndex`: the first boundary not below the duration, or one past the last. */
  function BucketOf(d: real, from: nat): (r: nat)
    requires from <= BOUNDARY_COUNT
    ensures from <= r <= BOUNDARY_COUNT
    ensures forall i :: from <= i < r ==> d > Boundary(i)
    ensures r < BOUNDARY_COUNT ==> d <= Boundary(r)
    decreases BOUNDARY_COUNT - from
  {
    if from == BOUNDARY_COUNT || d <= Boundary(from) then from else BucketOf(d, from + 1)
  }

  function CountAtMost(s: seq<real>, bound: real): nat {
    if s == [] then 0 else CountAtMost(s[..|s| - 1], bound) + if s[|s| - 1] <= bound then 1 else 0
  }

  function CountInBucket(s: seq<real>, i: nat): nat {
    if s == [] then 0 else CountInBucket(s[..|s| - 1], i) + if BucketOf(s[|s| - 1], FIRST) == i then 1 else 0
  }

  /** The bucket counts of the recorded durations. */
  function BucketCounts(s: seq<real>): (r: seq<nat>)
    ensures |r| == BUCKETS && forall i :: 0 <= i < BUCKETS ==> r[i] == CountInBucket(s, i)
  {
    seq(BUCKETS, i requires 0 <= i < BUCKETS => CountInBucket(s, i))
  }

  /** How many durations fall into the first `k` buckets. */
  function CountInFirst(s: seq<real>, k: nat): nat {
    if s == [] then 0 else CountInFirst(s[..|s| - 1], k) + if BucketOf(s[|s| - 1], FIRST) < k then 1 else 0
  }

  /** The last `MAX_OBSERVATIONS` elements, or all of them. */
  function Window(s: seq<real>): (r: seq<real>)
    ensures |r| == (if |s| < 10000 then |s| else 10000) && r == s[|s| - |r|..]
  {
    if |s| <= MAX_OBSERVATIONS then s else s[|s| - MAX_OBSERVATIONS..]
  }

  /** Push, and shift when the window has grown too long. */
  function Pushed(window: seq<real>, d: real): seq<real> {
    var longer := window + [d];
    if |longer| > MAX_OBSERVATIONS then longer[1..] else longer
  }

  predicate LessEqual(x: real, y: real) { x <= y }

  function Percentile(window: seq<real>, p: nat): real
    requires p <= 100
  {
    if window == [] then 0.0
    else
      LengthOfSorted(window);
      Sort(window, LessEqual)[RankOf(|window|, p)]
  }

  /** `max(0, min(ceil(p / 100 * n) - 1, n - 1))` */
  function RankOf(n: nat, p: nat): (r: nat)
    requires n > 0 && p <= 100
    ensures r < n
    ensures 100 * (r + 1) >= p * n
    ensures r > 0 ==> 100 * r < p * n
  {
    RankBounds(n, p);
    Max(0, Min((p * n + 99) / 100 - 1, n - 1))
  }

  function Min(x: int, y: int): int { if x <= y then x else y }
  function Max(x: int, y: int): int { if x >= y then x else y }

  lemma RankBounds(n: nat, p: nat)
    requires p <= 100
    ensures p * n <= 100 * n
  {
  }

  lemma LengthOfSorted(s: seq<real>)
    ensures |Sort(s, LessEqual)| == |s|
  {
    SortCorrect(s, LessEqual);
  }

  datatype Snapshot = Snapshot(
    endpoint: string, count: nat, sumMs: real, p50: real, p95: real, p99: real,
    le: seq<nat>,   // one entry per boundary
    leInf: nat)

  /** The cumulative loop over the buckets. */
  method Accumulate(counts: seq<nat>, ghost recorded: seq<real>) returns (le: seq<nat>, leInf: nat)
    requires counts == BucketCounts(recorded)
    ensures |le| == BOUNDARY_COUNT && leInf == |recorded|
    ensures forall i :: 0 <= i < BOUNDARY_COUNT ==> le[i] == CountAtMost(recorded, Boundary(i))
  {
    le := [];
    var cumulative := 0;
    NoneInFirst(recorded);
    for i := 0 to BOUNDARY_COUNT
      invariant |le| == i && cumulative == CountInFirst(recorded, i)
      invariant forall j :: 0 <= j < i ==> le[j] == CountInFirst(recorded, j + 1)
    {
      cumulative := cumulative + counts[i];
      NextBucket(recorded, i);
      le := le + [cumulative];
    }
    forall j | 0 <= j < BOUNDARY_COUNT ensures le[j] == CountAtMost(recorded, Boundary(j)) {
      FirstBucketsAreBounded(recorded, j);
    }
    leInf := cumulative + counts[BOUNDARY_COUNT];
    AllCounted(recorded);
  }

  lemma AllCounted(s: seq<real>)
    ensures CountInFirst(s, BOUNDARY_COUNT) + CountInBucket(s, BOUNDARY_COUNT) == |s|
  {
    NextBucket(s, BOUNDARY_COUNT);
    AllInFirst(s);
  }

  /** Buckets, window, count and sum are those of the recorded durations. */
  ghost predicate Reflects(buckets: seq<nat>, window: seq<real>, count: nat, sum: real, recorded: seq<real>) {
    && buckets == BucketCounts(recorded) && window == Window(recorded)
    && count == |recorded| && sum == TotalBy(recorded, Id)
  }

  class LatencyHistogram {
    var observations: seq<real>
    var bucketCounts: seq<nat>
    var count: nat
    var sumMs: real
    /** Every duration recorded since the last reset. */
    ghost var recorded: seq<real>

    ghost predicate Valid()
      reads this
    {
      Reflects(bucketCounts, observations, count, sumMs, recorded)
    }

    constructor ()
      ensures Valid() && recorded == []
    {
      observations, count, sumMs, recorded := [], 0, 0.0, [];
      bucketCounts := NoCounts();
      NothingCounted();
    }

    method Record(durationMs: real)
      requires Valid()
      modifies this
      ensures Valid() && recorded == old(recorded) + [durationMs]
    {
      var idx := BucketOf(durationMs, FIRST);
      OneMore(bucketCounts, observations, count, sumMs, recorded, durationMs, idx);
      Store(durationMs, idx);
    }

    /** The updates alone: count, sum, push and shift, bucket. */
    method Store(durationMs: real, idx: nat)
      requires idx < |bucketCounts|
      modifies this
      ensures count == old(count) + 1 && sumMs == old(sumMs) + durationMs
      ensures observations == Pushed(old(observations), durationMs)
      ensures bucketCounts == old(bucketCounts)[idx := old(bucketCounts)[idx] + 1]
      ensures recorded == old(recorded) + [durationMs]
    {
      count := count + 1;
      sumMs := sumMs + durationMs;
      observations := observations + [durationMs];
      if |observations| > MAX_OBSERVATIONS {
        observations := observations[1..];
      }
      bucketCounts := bucketCounts[idx := bucketCounts[idx] + 1];
      recorded := recorded + [durationMs];
    }

    method TakeSnapshot(endpoint: string) returns (s: Snapshot)
      requires Valid()
      ensures s.endpoint == endpoint && s.count == |recorded| && s.sumMs == TotalBy(recorded, Id)
      ensures |s.le| == BOUNDARY_COUNT
      ensures forall i :: 0 <= i < BOUNDARY_COUNT ==> s.le[i] == CountAtMost(recorded, Boundary(i))
      ensures s.le[0] == CountAtMost(recorded, 5.0) && s.le[1] == CountAtMost(recorded, 10.0)
      ensures s.le[2] == CountAtMost(recorded, 25.0) && s.le[3] == CountAtMost(recorded, 50.0)
      ensures s.le[4] == CountAtMost(recorded, 100.0) && s.le[5] == CountAtMost(recorded, 250.0)
      ensures s.le[6] == CountAtMost(recorded, 500.0) && s.le[7] == CountAtMost(recorded, 1000.0)
      ensures s.le[8] == CountAtMost(recorded, 2500.0) && s.le[9] == CountAtMost(recorded, 5000.0)
      ensures s.le[10] == CountAtMost(recorded, 10000.0)
      ensures s.leInf == s.count
      ensures s.p50 == Percentile(Window(recorded), P50) && s.p95 == Percentile(Window(recorded), P95)
      ensures s.p99 == Percentile(Window(recorded), P99)
      ensures s.p50 <= s.p95 <= s.p99
      ensures recorded == [] ==> s.p50 == s.p95 == s.p99 == 0.0
    {
      var le, leInf := Accumulate(bucketCounts, recorded);
      PercentilesAreOrdered(observations, P50, P95);
      PercentilesAreOrdered(observations, P95, P99);
      s := Snapshot(endpoint, count, sumMs, Percentile(observations, P50), Percentile(observations, P95),
        Percentile(observations, P99), le, leInf);
    }

    method Reset()
      requires Valid()
      modifies this
      ensures Valid() && recorded == []
    {
      observations, count, sumMs, recorded := [], 0, 0.0, [];
      bucketCounts := NoCounts();
      NothingCounted();
    }
  }

  function NoCounts(): seq<nat> {
    seq(BUCKETS, _ => 0)
  }

  lemma NothingCounted()
    ensures NoCounts() == BucketCounts([])
  {
  }

  /** What one more duration does to everything a histogram keeps. */
  lemma OneMore(buckets: seq<nat>, window: seq<real>, count: nat, sum: real, s: seq<real>, d: real, b: nat)
    requires Reflects(buckets, window, count, sum, s) && b == BucketOf(d, FIRST)
    ensures Reflects(buckets[b := buckets[b] + 1], Pushed(window, d), count + 1, sum + d, s + [d])
  {
    BucketsSlide(s, d, b);
    WindowSlides(s, d);
    TotalByConcat(s, [d], Id);
    assert [d][1..] == [];
  }

  lemma BucketsSlide(s: seq<real>, d: real, b: nat)
    requires b == BucketOf(d, FIRST)
    ensures BucketCounts(s + [d]) == BucketCounts(s)[b := BucketCounts(s)[b] + 1]
  {
    var slid := BucketCounts(s)[b := BucketCounts(s)[b] + 1];
    forall i | 0 <= i < BUCKETS ensures BucketCounts(s + [d])[i] == slid[i] {
      BucketSlides(s, d, b, i);
    }
  }

  lemma BucketSlides(s: seq<real>, d: real, b: nat, i: nat)
    requires b == BucketOf(d, FIRST)
    ensures CountInBucket(s + [d], i) == CountInBucket(s, i) + if i == b then 1 else 0
  {
    assert (s + [d])[..|s|] == s;
  }

  lemma WindowSlides(s: seq<real>, d: real)
    ensures Window(s + [d]) == Pushed(Window(s), d)
  {
  }

  // ----- buckets -----

  lemma {:induction false} NoneInFirst(s: seq<real>)
    ensures CountInFirst(s, 0) == 0
  {
    if s != [] {
      NoneInFirst(s[..|s| - 1]);
    }
  }

  lemma {:induction false} AllInFirst(s: seq<real>)
    ensures CountInFirst(s, BUCKETS) == |s|
  {
    if s != [] {
      AllInFirst(s[..|s| - 1]);
    }
  }

  lemma {:induction false} NextBucket(s: seq<real>, k: nat)
    ensures CountInFirst(s, k + 1) == CountInFirst(s, k) + CountInBucket(s, k)
  {
    if s != [] {
      NextBucket(s[..|s| - 1], k);
    }
  }

  lemma BoundariesIncrease(i: nat, j: nat)
    requires i <= j < BOUNDARY_COUNT
    ensures Boundary(i) <= Boundary(j)
  {
  }

  /** The first k + 1 buckets hold exactly the durations up to the boundary of the last of them. */
  lemma {:induction false} FirstBucketsAreBounded(s: seq<real>, k: nat)
    requires k < BOUNDARY_COUNT
    ensures CountInFirst(s, k + 1) == CountAtMost(s, Boundary(k))
  {
    if s != [] {
      FirstBucketsAreBounded(s[..|s| - 1], k);
      var b := BucketOf(s[|s| - 1], FIRST);
      if b <= k {
        BoundariesIncrease(b, k);
      }
    }
  }

  // ----- percentiles -----

  lemma {:induction false} CountConcat(a: seq<real>, b: seq<real>, bound: real)
    ensures CountAtMost(a + b, bound) == CountAtMost(a, bound) + CountAtMost(b, bound)
    decreases |b|
  {
    if b == [] {
      assert a + b == a;
    } else {
      assert (a + b)[..|a + b| - 1] == a + b[..|b| - 1];
      CountConcat(a, b[..|b| - 1], bound);
    }
  }

  lemma {:induction false} CountPermutation(a: seq<real>, b: seq<real>, bound: real)
    requires multiset(a) == multiset(b)
    ensures CountAtMost(a, bound) == CountAtMost(b, bound)
    decreases |a|
  {
    if a == [] {
      assert |multiset(b)| == 0;
    } else {
      var k := CutPermutation(a, b);
      CountPermutation(a[1..], b[..k] + b[k + 1..], bound);
      assert a == [a[0]] + a[1..] && b == b[..k] + ([b[k]] + b[k + 1..]);
      CountConcat([a[0]], a[1..], bound);
      CountConcat(b[..k], [b[k]] + b[k + 1..], bound);
      CountConcat([b[k]], b[k + 1..], bound);
      CountConcat(b[..k], b[k + 1..], bound);
    }
  }

  lemma {:induction false} CountAll(s: seq<real>, bound: real)
    ensures CountAtMost(s, bound) <= |s|
    ensures (forall i :: 0 <= i < |s| ==> s[i] <= bound) ==> CountAtMost(s, bound) == |s|
  {
    if s != [] {
      CountAll(s[..|s| - 1], bound);
    }
  }

  lemma {:induction false} CountNone(s: seq<real>, bound: real)
    requires forall i :: 0 <= i < |s| ==> s[i] > bound
    ensures CountAtMost(s, bound) == 0
  {
    if s != [] {
      CountNone(s[..|s| - 1], bound);
    }
  }

  /** In a sorted sequence more than k elements are at most element k. */
  lemma SortedCountAt(s: seq<real>, k: nat)
    requires Sorted(s, LessEqual) && k < |s|
    ensures CountAtMost(s, s[k]) >= k + 1
  {
    var head, tail := s[..k + 1], s[k + 1..];
    assert s == head + tail;
    forall i | 0 <= i < |head| ensures head[i] <= s[k] {
      assert i == k || LessEqual(s[i], s[k]);
    }
    CountConcat(head, tail, s[k]);
    CountAll(head, s[k]);
  }

  /** And at most k are below it. */
  lemma SortedCountBelow(s: seq<real>, k: nat, below: real)
    requires Sorted(s, LessEqual) && k < |s| && below < s[k]
    ensures CountAtMost(s, below) <= k
  {
    assert s == s[..k] + s[k..];
    var head, tail := s[..k], s[k..];
    forall j | 0 <= j < |tail| ensures tail[j] > below {
      assert j == 0 || LessEqual(s[k], s[k + j]);
    }
    CountConcat(head, tail, below);
    CountAll(head, below);
    CountNone(tail, below);
  }

  lemma {:induction false} CountsItself(s: seq<real>, x: real)
    requires x in s
    ensures CountAtMost(s, x) >= 1
  {
    if s[|s| - 1] != x {
      var i :| 0 <= i < |s| && s[i] == x;
      assert s[..|s| - 1][i] == x;
      CountsItself(s[..|s| - 1], x);
    }
  }

  /**
   * A percentile is the least element of the window that has at least p percent of the window at or
   * below it.
   */
  lemma PercentileIsLeast(window: seq<real>, p: nat)
    requires window != [] && p <= 100
    ensures var v := Percentile(window, p);
      && v in window
      && 100 * CountAtMost(window, v) >= p * |window|
      && forall u :: u in window && u < v ==> 100 * CountAtMost(window, u) < p * |window|
  {
    var s, k, v := Sort(window, LessEqual), RankOf(|window|, p), Percentile(window, p);
    SortCorrect(window, LessEqual);
    assert s[k] in multiset(s);
    SortedCountAt(s, k);
    CountPermutation(window, s, v);
    forall u | u in window && u < v ensures 100 * CountAtMost(window, u) < p * |window| {
      SortedCountBelow(s, k, u);
      CountPermutation(window, s, u);
      CountsItself(window, u);
    }
  }

  lemma PercentilesAreOrdered(window: seq<real>, p: nat, q: nat)
    requires p <= q <= 100
    ensures Percentile(window, p) <= Percentile(window, q)
  {
    if window != [] {
      SortCorrect(window, LessEqual);
      RanksAreOrdered(|window|, p, q);
      var i, j, s := RankOf(|window|, p), RankOf(|window|, q), Sort(window, LessEqual);
      assert i == j || LessEqual(s[i], s[j]);
    }
  }

  lemma RanksAreOrdered(n: nat, p: nat, q: nat)
    requires n > 0 && p <= q <= 100
    ensures RankOf(n, p) <= RankOf(n, q)
  {
    assert p * n <= q * n;
    QuotientsAreOrdered(p * n + 99, q * n + 99);
  }

  lemma QuotientsAreOrdered(x: nat, y: nat)
    requires x <= y
    ensures x / 100 <= y / 100
  {
  }
}
