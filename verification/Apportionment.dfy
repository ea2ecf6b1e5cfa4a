/**
 * Largest-remainder split of a USDC amount over the currency basket
 * (src/jobs/usdcConversionJob.ts, calculateBasketDistribution).
 *
 * Amounts and weights are exact reals, atomic units are unbounded integers (BigInt in the source).
 */
module Apportionment {
  import opened Sequences

  const USDC_CONVERSION_DECIMALS: nat := 7
  const WEIGHT_SCALE := 10000.0

  datatype BasketEntry = BasketEntry(currency: string, weight: real)

  /** What `new Decimal(usdcAmount)` can yield. */
  datatype Amount = Unparsable | NotFinite | Finite(value: real)

  datatype Allocation = Allocation(index: nat, weightInt: int, baseAtomic: int, remainder: int)

  datatype BasketShare =
    BasketShare(currency: string, weight: real, amountAtomic: int, amountDecimal: real)

  datatype Error = NonPositiveTotalWeight

  // ----- arithmetic of the source -----

  function Pow10(n: nat): (r: int)
    ensures r >= 1
  {
    if n == 0 then 1 else 10 * Pow10(n - 1)
  }

  /** Decimal.ROUND_DOWN: towards zero. */
  function RoundDown(x: real): int {
    if x >= 0.0 then x.Floor else -((-x).Floor)
  }

  /** BigInt division truncates towards zero. */
  function TruncDiv(a: int, b: int): int
    requires b > 0
  {
    if a >= 0 then a / b else -((-a) / b)
  }

  function TruncRem(a: int, b: int): int
    requires b > 0
  {
    a - b * TruncDiv(a, b)
  }

  // ----- projections -----

  function Id(x: int): int { x }
  function WeightOf(a: Allocation): int { a.weightInt }
  function BaseOf(a: Allocation): int { a.baseAtomic }
  function RemainderOf(a: Allocation): int { a.remainder }
  function FractionalOf(a: Allocation): int { if a.remainder != 0 then 1 else 0 }
  function AtomicOf(s: BasketShare): int { s.amountAtomic }

  // ----- the algorithm -----

  function TotalWeight(w: seq<int>): int { SumBy(w, Id) }

  function Allocations(total: int, w: seq<int>): (r: seq<Allocation>)
    requires TotalWeight(w) > 0
    ensures |r| == |w|
    ensures forall i :: 0 <= i < |w| ==> r[i].index == i && r[i].weightInt == w[i]
  {
    seq(|w|, i requires 0 <= i < |w| =>
      Allocation(i, w[i], TruncDiv(total * w[i], TotalWeight(w)), TruncRem(total * w[i], TotalWeight(w))))
  }

  function Residual(total: int, w: seq<int>): int
    requires TotalWeight(w) > 0
  {
    total - SumBy(Allocations(total, w), BaseOf)
  }

  /** Larger remainder first, then larger weight, then earlier position. */
  predicate Precedes(a: Allocation, b: Allocation) {
    if a.remainder != b.remainder then a.remainder > b.remainder
    else if a.weightInt != b.weightInt then a.weightInt > b.weightInt
    else a.index <= b.index
  }

  function Ranking(total: int, w: seq<int>): seq<Allocation>
    requires TotalWeight(w) > 0
  {
    Sort(Allocations(total, w), Precedes)
  }

  ghost predicate Indices(order: seq<nat>, n: nat) {
    |order| == n && forall k :: 0 <= k < n ==> order[k] < n
  }

  /** One unit at a time to the currencies in `order`, starting over when the order is exhausted. */
  function Handout(shares: seq<int>, order: seq<nat>, k: nat): (r: seq<int>)
    requires Indices(order, |shares|) && |shares| > 0
    ensures |r| == |shares|
  {
    if k == 0 then shares
    else
      var r := Handout(shares, order, k - 1);
      var target := order[(k - 1) % |order|];
      r[target := r[target] + 1]
  }

  function Bases(total: int, w: seq<int>): (r: seq<int>)
    requires TotalWeight(w) > 0
    ensures |r| == |w|
    ensures forall i :: 0 <= i < |w| ==> r[i] == TruncDiv(total * w[i], TotalWeight(w))
  {
    seq(|w|, i requires 0 <= i < |w| => Allocations(total, w)[i].baseAtomic)
  }

  function Order(total: int, w: seq<int>): (r: seq<nat>)
    requires TotalWeight(w) > 0
    ensures Indices(r, |w|)
  {
    RankingIsPermutation(total, w);
    var ranking := Ranking(total, w);
    seq(|w|, k requires 0 <= k < |w| => ranking[k].index)
  }

  function Shares(total: int, w: seq<int>): (r: seq<int>)
    requires TotalWeight(w) > 0
    ensures |r| == |w|
  {
    var residual := Residual(total, w);
    if residual > 0 then
      Handout(Bases(total, w), Order(total, w), residual)
    else
      Bases(total, w)
  }

  /** `toward` is the integer part of `x`: nothing of a whole unit has been dropped, and nothing added. */
  ghost predicate IntegerPart(x: real, toward: int) {
    if x >= 0.0 then 0.0 <= x - toward as real < 1.0 else -1.0 < x - toward as real <= 0.0
  }

  function WeightInts(basket: seq<BasketEntry>): (w: seq<int>)
    ensures |w| == |basket|
    ensures forall i :: 0 <= i < |basket| ==> IntegerPart(basket[i].weight * 10000.0, w[i])
  {
    seq(|basket|, i requires 0 <= i < |basket| => RoundDown(basket[i].weight * WEIGHT_SCALE))
  }

  function TotalAtomic(amount: real, decimals: nat): (r: int)
    ensures IntegerPart(amount * Pow10(decimals) as real, r)
  {
    RoundDown(amount * Pow10(decimals) as real)
  }

  /** The inputs for which the source returns the empty list before looking at the weights. */
  predicate NothingToSplit(amount: Amount, basket: seq<BasketEntry>, decimals: nat) {
    basket == [] || !amount.Finite? || amount.value <= 0.0 || TotalAtomic(amount.value, decimals) <= 0
  }

  // ----- ranking -----

  lemma PrecedesIsTotal()
    ensures TotalPreorder(Precedes)
  {
  }

  lemma RankingIsPermutation(total: int, w: seq<int>)
    requires TotalWeight(w) > 0
    ensures var r := Ranking(total, w);
      && |r| == |w|
      && multiset(r) == multiset(Allocations(total, w))
      && Sorted(r, Precedes)
      && NoDuplicates(r)
      && forall k :: 0 <= k < |r| ==> r[k].index < |w| && r[k] == Allocations(total, w)[r[k].index]
  {
    PrecedesIsTotal();
    var a := Allocations(total, w);
    SortCorrect(a, Precedes);
    PermutationNoDuplicates(a, Ranking(total, w));
    var r := Ranking(total, w);
    forall k | 0 <= k < |r| ensures r[k].index < |w| && r[k] == a[r[k].index] {
      assert r[k] in multiset(r);
      assert r[k] in a;
    }
  }

  /** Every position occurs in the ranking exactly once. */
  lemma RankOf(total: int, w: seq<int>, i: nat) returns (k: nat)
    requires TotalWeight(w) > 0 && i < |w|
    ensures k < |Ranking(total, w)| && Ranking(total, w)[k] == Allocations(total, w)[i]
    ensures forall p :: 0 <= p < |Ranking(total, w)| && Ranking(total, w)[p].index == i ==> p == k
  {
    RankingIsPermutation(total, w);
    var r := Ranking(total, w);
    assert Allocations(total, w)[i] in multiset(Allocations(total, w));
    assert Allocations(total, w)[i] in r;
    k :| 0 <= k < |r| && r[k] == Allocations(total, w)[i];
  }

  // ----- what the handout adds -----

  lemma {:induction false} HandoutSum(shares: seq<int>, order: seq<nat>, k: nat)
    requires Indices(order, |shares|) && |shares| > 0
    ensures SumBy(Handout(shares, order, k), Id) == SumBy(shares, Id) + k
  {
    if k > 0 {
      HandoutSum(shares, order, k - 1);
      var r := Handout(shares, order, k - 1);
      var target := order[(k - 1) % |order|];
      SumByUpdate(r, target, r[target] + 1, Id);
    }
  }

  lemma {:induction false} HandoutAt(shares: seq<int>, order: seq<nat>, k: nat, i: nat)
    requires Indices(order, |shares|) && NoDuplicates(order)
    requires k <= |shares| && i < |shares|
    ensures Handout(shares, order, k)[i] == shares[i] + if i in order[..k] then 1 else 0
  {
    if k > 0 {
      HandoutAt(shares, order, k - 1, i);
      SmallModulus(k - 1, |order|);
      assert order[..k] == order[..k - 1] + [order[k - 1]];
      assert order[k - 1] !in order[..k - 1];
    }
  }

  // ----- sums of quotients and remainders -----

  ghost predicate Divides(a: Allocation, total: int, weight: int) {
    weight * a.baseAtomic + a.remainder == total * a.weightInt
  }

  lemma {:induction false} DivisionSums(s: seq<Allocation>, total: int, weight: int)
    requires forall a :: a in s ==> Divides(a, total, weight)
    ensures weight * SumBy(s, BaseOf) + SumBy(s, RemainderOf) == total * SumBy(s, WeightOf)
  {
    if s != [] {
      DivisionSums(s[1..], total, weight);
      assert Divides(s[0], total, weight);
      var b, r, v := SumBy(s[1..], BaseOf), SumBy(s[1..], RemainderOf), SumBy(s[1..], WeightOf);
      assert weight * (s[0].baseAtomic + b) == weight * s[0].baseAtomic + weight * b;
      assert total * (s[0].weightInt + v) == total * s[0].weightInt + total * v;
    }
  }

  lemma {:induction false} ProjectionSums(s: seq<Allocation>, w: seq<int>, b: seq<int>)
    requires |s| == |w| == |b|
    requires forall i :: 0 <= i < |s| ==> s[i].weightInt == w[i] && s[i].baseAtomic == b[i]
    ensures SumBy(s, WeightOf) == SumBy(w, Id)
    ensures SumBy(s, BaseOf) == SumBy(b, Id)
  {
    if s != [] {
      ProjectionSums(s[1..], w[1..], b[1..]);
    }
  }

  /** Truncation, not floor: the quotient is never farther from zero, and the remainder has the sign of `a`. */
  lemma TruncatesTowardsZero(a: int, b: int)
    requires b > 0
    ensures a >= 0 ==> 0 <= b * TruncDiv(a, b) <= a < b * TruncDiv(a, b) + b
    ensures a <= 0 ==> b * TruncDiv(a, b) - b < a <= b * TruncDiv(a, b) <= 0
    ensures TruncRem(a, b) == a - b * TruncDiv(a, b)
  {
    if a >= 0 {
      QuotientRange(a, b, a / b);
    } else {
      QuotientRange(-a, b, -a / b);
      Negated(b, -a / b);
    }
  }

  lemma QuotientRange(x: int, b: int, q: int)
    requires x >= 0 && b > 0 && q == x / b
    ensures 0 <= b * q <= x < b * q + b
  {
    assert x == b * q + x % b;
  }

  lemma Negated(b: int, q: int)
    ensures b * -q == -(b * q)
  {
  }

  lemma QuotientAndRemainder(a: int, b: int)
    requires b > 0
    ensures b * TruncDiv(a, b) + TruncRem(a, b) == a
  {
  }

  /** The remainders add up to the residual, in units of the total weight. */
  lemma ResidualFromRemainders(total: int, w: seq<int>)
    requires TotalWeight(w) > 0
    ensures SumBy(Allocations(total, w), RemainderOf) == TotalWeight(w) * Residual(total, w)
    ensures SumBy(Bases(total, w), Id) == total - Residual(total, w)
  {
    var a := Allocations(total, w);
    AllocationsDivide(total, w);
    DivisionSums(a, total, TotalWeight(w));
    ProjectionSums(a, w, Bases(total, w));
    WhatIsLeft(TotalWeight(w), total, SumBy(a, BaseOf), SumBy(a, RemainderOf));
  }

  lemma WhatIsLeft(weight: int, total: int, bases: int, remainders: int)
    requires weight * bases + remainders == total * weight
    ensures remainders == weight * (total - bases)
  {
    Distribute(weight, total, bases);
  }

  lemma AllocationsDivide(total: int, w: seq<int>)
    requires TotalWeight(w) > 0
    ensures forall a :: a in Allocations(total, w) ==> Divides(a, total, TotalWeight(w))
  {
    var a := Allocations(total, w);
    forall i | 0 <= i < |w| ensures Divides(a[i], total, TotalWeight(w)) {
      QuotientAndRemainder(total * w[i], TotalWeight(w));
    }
  }

  // ----- conservation, for every basket the source accepts -----

  /**
   * The shares add up to the amount exactly when the bases do not already exceed it. The guard
   * `residual > 0` of the source is the only thing that can break conservation.
   */
  lemma ConservationIff(total: int, w: seq<int>)
    requires TotalWeight(w) > 0
    ensures SumBy(Shares(total, w), Id) == total <==> Residual(total, w) >= 0
  {
    ResidualFromRemainders(total, w);
    if Residual(total, w) > 0 {
      assert w != [];
      HandoutSum(Bases(total, w), Order(total, w), Residual(total, w));
    }
  }

  lemma SumOfThree(s: seq<int>)
    requires |s| == 3
    ensures SumBy(s, Id) == s[0] + s[1] + s[2]
  {
    var t := s[1..];
    var u := t[1..];
    assert SumBy(s, Id) == s[0] + SumBy(t, Id) && SumBy(t, Id) == t[0] + SumBy(u, Id);
    assert u[1..] == [];
    assert SumBy(u, Id) == u[0] + SumBy(u[1..], Id);
  }

  /** Scaled weights, two of them negative, for which the shares exceed an amount of two units by one. */
  lemma NegativeWeightsBreakConservation(w: seq<int>)
    requires w == [50000, -10000, -10000]
    ensures TotalWeight(w) > 0
    ensures SumBy(Shares(2, w), Id) == 3
  {
    SumOfThree(w);
    var b := Bases(2, w);
    assert TruncDiv(100000, 30000) == 3 && TruncDiv(-20000, 30000) == 0;
    assert b[0] == 3 && b[1] == 0 && b[2] == 0;
    SumOfThree(b);
    ResidualFromRemainders(2, w);
  }

  // ----- baskets with non-negative weights -----

  ghost predicate NonNegative(s: seq<int>) {
    forall i :: 0 <= i < |s| ==> s[i] >= 0
  }

  lemma QuotientBounds(a: int, b: int)
    requires a >= 0 && b > 0
    ensures TruncDiv(a, b) == a / b && TruncRem(a, b) == a % b
    ensures 0 <= TruncRem(a, b) < b && TruncDiv(a, b) >= 0
  {
  }

  lemma RemainderRange(total: int, w: seq<int>, i: nat)
    requires TotalWeight(w) > 0 && NonNegative(w) && total >= 0 && i < |w|
    ensures 0 <= Allocations(total, w)[i].remainder < TotalWeight(w)
    ensures w[i] == 0 ==> Allocations(total, w)[i].remainder == 0 && Bases(total, w)[i] == 0
    ensures Divides(Allocations(total, w)[i], total, TotalWeight(w))
  {
    assert total * w[i] >= 0;
    QuotientBounds(total * w[i], TotalWeight(w));
  }

  lemma RankedRemainders(total: int, w: seq<int>)
    requires TotalWeight(w) > 0 && NonNegative(w) && total >= 0
    ensures var r := Ranking(total, w);
      && |r| == |w|
      && (forall k :: 0 <= k < |r| ==> 0 <= r[k].remainder < TotalWeight(w))
      && SumBy(r, RemainderOf) == TotalWeight(w) * Residual(total, w)
  {
    RankingIsPermutation(total, w);
    ResidualFromRemainders(total, w);
    SumByPermutation(Allocations(total, w), Ranking(total, w), RemainderOf);
    var r := Ranking(total, w);
    forall k | 0 <= k < |r| ensures 0 <= r[k].remainder < TotalWeight(w) {
      RemainderRange(total, w, r[k].index);
    }
  }

  lemma {:induction false} RemainderSumBounds(s: seq<Allocation>, weight: int)
    requires weight > 0
    requires forall k :: 0 <= k < |s| ==> 0 <= s[k].remainder < weight
    ensures 0 <= SumBy(s, RemainderOf) <= (weight - 1) * |s|
  {
    if s != [] {
      RemainderSumBounds(s[1..], weight);
      assert (weight - 1) * |s| == (weight - 1) + (weight - 1) * |s[1..]|;
    }
  }

  lemma {:induction false} ZeroRemainderSum(s: seq<Allocation>)
    requires forall k :: 0 <= k < |s| ==> s[k].remainder == 0
    ensures SumBy(s, RemainderOf) == 0
  {
    if s != [] {
      ZeroRemainderSum(s[1..]);
    }
  }

  lemma ResidualRange(total: int, w: seq<int>)
    requires TotalWeight(w) > 0 && NonNegative(w) && total >= 0
    ensures 0 <= Residual(total, w) < |w|
  {
    RankedRemainders(total, w);
    var weight, residual := TotalWeight(w), Residual(total, w);
    RemainderSumBounds(Ranking(total, w), weight);
    assert w != [];
    assert (weight - 1) * |w| == weight * |w| - |w|;
    MulOrder(weight, residual, |w|);
    MulOrder(weight, residual, 0);
  }

  /** In the ranking, everything from a zero remainder on is zero. */
  lemma ZeroTail(r: seq<Allocation>, k: nat, weight: int)
    requires weight > 0 && Sorted(r, Precedes) && k < |r| && r[k].remainder == 0
    requires forall j :: 0 <= j < |r| ==> 0 <= r[j].remainder < weight
    ensures SumBy(r, RemainderOf) <= (weight - 1) * k
  {
    forall j | 0 <= j < |r[k..]| ensures r[k..][j].remainder == 0 {
      assert j == 0 || Precedes(r[k], r[k + j]);
    }
    ZeroRemainderSum(r[k..]);
    RemainderSumBounds(r[..k], weight);
    SumByConcat(r[..k], r[k..], RemainderOf);
    assert r == r[..k] + r[k..];
  }

  /** A leftover unit goes only to currencies with a fractional quota, and one of those is left out. */
  lemma RecipientsAreFractional(total: int, w: seq<int>, k: nat)
    requires TotalWeight(w) > 0 && NonNegative(w) && total >= 0
    requires 0 < Residual(total, w) && k <= Residual(total, w)
    ensures k < |Ranking(total, w)| && Ranking(total, w)[k].remainder > 0
  {
    ResidualRange(total, w);
    RankedRemainders(total, w);
    RankingIsPermutation(total, w);
    var weight, residual := TotalWeight(w), Residual(total, w);
    PrefixTooSmall(weight, k, residual);
    if Ranking(total, w)[k].remainder == 0 {
      ZeroTail(Ranking(total, w), k, weight);
    }
  }

  lemma PrefixTooSmall(weight: int, k: int, residual: int)
    requires weight > 0 && 0 <= k <= residual && residual > 0
    ensures (weight - 1) * k < weight * residual
  {
    Distribute(k, weight, 1);
    MulOrder(weight, k, residual);
  }

  lemma {:induction false} CountFractional(s: seq<Allocation>)
    ensures 0 <= SumBy(s, FractionalOf)
    ensures (forall k :: 0 <= k < |s| ==> s[k].remainder != 0) ==> SumBy(s, FractionalOf) == |s|
  {
    if s != [] {
      CountFractional(s[1..]);
    }
  }

  /** The residual is strictly below the number of non-zero remainders: the handout never wraps around. */
  lemma ResidualBelowFractionalCount(total: int, w: seq<int>)
    requires TotalWeight(w) > 0 && NonNegative(w) && total >= 0
    ensures Residual(total, w) > 0 ==>
      Residual(total, w) < SumBy(Allocations(total, w), FractionalOf)
    ensures Residual(total, w) == 0 <==> SumBy(Allocations(total, w), FractionalOf) == 0
  {
    var a, r, residual := Allocations(total, w), Ranking(total, w), Residual(total, w);
    RankingIsPermutation(total, w);
    SumByPermutation(a, r, FractionalOf);
    ResidualRange(total, w);
    if residual > 0 {
      TopIsFractional(total, w);
    } else {
      RankedRemainders(total, w);
      NoFractionsLeft(r);
    }
  }

  lemma TopIsFractional(total: int, w: seq<int>)
    requires TotalWeight(w) > 0 && NonNegative(w) && total >= 0 && Residual(total, w) > 0
    ensures SumBy(Ranking(total, w), FractionalOf) >= Residual(total, w) + 1
  {
    var r, k := Ranking(total, w), Residual(total, w) + 1;
    RecipientsAreFractional(total, w, k - 1);
    var top, rest := r[..k], r[k..];
    forall i | 0 <= i < |top| ensures top[i].remainder != 0 {
      RecipientsAreFractional(total, w, i);
    }
    CountFractional(top);
    CountFractional(rest);
    SumByConcat(top, rest, FractionalOf);
    assert r == top + rest;
  }

  lemma {:induction false} NoFractionsLeft(s: seq<Allocation>)
    requires forall k :: 0 <= k < |s| ==> s[k].remainder >= 0
    requires SumBy(s, RemainderOf) == 0
    ensures SumBy(s, FractionalOf) == 0
    ensures forall k :: 0 <= k < |s| ==> s[k].remainder == 0
  {
    if s != [] {
      RemaindersNonNegative(s[1..]);
      NoFractionsLeft(s[1..]);
    }
  }

  lemma {:induction false} RemaindersNonNegative(s: seq<Allocation>)
    requires forall k :: 0 <= k < |s| ==> s[k].remainder >= 0
    ensures SumBy(s, RemainderOf) >= 0
  {
    if s != [] {
      RemaindersNonNegative(s[1..]);
    }
  }

  /** `i` gets one of the leftover units. */
  ghost predicate Favoured(total: int, w: seq<int>, i: nat)
    requires TotalWeight(w) > 0
  {
    exists k :: 0 <= k < Residual(total, w) && k < |w| && Order(total, w)[k] == i
  }

  lemma ShareAt(total: int, w: seq<int>, i: nat)
    requires TotalWeight(w) > 0 && NonNegative(w) && total >= 0 && i < |w|
    ensures Shares(total, w)[i] == Bases(total, w)[i] + if Favoured(total, w, i) then 1 else 0
  {
    ResidualRange(total, w);
    var residual, order := Residual(total, w), Order(total, w);
    if residual > 0 {
      RankingIsPermutation(total, w);
      HandoutAt(Bases(total, w), order, residual, i);
      if i in order[..residual] {
        var k :| 0 <= k < residual && order[..residual][k] == i;
        assert order[k] == i;
      }
      if Favoured(total, w, i) {
        var k :| 0 <= k < residual && k < |w| && order[k] == i;
        assert order[..residual][k] == i;
      }
    }
  }

  /** A share is the base, or one more where something has been cut off. */
  lemma BaseOrOneMore(total: int, w: seq<int>, i: nat)
    requires TotalWeight(w) > 0 && NonNegative(w) && total >= 0 && i < |w|
    ensures var a := Allocations(total, w)[i];
      Shares(total, w)[i] == a.baseAtomic || (Shares(total, w)[i] == a.baseAtomic + 1 && a.remainder > 0)
  {
    ShareAt(total, w, i);
    if Favoured(total, w, i) {
      var k :| 0 <= k < Residual(total, w) && k < |w| && Order(total, w)[k] == i;
      RecipientsAreFractional(total, w, k);
      RankingIsPermutation(total, w);
      assert Ranking(total, w)[k] == Allocations(total, w)[i];
    }
  }

  /** Quota rule: floor or ceiling of the exact quota, and nothing for a currency of weight zero. */
  lemma QuotaRule(total: int, w: seq<int>, i: nat)
    requires TotalWeight(w) > 0 && NonNegative(w) && total >= 0 && i < |w|
    ensures var share, exact, weight := Shares(total, w)[i], total * w[i], TotalWeight(w);
      share == exact / weight || (share == exact / weight + 1 && exact % weight != 0)
    ensures Shares(total, w)[i] >= 0
    ensures w[i] == 0 ==> Shares(total, w)[i] == 0
  {
    BaseOrOneMore(total, w, i);
    RemainderRange(total, w, i);
    FloorOrCeiling(Allocations(total, w)[i], total, TotalWeight(w), Shares(total, w)[i]);
  }

  /** No share is a whole unit away from its exact quota. */
  lemma QuotaDistance(total: int, w: seq<int>, i: nat)
    requires TotalWeight(w) > 0 && NonNegative(w) && total >= 0 && i < |w|
    ensures (Shares(total, w)[i] - 1) * TotalWeight(w) < total * w[i] < (Shares(total, w)[i] + 1) * TotalWeight(w)
  {
    BaseOrOneMore(total, w, i);
    RemainderRange(total, w, i);
    FloorOrCeiling(Allocations(total, w)[i], total, TotalWeight(w), Shares(total, w)[i]);
  }

  /** An exact quota is paid exactly. */
  lemma ExactQuota(total: int, w: seq<int>, i: nat)
    requires TotalWeight(w) > 0 && NonNegative(w) && total >= 0 && i < |w|
    ensures (total * w[i]) % TotalWeight(w) == 0 ==> Shares(total, w)[i] * TotalWeight(w) == total * w[i]
  {
    BaseOrOneMore(total, w, i);
    RemainderRange(total, w, i);
    FloorOrCeiling(Allocations(total, w)[i], total, TotalWeight(w), Shares(total, w)[i]);
  }

  lemma FloorOrCeiling(a: Allocation, total: int, weight: int, share: int)
    requires Divides(a, total, weight) && 0 <= a.remainder < weight
    requires total >= 0 && a.weightInt >= 0
    requires share == a.baseAtomic || (share == a.baseAtomic + 1 && a.remainder > 0)
    ensures (share - 1) * weight < total * a.weightInt < (share + 1) * weight
    ensures share >= 0
    ensures total * a.weightInt / weight == a.baseAtomic && (total * a.weightInt) % weight == a.remainder
    ensures (total * a.weightInt) % weight == 0 ==> share * weight == total * a.weightInt
  {
    Distribute(weight, a.baseAtomic, 1);
    Distribute(weight, a.baseAtomic, 2);
    MulOrder(weight, -1, a.baseAtomic);
    assert total * a.weightInt >= 0;
    RemainderIsModulus(total * a.weightInt, weight, a.baseAtomic, a.remainder);
  }

  lemma RemainderIsModulus(x: int, m: int, q: int, r: int)
    requires 0 <= r < m && x == m * q + r
    ensures x / m == q && x % m == r
  {
    QuotientOrder(m, q, r, x / m, x % m);
    QuotientOrder(m, x / m, x % m, q, r);
  }

  /** Nothing is lost and nothing is invented. */
  lemma Conservation(total: int, w: seq<int>)
    requires TotalWeight(w) > 0 && NonNegative(w) && total >= 0
    ensures SumBy(Shares(total, w), Id) == total
  {
    ResidualRange(total, w);
    ConservationIff(total, w);
  }

  /** A larger weight, or an equal one at an earlier position, never gets the smaller share. */
  lemma Monotone(total: int, w: seq<int>, i: nat, j: nat)
    requires TotalWeight(w) > 0 && NonNegative(w) && total >= 0 && i < |w| && j < |w|
    requires w[i] > w[j] || (w[i] == w[j] && i <= j)
    ensures Shares(total, w)[i] >= Shares(total, w)[j]
  {
    ShareAt(total, w, i);
    ShareAt(total, w, j);
    BaseOrder(total, w, i, j);
    if Bases(total, w)[i] == Bases(total, w)[j] && Favoured(total, w, j) {
      FavourFollowsRanking(total, w, i, j);
    }
  }

  lemma BaseOrder(total: int, w: seq<int>, i: nat, j: nat)
    requires TotalWeight(w) > 0 && NonNegative(w) && total >= 0 && i < |w| && j < |w|
    requires w[i] > w[j] || (w[i] == w[j] && i <= j)
    ensures Bases(total, w)[i] >= Bases(total, w)[j]
    ensures Bases(total, w)[i] == Bases(total, w)[j] ==>
      Precedes(Allocations(total, w)[i], Allocations(total, w)[j])
  {
    RemainderRange(total, w, i);
    RemainderRange(total, w, j);
    AllocationOrder(Allocations(total, w)[i], Allocations(total, w)[j], total, TotalWeight(w));
  }

  lemma AllocationOrder(a: Allocation, b: Allocation, total: int, weight: int)
    requires Divides(a, total, weight) && Divides(b, total, weight) && total >= 0
    requires 0 <= a.remainder < weight && 0 <= b.remainder < weight && a.weightInt >= b.weightInt
    ensures a.baseAtomic >= b.baseAtomic
    ensures a.baseAtomic == b.baseAtomic ==> a.remainder >= b.remainder
  {
    Distribute(total, a.weightInt, b.weightInt);
    QuotientOrder(weight, a.baseAtomic, a.remainder, b.baseAtomic, b.remainder);
  }

  lemma FavourFollowsRanking(total: int, w: seq<int>, i: nat, j: nat)
    requires TotalWeight(w) > 0 && i < |w| && j < |w|
    requires Precedes(Allocations(total, w)[i], Allocations(total, w)[j])
    requires Favoured(total, w, j)
    ensures Favoured(total, w, i)
  {
    RankingIsPermutation(total, w);
    var r := Ranking(total, w);
    var q :| 0 <= q < Residual(total, w) && q < |w| && Order(total, w)[q] == j;
    var p := RankOf(total, w, i);
    PrecedingRank(r, p, q);
    assert Order(total, w)[p] == i;
  }

  /** Currency `i` is served before `j`: larger remainder, then larger weight, then earlier position. */
  ghost predicate ServedBefore(total: int, w: seq<int>, i: nat, j: nat)
    requires TotalWeight(w) > 0 && i < |w| && j < |w|
  {
    var ri, rj := (total * w[i]) % TotalWeight(w), (total * w[j]) % TotalWeight(w);
    ri > rj || (ri == rj && (w[i] > w[j] || (w[i] == w[j] && i < j)))
  }

  lemma BaseIsFloor(total: int, w: seq<int>, i: nat)
    requires TotalWeight(w) > 0 && NonNegative(w) && total >= 0 && i < |w|
    ensures var a := Allocations(total, w)[i];
      && a.index == i && a.weightInt == w[i] && Bases(total, w)[i] == total * w[i] / TotalWeight(w)
      && a.remainder == (total * w[i]) % TotalWeight(w)
  {
    assert total * w[i] >= 0;
    QuotientBounds(total * w[i], TotalWeight(w));
  }

  /** Who gets the leftover units: nobody gets one while a currency to be served before goes without. */
  lemma LeftoverOrder(total: int, w: seq<int>, i: nat, j: nat)
    requires TotalWeight(w) > 0 && NonNegative(w) && total >= 0 && i < |w| && j < |w|
    ensures ServedBefore(total, w, i, j) && Shares(total, w)[j] > total * w[j] / TotalWeight(w) ==>
      Shares(total, w)[i] > total * w[i] / TotalWeight(w)
  {
    ShareAt(total, w, i);
    ShareAt(total, w, j);
    BaseIsFloor(total, w, i);
    BaseIsFloor(total, w, j);
    if ServedBefore(total, w, i, j) && Favoured(total, w, j) {
      FavourFollowsRanking(total, w, i, j);
    }
  }

  lemma PrecedingRank(r: seq<Allocation>, p: nat, q: nat)
    requires Sorted(r, Precedes) && p < |r| && q < |r| && Precedes(r[p], r[q])
    requires forall k :: 0 <= k < |r| && r[k].index == r[p].index ==> k == p
    ensures p <= q
  {
    AntisymmetricOrder(r[p], r[q]);
  }

  lemma AntisymmetricOrder(a: Allocation, b: Allocation)
    ensures Precedes(a, b) && Precedes(b, a) ==> a.index == b.index
  {
  }

  // ----- optimality -----

  function Abs(x: int): int { if x >= 0 then x else -x }

  /** Distance of an allocation from the exact quotas, scaled by the total weight. */
  function Error1(x: seq<int>, total: int, w: seq<int>, weight: int): int
    requires |x| == |w|
  {
    if x == [] then 0 else Abs(x[0] * weight - total * w[0]) + Error1(x[1..], total, w[1..], weight)
  }

  /**
   * The threshold remainder `theta` as a Lagrange multiplier: a unit handed out where the remainder
   * is at least `theta`, or withheld where it is at most `theta`, beats every other integer.
   */
  lemma PointwiseOptimal(quota: int, weight: int, base: int, rem: int, theta: int, f: int, x: int)
    requires weight > 0 && quota == weight * base + rem && 0 <= rem < weight && 0 <= theta < weight
    requires (f == base && rem <= theta) || (f == base + 1 && rem >= theta)
    ensures Abs(f * weight - quota) - (weight - 2 * theta) * f
         <= Abs(x * weight - quota) - (weight - 2 * theta) * x
  {
    var d := x - base;
    AtDistance(weight, base, theta, x, d);
    AtDistance(weight, base, theta, f, f - base);
    Multiples(weight, theta, d);
    ThresholdBeats(weight, rem, theta, d, weight * d, theta * d);
  }

  lemma AtDistance(weight: int, base: int, theta: int, x: int, d: int)
    requires x == base + d
    ensures x * weight == weight * base + weight * d
    ensures (weight - 2 * theta) * x == (weight - 2 * theta) * base + (weight * d - 2 * (theta * d))
  {
    Distribute(weight, base, d);
    Distribute(weight - 2 * theta, base, d);
    assert (weight - 2 * theta) * d == weight * d - 2 * (theta * d);
  }

  lemma Multiples(weight: int, theta: int, d: int)
    requires 0 <= theta < weight
    ensures d >= 1 ==> weight * d >= weight && theta * d >= theta
    ensures d <= 0 ==> weight * d <= 0 && theta * d >= weight * d
  {
    if d <= 0 {
      assert (weight - theta) * d <= 0;
      assert (weight - theta) * d == weight * d - theta * d;
    } else {
      assert weight * (d - 1) >= 0 && theta * (d - 1) >= 0;
    }
  }

  /** The same in linear terms, for a distance `d` from the base with its two multiples. */
  lemma ThresholdBeats(weight: int, rem: int, theta: int, d: int, dw: int, dt: int)
    requires 0 <= rem < weight && 0 <= theta < weight
    requires (d >= 1 && dw >= weight && dt >= theta) || (d <= 0 && dw <= 0 && dt >= dw)
    ensures rem <= theta ==> rem <= Abs(dw - rem) - (dw - 2 * dt)
    ensures rem >= theta ==> weight - rem - (weight - 2 * theta) <= Abs(dw - rem) - (dw - 2 * dt)
  {
  }

  /** `f` follows the threshold at one currency. */
  ghost predicate Thresholded(f: int, a: Allocation, total: int, weight: int, theta: int) {
    && Divides(a, total, weight) && 0 <= a.remainder < weight
    && ((f == a.baseAtomic && a.remainder <= theta) || (f == a.baseAtomic + 1 && a.remainder >= theta))
  }

  lemma {:induction false} SummedOptimal(
    f: seq<int>, x: seq<int>, a: seq<Allocation>, total: int, w: seq<int>, weight: int, theta: int)
    requires |f| == |x| == |a| == |w| && weight > 0 && 0 <= theta < weight
    requires forall i :: 0 <= i < |w| ==> a[i].weightInt == w[i] && Thresholded(f[i], a[i], total, weight, theta)
    ensures Error1(f, total, w, weight) - (weight - 2 * theta) * SumBy(f, Id)
         <= Error1(x, total, w, weight) - (weight - 2 * theta) * SumBy(x, Id)
  {
    if f != [] {
      SummedOptimal(f[1..], x[1..], a[1..], total, w[1..], weight, theta);
      assert Thresholded(f[0], a[0], total, weight, theta);
      PointwiseOptimal(total * w[0], weight, a[0].baseAtomic, a[0].remainder, theta, f[0], x[0]);
      Distribute(weight - 2 * theta, f[0], SumBy(f[1..], Id));
      Distribute(weight - 2 * theta, x[0], SumBy(x[1..], Id));
    }
  }

  /** Among all integer allocations of the same total, the shares are closest to the quotas. */
  lemma Optimal(total: int, w: seq<int>, x: seq<int>)
    requires TotalWeight(w) > 0 && NonNegative(w) && total >= 0
    requires |x| == |w| && SumBy(x, Id) == total
    ensures Error1(Shares(total, w), total, w, TotalWeight(w)) <= Error1(x, total, w, TotalWeight(w))
  {
    var f, a, r, residual := Shares(total, w), Allocations(total, w), Ranking(total, w), Residual(total, w);
    ResidualRange(total, w);
    RankedRemainders(total, w);
    RankingIsPermutation(total, w);
    Conservation(total, w);
    var theta := if residual > 0 then r[residual - 1].remainder else 0;
    if residual == 0 {
      NoFractionsLeft(r);
    }
    forall i | 0 <= i < |w|
      ensures Thresholded(f[i], a[i], total, TotalWeight(w), theta)
    {
      RemainderRange(total, w, i);
      ShareAt(total, w, i);
      var k := RankOf(total, w, i);
      if k < residual {
        assert Order(total, w)[k] == i;
        assert k == residual - 1 || Precedes(r[k], r[residual - 1]);
      } else if residual > 0 {
        assert Precedes(r[residual - 1], r[k]);
        assert !Favoured(total, w, i);
      }
    }
    SummedOptimal(f, x, a, total, w, TotalWeight(w), theta);
  }

  // ----- the exported operation -----

  lemma {:induction false} AtomicSums(r: seq<BasketShare>, s: seq<int>)
    requires |r| == |s| && forall i :: 0 <= i < |r| ==> r[i].amountAtomic == s[i]
    ensures SumBy(r, AtomicOf) == SumBy(s, Id)
  {
    if r != [] {
      AtomicSums(r[1..], s[1..]);
    }
  }

  /** The loop over the leftover units, incrementing the shares in place. */
  method AllocateResidual(bases: seq<int>, sortedIndices: seq<nat>, residual: nat) returns (finals: seq<int>)
    requires Indices(sortedIndices, |bases|) && |bases| > 0
    ensures finals == Handout(bases, sortedIndices, residual)
  {
    var a := new int[|bases|](i requires 0 <= i < |bases| => bases[i]);
    var k := 0;
    assert a[..] == bases;
    while k < residual
      invariant 0 <= k <= residual
      invariant a[..] == Handout(bases, sortedIndices, k)
    {
      var target := sortedIndices[k % |sortedIndices|];
      a[target] := a[target] + 1;
      k := k + 1;
    }
    finals := a[..];
  }

  /** One share per currency, in basket order, in atomic units and in units of the amount. */
  ghost predicate SharesFor(r: seq<BasketShare>, basket: seq<BasketEntry>, shares: seq<int>, scale: int) {
    |r| == |basket| == |shares|
    && forall i :: 0 <= i < |basket| ==>
         && r[i].currency == basket[i].currency && r[i].weight == basket[i].weight
         && r[i].amountAtomic == shares[i] && r[i].amountDecimal * scale as real == r[i].amountAtomic as real
  }

  /** The general case: at least two currencies and a positive number of atomic units. */
  method SplitOverBasket(total: int, basket: seq<BasketEntry>, scale: int)
    returns (result: Result<seq<BasketShare>, Error>)
    requires total > 0 && scale > 0
    ensures result.Failure? <==> TotalWeight(WeightInts(basket)) <= 0
    ensures result.Success? ==> SharesFor(result.value, basket, Shares(total, WeightInts(basket)), scale)
    ensures result.Success? && NonNegative(WeightInts(basket)) ==> SumBy(result.value, AtomicOf) == total
  {
    var w := WeightInts(basket);
    if TotalWeight(w) <= 0 {
      return Failure(NonPositiveTotalWeight);
    }
    var bases := Bases(total, w);
    var shares := bases;
    var residual := Residual(total, w);
    if residual > 0 {
      shares := AllocateResidual(bases, Order(total, w), residual);
    }
    var r := seq(|basket|, i requires 0 <= i < |basket| && |shares| == |basket| =>
      ShareOf(basket[i], shares[i], scale));
    SharesAreScaled(r, basket, shares, scale);
    AtomicSums(r, shares);
    if NonNegative(w) {
      Conservation(total, w);
    }
    return Success(r);
  }

  function ShareOf(b: BasketEntry, atomic: int, scale: int): BasketShare
    requires scale > 0
  {
    BasketShare(b.currency, b.weight, atomic, atomic as real / scale as real)
  }

  lemma ScaledBack(x: real, scale: real)
    requires scale != 0.0
    ensures x / scale * scale == x
  {
  }

  lemma SharesAreScaled(r: seq<BasketShare>, basket: seq<BasketEntry>, shares: seq<int>, scale: int)
    requires scale > 0 && |r| == |basket| == |shares|
    requires forall i :: 0 <= i < |basket| ==> r[i] == ShareOf(basket[i], shares[i], scale)
    ensures SharesFor(r, basket, shares, scale)
  {
    forall i | 0 <= i < |basket| ensures r[i].amountDecimal * scale as real == shares[i] as real {
      ScaledBack(shares[i] as real, scale as real);
    }
  }

  lemma WeightsNonNegative(basket: seq<BasketEntry>)
    requires forall i :: 0 <= i < |basket| ==> basket[i].weight >= 0.0
    ensures NonNegative(WeightInts(basket))
  {
  }

  method CalculateBasketDistribution(amount: Amount, basket: seq<BasketEntry>, decimals: nat)
    returns (result: Result<seq<BasketShare>, Error>)
    ensures NothingToSplit(amount, basket, decimals) ==> result == Success([])
    ensures !NothingToSplit(amount, basket, decimals) && |basket| == 1 ==>
      result == Success([BasketShare(basket[0].currency, basket[0].weight,
                                     TotalAtomic(amount.value, decimals), amount.value)])
    ensures !NothingToSplit(amount, basket, decimals) && |basket| > 1 ==>
      (result.Failure? <==> TotalWeight(WeightInts(basket)) <= 0)
    ensures !NothingToSplit(amount, basket, decimals) && |basket| > 1 && result.Success? ==>
      SharesFor(result.value, basket, Shares(TotalAtomic(amount.value, decimals), WeightInts(basket)), Pow10(decimals))
    ensures !NothingToSplit(amount, basket, decimals) ==>
      0.0 <= amount.value * Pow10(decimals) as real - TotalAtomic(amount.value, decimals) as real < 1.0
    ensures !NothingToSplit(amount, basket, decimals) && result.Success?
            && (forall i :: 0 <= i < |basket| ==> basket[i].weight >= 0.0) ==>
      SumBy(result.value, AtomicOf) == TotalAtomic(amount.value, decimals)
  {
    if basket == [] || !amount.Finite? || amount.value <= 0.0 {
      return Success([]);
    }
    var total := TotalAtomic(amount.value, decimals);
    if total <= 0 {
      return Success([]);
    }
    if |basket| == 1 {
      var single := BasketShare(basket[0].currency, basket[0].weight, total, amount.value);
      return Success([single]);
    }
    result := SplitOverBasket(total, basket, Pow10(decimals));
    if forall i :: 0 <= i < |basket| ==> basket[i].weight >= 0.0 {
      WeightsNonNegative(basket);
    }
  }

  lemma ScaleOfUsdc()
    ensures Pow10(USDC_CONVERSION_DECIMALS) == 10000000
  {
  }

  /** An accepted call that hands out three stroops of two: weights 5, -1 and -1, an amount of 0.0000002 USDC. */
  method SharesMayExceedAmount(a: string, b: string, c: string) returns (result: Result<seq<BasketShare>, Error>)
    ensures TotalAtomic(0.0000002, USDC_CONVERSION_DECIMALS) == 2
    ensures result.Success? && SumBy(result.value, AtomicOf) == 3
  {
    var basket := [BasketEntry(a, 5.0), BasketEntry(b, -1.0), BasketEntry(c, -1.0)];
    ScaleOfUsdc();
    var w := WeightInts(basket);
    assert w == [50000, -10000, -10000];
    NegativeWeightsBreakConservation(w);
    var amount := Finite(0.0000002);
    assert TotalAtomic(amount.value, USDC_CONVERSION_DECIMALS) == 2;
    result := CalculateBasketDistribution(amount, basket, USDC_CONVERSION_DECIMALS);
    AtomicSums(result.value, Shares(2, w));
  }
}
