/**
 * Rounding basket weights to exactly 10000 basis points (src/config/basket.ts) and serving them
 * again (src/services/basket/basketService.ts). Weights are exact reals where the source has doubles.
 */
module BasisPoints {
  import opened Sequences

  const BASKET_WEIGHTS_SUM := 100.0
  const BASKET_WEIGHT_BASIS_POINTS := 10000
  const SUM_TOLERANCE := 0.00000001

  /** One entry of the `Map<string, number>`; the order is the map's insertion order. */
  datatype Weighted = Weighted(currency: string, weight: real)

  datatype Entry = Entry(currency: string, scaled: real, floored: int, remainder: real)

  datatype Error = SumMismatch | InvalidWeight | CannotAllocate | InvalidStoredSum

  function WeightOf(w: Weighted): real { w.weight }
  function ScaledOf(e: Entry): real { e.scaled }
  function FlooredOf(e: Entry): int { e.floored }
  function RemainderOf(e: Entry): real { e.remainder }

  function ToEntry(w: Weighted): Entry {
    var scaled := w.weight * 100.0;
    Entry(w.currency, scaled, scaled.Floor, scaled - scaled.Floor as real)
  }

  function Entries(ws: seq<Weighted>): (r: seq<Entry>)
    ensures |r| == |ws| && forall i :: 0 <= i < |ws| ==> r[i] == ToEntry(ws[i])
  {
    seq(|ws|, i requires 0 <= i < |ws| => ToEntry(ws[i]))
  }

  function Missing(ws: seq<Weighted>): int {
    BASKET_WEIGHT_BASIS_POINTS - SumBy(Entries(ws), FlooredOf)
  }

  predicate ByRemainder(a: Entry, b: Entry) { a.remainder >= b.remainder }

  function Bump(es: seq<Entry>, k: int): (r: seq<Entry>)
    ensures |r| == |es|
    ensures forall i :: 0 <= i < |es| ==>
      r[i] == if i < k then es[i].(floored := es[i].floored + 1) else es[i]
  {
    seq(|es|, i requires 0 <= i < |es| => if i < k then es[i].(floored := es[i].floored + 1) else es[i])
  }

  function ToWeights(es: seq<Entry>): (r: seq<Weighted>)
    ensures |r| == |es|
    ensures forall i :: 0 <= i < |es| ==> r[i] == Weighted(es[i].currency, es[i].floored as real / 100.0)
  {
    seq(|es|, i requires 0 <= i < |es| => Weighted(es[i].currency, es[i].floored as real / 100.0))
  }

  predicate SumAccepted(ws: seq<Weighted>) {
    -SUM_TOLERANCE <= TotalBy(ws, WeightOf) - BASKET_WEIGHTS_SUM <= SUM_TOLERANCE
  }

  predicate InRange(ws: seq<Weighted>) {
    forall i :: 0 <= i < |ws| ==> 0.0 <= ws[i].weight <= 100.0
  }

  function Ranking(ws: seq<Weighted>): seq<Entry> { Sort(Entries(ws), ByRemainder) }

  /** The value the source computes, its three exceptions included. */
  function RoundWeights(ws: seq<Weighted>): Result<seq<Weighted>, Error> {
    if !SumAccepted(ws) then Failure(SumMismatch)
    else if !InRange(ws) then Failure(InvalidWeight)
    else if Missing(ws) < 0 || Missing(ws) > |ws| then Failure(CannotAllocate)
    else Success(ToWeights(Bump(Ranking(ws), Missing(ws))))
  }

  /** `entries.sort` followed by the loop that increments `entries[i].floored` in place. */
  method RoundWeightsToExactBasisPoints(ws: seq<Weighted>) returns (r: Result<seq<Weighted>, Error>)
    ensures r == RoundWeights(ws)
    ensures r == Failure(SumMismatch) <==> !SumAccepted(ws)
    ensures r == Failure(InvalidWeight) <==> SumAccepted(ws) && !InRange(ws)
    ensures r.Failure? <==> !SumAccepted(ws) || !InRange(ws)
    ensures r.Success? ==> TotalBy(r.value, WeightOf) == BASKET_WEIGHTS_SUM
  {
    if !SumAccepted(ws) {
      return Failure(SumMismatch);
    }
    if !InRange(ws) {
      return Failure(InvalidWeight);
    }
    var missing := Missing(ws);
    MissingInRange(ws);
    var sorted := Ranking(ws);
    RankingIsPermutation(ws);
    var entries := new Entry[|ws|](i requires 0 <= i < |sorted| => sorted[i]);
    var i := 0;
    while i < missing
      invariant 0 <= i <= missing
      invariant entries[..] == Bump(sorted, i)
    {
      entries[i] := entries[i].(floored := entries[i].floored + 1);
      i := i + 1;
    }
    r := Success(ToWeights(entries[..]));
    ExactSum(ws);
  }

  // ----- sums -----

  lemma RankingIsPermutation(ws: seq<Weighted>)
    ensures |Ranking(ws)| == |ws| && multiset(Ranking(ws)) == multiset(Entries(ws))
    ensures Sorted(Ranking(ws), ByRemainder)
    ensures forall k :: 0 <= k < |Ranking(ws)| ==> Ranking(ws)[k] in Entries(ws)
  {
    SortCorrect(Entries(ws), ByRemainder);
    forall k | 0 <= k < |Ranking(ws)| ensures Ranking(ws)[k] in Entries(ws) {
      assert Ranking(ws)[k] in multiset(Ranking(ws));
    }
  }

  ghost predicate Split(e: Entry) {
    e.scaled == e.floored as real + e.remainder && 0.0 <= e.remainder < 1.0
  }

  lemma {:induction false} SplitSums(es: seq<Entry>)
    requires forall i :: 0 <= i < |es| ==> Split(es[i])
    ensures TotalBy(es, ScaledOf) == SumBy(es, FlooredOf) as real + TotalBy(es, RemainderOf)
    ensures 0.0 <= TotalBy(es, RemainderOf) <= |es| as real
    ensures es != [] ==> TotalBy(es, RemainderOf) < |es| as real
  {
    if es != [] {
      assert Split(es[0]);
      SplitSums(es[1..]);
    }
  }

  lemma {:induction false} ScaledSum(ws: seq<Weighted>)
    ensures TotalBy(Entries(ws), ScaledOf) == 100.0 * TotalBy(ws, WeightOf)
  {
    if ws != [] {
      ScaledSum(ws[1..]);
      assert Entries(ws)[1..] == Entries(ws[1..]);
    }
  }

  /** The leftover is the sum of the remainders, up to the tolerance of the sum check. */
  lemma MissingFromRemainders(ws: seq<Weighted>)
    requires SumAccepted(ws)
    ensures -0.000001 <= Missing(ws) as real - TotalBy(Ranking(ws), RemainderOf) <= 0.000001
    ensures forall k :: 0 <= k < |Ranking(ws)| ==> Split(Ranking(ws)[k])
  {
    var es := Entries(ws);
    RankingIsPermutation(ws);
    SplitSums(es);
    ScaledSum(ws);
    TotalByPermutation(es, Ranking(ws), RemainderOf);
  }

  /** The second exception of the source cannot be raised once the sum check has passed. */
  lemma MissingInRange(ws: seq<Weighted>)
    requires SumAccepted(ws)
    ensures 0 <= Missing(ws) <= |ws|
  {
    MissingFromRemainders(ws);
    RankingIsPermutation(ws);
    SplitSums(Ranking(ws));
  }

  lemma {:induction false} ZeroRemainders(es: seq<Entry>)
    requires forall i :: 0 <= i < |es| ==> es[i].remainder == 0.0
    ensures TotalBy(es, RemainderOf) == 0.0
  {
    if es != [] {
      ZeroRemainders(es[1..]);
    }
  }

  lemma ZeroTail(es: seq<Entry>, k: nat)
    requires Sorted(es, ByRemainder) && k < |es| && es[k].remainder == 0.0
    requires forall i :: 0 <= i < |es| ==> Split(es[i])
    ensures TotalBy(es, RemainderOf) <= k as real
  {
    forall j | 0 <= j < |es[k..]| ensures es[k..][j].remainder == 0.0 {
      assert Split(es[k + j]);
      assert j == 0 || ByRemainder(es[k], es[k + j]);
    }
    ZeroRemainders(es[k..]);
    SplitSums(es[..k]);
    TotalByConcat(es[..k], es[k..], RemainderOf);
    assert es == es[..k] + es[k..];
  }

  /** Only weights that are not whole basis points are rounded up. */
  lemma OnlyFractionsMove(ws: seq<Weighted>, k: nat)
    requires SumAccepted(ws) && k < Missing(ws)
    ensures k < |Ranking(ws)| && Ranking(ws)[k].remainder > 0.0
  {
    MissingInRange(ws);
    MissingFromRemainders(ws);
    RankingIsPermutation(ws);
    assert Split(Ranking(ws)[k]);
    if Ranking(ws)[k].remainder == 0.0 {
      ZeroTail(Ranking(ws), k);
    }
  }

  lemma {:induction false} BumpSum(es: seq<Entry>, k: int)
    requires 0 <= k <= |es|
    ensures SumBy(Bump(es, k), FlooredOf) == SumBy(es, FlooredOf) + k
  {
    if es != [] {
      var rest := if k == 0 then 0 else k - 1;
      BumpSum(es[1..], rest);
      assert Bump(es, k)[1..] == Bump(es[1..], rest);
    }
  }

  lemma {:induction false} WeightSum(es: seq<Entry>)
    ensures TotalBy(ToWeights(es), WeightOf) * 100.0 == SumBy(es, FlooredOf) as real
  {
    if es != [] {
      WeightSum(es[1..]);
      assert ToWeights(es)[1..] == ToWeights(es[1..]);
    }
  }

  // ----- main results -----

  /** Rounded weights add up to exactly 100 percent. */
  lemma ExactSum(ws: seq<Weighted>)
    requires SumAccepted(ws) && InRange(ws)
    ensures RoundWeights(ws).Success?
    ensures TotalBy(RoundWeights(ws).value, WeightOf) == BASKET_WEIGHTS_SUM
  {
    MissingInRange(ws);
    RankingIsPermutation(ws);
    SumByPermutation(Entries(ws), Ranking(ws), FlooredOf);
    BumpSum(Ranking(ws), Missing(ws));
    WeightSum(Bump(Ranking(ws), Missing(ws)));
  }

  /** Whole basis points between 0 and 10000. */
  ghost predicate WholeBasisPoints(ws: seq<Weighted>) {
    forall i :: 0 <= i < |ws| ==> IsBasisPoints(ws[i].weight)
  }

  ghost predicate IsBasisPoints(weight: real) {
    0.0 <= weight <= 100.0 && (weight * 100.0).Floor as real == weight * 100.0
  }

  /** The given weight that ends up at position `p`. */
  lemma AtRank(ws: seq<Weighted>, p: nat) returns (i: nat)
    requires SumAccepted(ws) && InRange(ws) && p < |ws|
    ensures RoundWeights(ws).Success? && |RoundWeights(ws).value| == |ws|
    ensures i < |ws| && p < |Ranking(ws)| && Ranking(ws)[p] == ToEntry(ws[i])
    ensures RoundWeights(ws).value[p] == Weighted(ws[i].currency, BpsAt(ws, p, ws[i]) as real / 100.0)
    ensures p < Missing(ws) ==> ToEntry(ws[i]).remainder > 0.0
  {
    MissingInRange(ws);
    RankingIsPermutation(ws);
    var e := Ranking(ws)[p];
    assert e in Entries(ws);
    i :| 0 <= i < |ws| && Entries(ws)[i] == e;
    if p < Missing(ws) {
      OnlyFractionsMove(ws, p);
    }
  }

  function BpsAt(ws: seq<Weighted>, p: nat, w: Weighted): int {
    (w.weight * 100.0).Floor + if p < Missing(ws) then 1 else 0
  }

  /**
   * Every rounded weight belongs to a given currency, is the floor or the ceiling of that currency's
   * weight in basis points, and so has moved by strictly less than one basis point.
   */
  lemma RoundedWeight(ws: seq<Weighted>, p: nat) returns (i: nat)
    requires SumAccepted(ws) && InRange(ws) && p < |ws|
    ensures RoundWeights(ws).Success? && |RoundWeights(ws).value| == |ws|
    ensures i < |ws| && RoundWeights(ws).value[p].currency == ws[i].currency
    ensures IsBasisPoints(RoundWeights(ws).value[p].weight)
    ensures -0.01 < RoundWeights(ws).value[p].weight - ws[i].weight < 0.01
    ensures IsBasisPoints(ws[i].weight) ==> RoundWeights(ws).value[p].weight == ws[i].weight
  {
    i := AtRank(ws, p);
    FloorOrCeiling(ws[i].weight, BpsAt(ws, p, ws[i]));
  }

  lemma FloorOrCeiling(weight: real, bps: int)
    requires 0.0 <= weight <= 100.0
    requires var scaled := weight * 100.0;
      bps == scaled.Floor || (bps == scaled.Floor + 1 && scaled != scaled.Floor as real)
    ensures IsBasisPoints(bps as real / 100.0)
    ensures -0.01 < bps as real / 100.0 - weight < 0.01
    ensures IsBasisPoints(weight) ==> bps as real / 100.0 == weight
  {
    assert 0 <= bps <= BASKET_WEIGHT_BASIS_POINTS;
    Quantised(bps, bps as real / 100.0);
  }

  lemma Quantised(bps: int, weight: real)
    requires 0 <= bps <= BASKET_WEIGHT_BASIS_POINTS && weight == bps as real / 100.0
    ensures weight * 100.0 == bps as real && IsBasisPoints(weight)
    ensures MathRound(weight * 100.0) == bps
  {
  }

  function Fraction(w: Weighted): real { w.weight * 100.0 - (w.weight * 100.0).Floor as real }

  /** Of two weights the one with the larger fraction of a basis point is never the only one not rounded up. */
  lemma LargerFractionFirst(ws: seq<Weighted>, p: nat, q: nat) returns (i: nat, j: nat)
    requires SumAccepted(ws) && InRange(ws) && p < |ws| && q < |ws|
    ensures RoundWeights(ws).Success? && |RoundWeights(ws).value| == |ws| && i < |ws| && j < |ws|
    ensures var r := RoundWeights(ws).value;
      && r[p].currency == ws[i].currency && -0.01 < r[p].weight - ws[i].weight < 0.01
      && r[q].currency == ws[j].currency && -0.01 < r[q].weight - ws[j].weight < 0.01
      && (Fraction(ws[i]) > Fraction(ws[j]) && r[q].weight > ws[j].weight ==> r[p].weight > ws[i].weight)
  {
    MissingInRange(ws);
    RankingIsPermutation(ws);
    i := SourceOf(ws, p);
    j := SourceOf(ws, q);
    assert p < q ==> ByRemainder(Ranking(ws)[p], Ranking(ws)[q]);
    assert q < p ==> ByRemainder(Ranking(ws)[q], Ranking(ws)[p]);
  }

  lemma SourceOf(ws: seq<Weighted>, p: nat) returns (i: nat)
    requires SumAccepted(ws) && InRange(ws) && p < |ws|
    ensures RoundWeights(ws).Success? && |RoundWeights(ws).value| == |ws| && i < |ws| && p < |Ranking(ws)|
    ensures RoundWeights(ws).value[p].currency == ws[i].currency
    ensures -0.01 < RoundWeights(ws).value[p].weight - ws[i].weight < 0.01
    ensures Ranking(ws)[p].remainder == Fraction(ws[i])
    ensures RoundWeights(ws).value[p].weight > ws[i].weight <==> p < Missing(ws)
  {
    i := AtRank(ws, p);
    UpIff(ws[i].weight, BpsAt(ws, p, ws[i]), p < Missing(ws));
  }

  lemma UpIff(weight: real, bps: int, up: bool)
    requires var scaled := weight * 100.0; bps == scaled.Floor + if up then 1 else 0
    requires up ==> weight * 100.0 != (weight * 100.0).Floor as real
    ensures -0.01 < bps as real / 100.0 - weight < 0.01
    ensures bps as real / 100.0 > weight <==> up
  {
  }

  function Currencies(ws: seq<Weighted>): (r: seq<string>)
    ensures |r| == |ws| && forall i :: 0 <= i < |ws| ==> r[i] == ws[i].currency
  {
    seq(|ws|, i requires 0 <= i < |ws| => ws[i].currency)
  }

  function EntryCurrencies(es: seq<Entry>): (r: seq<string>)
    ensures |r| == |es| && forall i :: 0 <= i < |es| ==> r[i] == es[i].currency
  {
    seq(|es|, i requires 0 <= i < |es| => es[i].currency)
  }

  lemma {:induction false} CurrenciesPermutation(a: seq<Entry>, b: seq<Entry>)
    requires multiset(a) == multiset(b)
    ensures multiset(EntryCurrencies(a)) == multiset(EntryCurrencies(b))
    decreases |a|
  {
    if a == [] {
      assert |multiset(b)| == 0;
    } else {
      var k := CutPermutation(a, b);
      var rest := b[..k] + b[k + 1..];
      CurrenciesPermutation(a[1..], rest);
      var ca, cb := EntryCurrencies(a), EntryCurrencies(b);
      assert ca == [a[0].currency] + EntryCurrencies(a[1..]);
      assert EntryCurrencies(rest) == cb[..k] + cb[k + 1..];
      assert cb == cb[..k] + [cb[k]] + cb[k + 1..];
    }
  }

  /** No currency is dropped, added or repeated. */
  lemma CurrenciesKept(ws: seq<Weighted>)
    requires SumAccepted(ws) && InRange(ws)
    ensures RoundWeights(ws).Success?
    ensures multiset(Currencies(RoundWeights(ws).value)) == multiset(Currencies(ws))
  {
    MissingInRange(ws);
    RankingIsPermutation(ws);
    CurrenciesPermutation(Entries(ws), Ranking(ws));
    assert Currencies(RoundWeights(ws).value) == EntryCurrencies(Ranking(ws));
    assert Currencies(ws) == EntryCurrencies(Entries(ws));
  }

  lemma RoundedIsWhole(ws: seq<Weighted>)
    requires SumAccepted(ws) && InRange(ws)
    ensures RoundWeights(ws).Success? && |RoundWeights(ws).value| == |ws|
    ensures WholeBasisPoints(RoundWeights(ws).value)
  {
    ExactSum(ws);
    RankingIsPermutation(ws);
    forall p | 0 <= p < |ws| ensures IsBasisPoints(RoundWeights(ws).value[p].weight) {
      var _ := RoundedWeight(ws, p);
    }
  }

  lemma WholeEntry(w: Weighted)
    requires IsBasisPoints(w.weight)
    ensures ToEntry(w).remainder == 0.0 && ToEntry(w).floored as real / 100.0 == w.weight
  {
  }

  lemma WholeWeightsComeBack(ws: seq<Weighted>)
    requires WholeBasisPoints(ws)
    ensures InRange(ws) && forall i :: 0 <= i < |ws| ==> Entries(ws)[i].remainder == 0.0
    ensures ToWeights(Bump(Entries(ws), 0)) == ws
  {
    forall i | 0 <= i < |ws|
      ensures 0.0 <= ws[i].weight <= 100.0 && Entries(ws)[i].remainder == 0.0
      ensures ToWeights(Bump(Entries(ws), 0))[i] == ws[i]
    {
      assert IsBasisPoints(ws[i].weight);
      WholeEntry(ws[i]);
    }
  }

  lemma WholeWeightsMissNothing(ws: seq<Weighted>)
    requires WholeBasisPoints(ws) && TotalBy(ws, WeightOf) == BASKET_WEIGHTS_SUM
    ensures Ranking(ws) == Entries(ws) && Missing(ws) == 0
  {
    WholeWeightsComeBack(ws);
    SortFixpoint(Entries(ws), ByRemainder);
    ZeroRemainders(Entries(ws));
    MissingFromRemainders(ws);
  }

  /** Weights that are whole basis points and add up to 100 percent are a fixpoint, order included. */
  lemma WholeBasisPointsAreKept(ws: seq<Weighted>)
    requires WholeBasisPoints(ws) && TotalBy(ws, WeightOf) == BASKET_WEIGHTS_SUM
    ensures RoundWeights(ws) == Success(ws)
  {
    WholeWeightsComeBack(ws);
    WholeWeightsMissNothing(ws);
  }

  /** Rounding twice changes nothing. */
  lemma Idempotent(ws: seq<Weighted>)
    requires SumAccepted(ws) && InRange(ws)
    ensures RoundWeights(ws).Success?
    ensures RoundWeights(RoundWeights(ws).value) == RoundWeights(ws)
  {
    ExactSum(ws);
    RoundedIsWhole(ws);
    WholeBasisPointsAreKept(RoundWeights(ws).value);
  }

  // ----- the basket service -----

  /** A row of BasketConfig; rows come newest first. */
  datatype ConfigRow = ConfigRow(currency: string, weight: real, effectiveFrom: int)

  function RowWeightOf(r: ConfigRow): real { r.weight }

  /** Math.round: halves go up. */
  function MathRound(x: real): int { (x + 0.5).Floor }

  const DEFAULT_BASKET: seq<Weighted> := [
    Weighted("NGN", 18.0), Weighted("ZAR", 15.0), Weighted("KES", 12.0), Weighted("EGP", 11.0),
    Weighted("GHS", 9.0), Weighted("RWF", 8.0), Weighted("XOF", 8.0), Weighted("MAD", 7.0),
    Weighted("TZS", 6.0), Weighted("UGX", 6.0)]

  function Effective(rows: seq<ConfigRow>, stamp: int): seq<ConfigRow> {
    if rows == [] then []
    else (if rows[0].effectiveFrom == stamp then [rows[0]] else []) + Effective(rows[1..], stamp)
  }

  function Served(rows: seq<ConfigRow>): (r: seq<Weighted>)
    ensures |r| == |rows|
  {
    seq(|rows|, i requires 0 <= i < |rows| =>
      Weighted(rows[i].currency, MathRound(rows[i].weight * 100.0) as real / 100.0))
  }

  function GetCurrentBasket(rows: seq<ConfigRow>): Result<seq<Weighted>, Error> {
    if rows == [] then Success(DEFAULT_BASKET)
    else
      var current := Effective(rows, rows[0].effectiveFrom);
      if MathRound(TotalBy(current, RowWeightOf) * 100.0) != BASKET_WEIGHT_BASIS_POINTS
      then Failure(InvalidStoredSum)
      else Success(Served(current))
  }

  function Publish(ws: seq<Weighted>, stamp: int): (r: seq<ConfigRow>)
    ensures |r| == |ws|
    ensures forall i :: 0 <= i < |ws| ==> r[i] == ConfigRow(ws[i].currency, ws[i].weight, stamp)
  {
    seq(|ws|, i requires 0 <= i < |ws| => ConfigRow(ws[i].currency, ws[i].weight, stamp))
  }

  lemma {:induction false} EffectivePrefix(a: seq<ConfigRow>, b: seq<ConfigRow>, stamp: int)
    requires forall i :: 0 <= i < |a| ==> a[i].effectiveFrom == stamp
    requires forall i :: 0 <= i < |b| ==> b[i].effectiveFrom != stamp
    ensures Effective(a + b, stamp) == a
  {
    if a != [] {
      assert (a + b)[1..] == a[1..] + b;
      EffectivePrefix(a[1..], b, stamp);
    } else if b != [] {
      assert a + b == b;
      assert [] + b[1..] == b[1..];
      EffectivePrefix([], b[1..], stamp);
    }
  }

  lemma {:induction false} PublishedSum(ws: seq<Weighted>, stamp: int)
    ensures TotalBy(Publish(ws, stamp), RowWeightOf) == TotalBy(ws, WeightOf)
  {
    if ws != [] {
      PublishedSum(ws[1..], stamp);
      assert Publish(ws, stamp)[1..] == Publish(ws[1..], stamp);
    }
  }

  lemma ServedUnchanged(ws: seq<Weighted>, stamp: int)
    requires WholeBasisPoints(ws)
    ensures Served(Publish(ws, stamp)) == ws
  {
    forall p | 0 <= p < |ws| ensures Served(Publish(ws, stamp))[p] == ws[p] {
      assert IsBasisPoints(ws[p].weight);
      Quantised((ws[p].weight * 100.0).Floor, ws[p].weight);
    }
  }

  /** A rounded basket, once stored as the newest one, passes the sum check and is served unchanged. */
  lemma RoundedBasketIsServed(ws: seq<Weighted>, stamp: int, older: seq<ConfigRow>)
    requires SumAccepted(ws) && InRange(ws)
    requires forall i :: 0 <= i < |older| ==> older[i].effectiveFrom < stamp
    ensures RoundWeights(ws).Success?
    ensures GetCurrentBasket(Publish(RoundWeights(ws).value, stamp) + older) == Success(RoundWeights(ws).value)
  {
    ExactSum(ws);
    RoundedIsWhole(ws);
    var r := RoundWeights(ws).value;
    assert r != [];
    var rows := Publish(r, stamp);
    EffectivePrefix(rows, older, stamp);
    PublishedSum(r, stamp);
    ServedUnchanged(r, stamp);
  }

  /** The weight of a row if it is one of those that took effect at `stamp`. */
  function WeightAt(stamp: int): ConfigRow -> real {
    (r: ConfigRow) => if r.effectiveFrom == stamp then r.weight else 0.0
  }

  lemma {:induction false} EffectiveSum(rows: seq<ConfigRow>, stamp: int)
    ensures TotalBy(Effective(rows, stamp), RowWeightOf) == TotalBy(rows, WeightAt(stamp))
  {
    if rows != [] {
      EffectiveSum(rows[1..], stamp);
      var head := if rows[0].effectiveFrom == stamp then [rows[0]] else [];
      TotalByConcat(head, Effective(rows[1..], stamp), RowWeightOf);
      assert [rows[0]][1..] == [];
    }
  }

  lemma HundredPercent(sum: real)
    ensures MathRound(sum * 100.0) == 10000 <==> 99.995 <= sum < 100.005
  {
  }

  /** A stored basket is rejected exactly when its newest weights do not add up to 100 percent, to the basis point. */
  lemma StoredBasketRejectedIff(rows: seq<ConfigRow>)
    requires rows != []
    ensures GetCurrentBasket(rows).Failure? <==>
      !(99.995 <= TotalBy(rows, WeightAt(rows[0].effectiveFrom)) < 100.005)
  {
    EffectiveSum(rows, rows[0].effectiveFrom);
    HundredPercent(TotalBy(rows, WeightAt(rows[0].effectiveFrom)));
  }

  lemma Nearest(weight: real, served: real)
    requires served == MathRound(weight * 100.0) as real / 100.0
    ensures (served * 100.0).Floor as real == served * 100.0 && -0.005 < served - weight <= 0.005
  {
    assert served * 100.0 == MathRound(weight * 100.0) as real;
  }

  /** What is served: the newest rows, in their order, each weight the nearest whole basis point, halves up. */
  lemma StoredBasketServed(rows: seq<ConfigRow>, newest: nat)
    requires 0 < newest <= |rows| && GetCurrentBasket(rows).Success?
    requires forall i :: 0 <= i < |rows| ==> (rows[i].effectiveFrom == rows[0].effectiveFrom <==> i < newest)
    ensures var r := GetCurrentBasket(rows).value;
      && |r| == newest
      && forall i :: 0 <= i < newest ==>
           && r[i].currency == rows[i].currency
           && (r[i].weight * 100.0).Floor as real == r[i].weight * 100.0
           && -0.005 < r[i].weight - rows[i].weight <= 0.005
  {
    var stamp := rows[0].effectiveFrom;
    EffectivePrefix(rows[..newest], rows[newest..], stamp);
    assert rows == rows[..newest] + rows[newest..];
    var r := GetCurrentBasket(rows).value;
    forall i | 0 <= i < newest
      ensures r[i].currency == rows[i].currency
      ensures (r[i].weight * 100.0).Floor as real == r[i].weight * 100.0 && -0.005 < r[i].weight - rows[i].weight <= 0.005
    {
      Nearest(rows[i].weight, r[i].weight);
    }
  }

  lemma SumOfTen(ws: seq<Weighted>)
    requires |ws| == 10
    ensures TotalBy(ws, WeightOf) ==
      ws[0].weight + ws[1].weight + ws[2].weight + ws[3].weight + ws[4].weight
      + ws[5].weight + ws[6].weight + ws[7].weight + ws[8].weight + ws[9].weight
  {
    SumOfFive(ws[..5]);
    SumOfFive(ws[5..]);
    TotalByConcat(ws[..5], ws[5..], WeightOf);
    assert ws == ws[..5] + ws[5..];
  }

  lemma SumOfFive(ws: seq<Weighted>)
    requires |ws| == 5
    ensures TotalBy(ws, WeightOf) == ws[0].weight + ws[1].weight + ws[2].weight + ws[3].weight + ws[4].weight
  {
    var a := ws[1..];
    var b := a[1..];
    var c := b[1..];
    var d := c[1..];
    assert TotalBy(ws, WeightOf) == ws[0].weight + TotalBy(a, WeightOf) && TotalBy(a, WeightOf) == a[0].weight + TotalBy(b, WeightOf);
    assert TotalBy(b, WeightOf) == b[0].weight + TotalBy(c, WeightOf) && TotalBy(c, WeightOf) == c[0].weight + TotalBy(d, WeightOf);
    assert TotalBy(d, WeightOf) == d[0].weight + TotalBy(d[1..], WeightOf) && d[1..] == [];
  }

  ghost predicate WholePercentage(weight: real) { 0.0 <= weight <= 100.0 && weight.Floor as real == weight }

  lemma DefaultWeights(default: seq<Weighted>)
    requires default == DEFAULT_BASKET
    ensures |default| == 10
    ensures default[0].weight == 18.0 && default[1].weight == 15.0 && default[2].weight == 12.0
    ensures default[3].weight == 11.0 && default[4].weight == 9.0 && default[5].weight == 8.0
    ensures default[6].weight == 8.0 && default[7].weight == 7.0 && default[8].weight == 6.0 && default[9].weight == 6.0
    ensures forall i :: 0 <= i < |default| ==> WholePercentage(default[i].weight)
  {
  }

  lemma WholePercents(ws: seq<Weighted>)
    requires |ws| == 10 && TotalBy(ws, WeightOf) == 100.0
    requires forall i :: 0 <= i < |ws| ==> WholePercentage(ws[i].weight)
    ensures WholeBasisPoints(ws) && RoundWeights(ws) == Success(ws)
  {
    forall i | 0 <= i < |ws| ensures IsBasisPoints(ws[i].weight) {
      WholePercent(ws[i].weight);
    }
    WholeBasisPointsAreKept(ws);
  }

  /** Without stored rows the default basket is served; it is a basket that rounding leaves as it is. */
  lemma DefaultIsServed(default: seq<Weighted>)
    requires default == DEFAULT_BASKET
    ensures GetCurrentBasket([]) == Success(default)
    ensures WholeBasisPoints(default) && TotalBy(default, WeightOf) == 100.0 && RoundWeights(default) == Success(default)
  {
    DefaultWeights(default);
    SumOfTen(default);
    WholePercents(default);
  }

  lemma WholePercent(weight: real)
    requires WholePercentage(weight)
    ensures IsBasisPoints(weight)
  {
    assert weight * 100.0 == (weight.Floor * 100) as real;
  }
}
