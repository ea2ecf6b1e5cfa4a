/**
 * The government treasury aggregation (src/controllers/governmentController.ts): transactions grouped by
 * currency, reserves by currency and segment. Amounts are exact reals.
 */
module Treasury {
  import opened Sequences

  const TRANSACTIONS := "transactions"
  const INVESTMENT_SAVINGS := "investment_savings"

  datatype BasketEntry = BasketEntry(currency: string, weight: real)

  datatype Kind = Mint | Burn

  datatype Tx = Tx(
    kind: Kind, localCurrency: Option<string>, localAmount: Option<real>,
    acbuAmount: Option<real>, acbuAmountBurned: Option<real>)

  datatype Reserve = Reserve(currency: string, segment: string, amount: real, valueUsd: real)

  datatype Totals = Totals(minted: real, burned: real, mintedLocal: real, burnedLocal: real)

  datatype Held = Held(amount: real, valueUsd: real)

  const NO_TOTALS := Totals(0.0, 0.0, 0.0, 0.0)
  const NOTHING := Held(0.0, 0.0)

  datatype Row = Row(currency: string, targetWeight: Option<real>, tx: Totals, netAcbu: real,
                     inTransactions: Held, inSavings: Held)

  datatype Response = Response(
    totalBalanceAcbu: real, totalReserveExposureUsd: real,
    transactionsUsd: real, investmentSavingsUsd: real, byCurrency: seq<Row>)

  /** decimalToNumber: an absent amount counts as 0. */
  function Amount(a: Option<real>): real { if a.Some? then a.value else 0.0 }

  function Minted(t: Tx): real { if t.kind.Mint? then Amount(t.acbuAmount) else 0.0 }
  function Burned(t: Tx): real { if t.kind.Burn? then Amount(t.acbuAmountBurned) else 0.0 }
  function Net(t: Tx): real { Minted(t) - Burned(t) }

  /** A missing or empty currency is skipped by the grouping. */
  predicate HasCurrency(t: Tx) { t.localCurrency.Some? && t.localCurrency.value != "" }

  // ----- items with a key -----

  datatype Item = Item(key: string, value: real)

  function ValueOf(i: Item): real { i.value }

  function KeyedTotal(items: seq<Item>, key: string): real {
    if items == [] then 0.0
    else KeyedTotal(items[1..], key) + if items[0].key == key then items[0].value else 0.0
  }

  function TotalsByKey(items: seq<Item>): string -> real {
    (key: string) => KeyedTotal(items, key)
  }

  ghost predicate KeysIn(items: seq<Item>, keys: seq<string>) {
    forall i :: 0 <= i < |items| ==> items[i].key in keys
  }

  lemma {:induction false} NoItems(keys: seq<string>)
    ensures TotalBy(keys, TotalsByKey([])) == 0.0
  {
    if keys != [] {
      NoItems(keys[1..]);
    }
  }

  lemma {:induction false} OtherKeys(items: seq<Item>, keys: seq<string>)
    requires items != [] && items[0].key !in keys
    ensures TotalBy(keys, TotalsByKey(items)) == TotalBy(keys, TotalsByKey(items[1..]))
    decreases |keys|
  {
    if keys != [] {
      OtherKeys(items, keys[1..]);
    }
  }

  lemma {:induction false} OneItemMore(items: seq<Item>, keys: seq<string>)
    requires items != [] && NoDuplicates(keys) && items[0].key in keys
    ensures TotalBy(keys, TotalsByKey(items)) == TotalBy(keys, TotalsByKey(items[1..])) + items[0].value
    decreases |keys|
  {
    if keys[0] == items[0].key {
      assert items[0].key !in keys[1..];
      OtherKeys(items, keys[1..]);
    } else {
      OneItemMore(items, keys[1..]);
    }
  }

  /** Grouping conserves: the totals of all keys, each key listed once, add up to the total of the items. */
  lemma {:induction false} GroupingConserves(items: seq<Item>, keys: seq<string>)
    requires NoDuplicates(keys) && KeysIn(items, keys)
    ensures TotalBy(keys, TotalsByKey(items)) == TotalBy(items, ValueOf)
    decreases |items|
  {
    if items == [] {
      NoItems(keys);
    } else {
      assert forall i :: 0 <= i < |items[1..]| ==> items[1..][i] == items[i + 1];
      GroupingConserves(items[1..], keys);
      OneItemMore(items, keys);
    }
  }

  // ----- transactions -----

  function AddTx(m: map<string, Totals>, t: Tx): map<string, Totals> {
    if !HasCurrency(t) then m
    else
      var c := t.localCurrency.value;
      var current := if c in m then m[c] else NO_TOTALS;
      var local := Amount(t.localAmount);
      m[c := Totals(
        current.minted + Minted(t), current.burned + Burned(t),
        current.mintedLocal + (if t.kind.Mint? then local else 0.0),
        current.burnedLocal + (if t.kind.Burn? then local else 0.0))]
  }

  function Group(txs: seq<Tx>): map<string, Totals> {
    if txs == [] then map[] else AddTx(Group(txs[..|txs| - 1]), txs[|txs| - 1])
  }

  function TotalsOf(m: map<string, Totals>, c: string): Totals { if c in m then m[c] else NO_TOTALS }

  /** What a transaction contributes under its currency. */
  function NetItems(txs: seq<Tx>): seq<Item> {
    if txs == [] then [] else NetItem(txs[0]) + NetItems(txs[1..])
  }

  function NetItem(t: Tx): seq<Item> {
    if HasCurrency(t) then [Item(t.localCurrency.value, Net(t))] else []
  }

  function NetWithoutCurrency(txs: seq<Tx>): real {
    if txs == [] then 0.0
    else NetWithoutCurrency(txs[1..]) + if HasCurrency(txs[0]) then 0.0 else Net(txs[0])
  }

  lemma {:induction false} KeyedTotalConcat(a: seq<Item>, b: seq<Item>, key: string)
    ensures KeyedTotal(a + b, key) == KeyedTotal(a, key) + KeyedTotal(b, key)
  {
    if a == [] {
      assert a + b == b;
    } else {
      assert (a + b)[1..] == a[1..] + b;
      KeyedTotalConcat(a[1..], b, key);
    }
  }

  lemma {:induction false} NetItemsConcat(a: seq<Tx>, b: seq<Tx>)
    ensures NetItems(a + b) == NetItems(a) + NetItems(b)
  {
    if a == [] {
      assert a + b == b;
    } else {
      assert (a + b)[1..] == a[1..] + b;
      NetItemsConcat(a[1..], b);
      assert NetItem(a[0]) + (NetItems(a[1..]) + NetItems(b)) == NetItem(a[0]) + NetItems(a[1..]) + NetItems(b);
    }
  }

  /** The grouped totals of a currency are the sum of its transactions. */
  lemma {:induction false} GroupIsKeyed(txs: seq<Tx>, c: string)
    ensures TotalsOf(Group(txs), c).minted - TotalsOf(Group(txs), c).burned == KeyedTotal(NetItems(txs), c)
    decreases |txs|
  {
    if txs != [] {
      var before, last := txs[..|txs| - 1], txs[|txs| - 1];
      GroupIsKeyed(before, c);
      assert txs == before + [last];
      NetItemsConcat(before, [last]);
      AddTxTotals(Group(before), last, c);
      assert NetItems([last]) == NetItem(last);
      KeyedTotalConcat(NetItems(before), NetItem(last), c);
    }
  }

  lemma AddTxTotals(m: map<string, Totals>, t: Tx, c: string)
    ensures var x, y := TotalsOf(m, c), TotalsOf(AddTx(m, t), c);
      y.minted - y.burned == x.minted - x.burned + KeyedTotal(NetItem(t), c)
  {
  }

  lemma {:induction false} NetSplits(txs: seq<Tx>)
    ensures TotalBy(txs, Net) == TotalBy(NetItems(txs), ValueOf) + NetWithoutCurrency(txs)
  {
    if txs != [] {
      NetSplits(txs[1..]);
      TotalByConcat(NetItem(txs[0]), NetItems(txs[1..]), ValueOf);
    }
  }

  // ----- reserves -----

  function ReserveKey(currency: string, segment: string): string { currency + ":" + segment }

  predicate KnownSegment(s: string) { s == TRANSACTIONS || s == INVESTMENT_SAVINGS }

  /** The concatenated map key determines currency and segment. */
  lemma ReserveKeyInjective(c: string, s: string, c': string, s': string)
    requires KnownSegment(s) && KnownSegment(s') && ReserveKey(c, s) == ReserveKey(c', s')
    ensures c == c' && s == s'
  {
    var k, k' := ReserveKey(c, s), ReserveKey(c', s');
    assert k[|k| - 2] == s[|s| - 2] && k'[|k'| - 2] == s'[|s'| - 2];
    assert s == s';
    assert k[..|c|] == c && k'[..|c'|] == c';
  }

  function ReserveMap(rs: seq<Reserve>): map<string, Held> {
    if rs == [] then map[]
    else
      var last := rs[|rs| - 1];
      ReserveMap(rs[..|rs| - 1])[ReserveKey(last.currency, last.segment) := Held(last.amount, last.valueUsd)]
  }

  function HeldOf(m: map<string, Held>, c: string, s: string): Held {
    if ReserveKey(c, s) in m then m[ReserveKey(c, s)] else NOTHING
  }

  /** What `distinct: ["currency", "segment"]` and the segment filter of the query guarantee. */
  ghost predicate LatestReserves(rs: seq<Reserve>) {
    && (forall i :: 0 <= i < |rs| ==> KnownSegment(rs[i].segment))
    && forall i, j :: 0 <= i < j < |rs| ==> rs[i].currency != rs[j].currency || rs[i].segment != rs[j].segment
  }

  function SegmentItems(rs: seq<Reserve>, s: string): seq<Item> {
    if rs == [] then []
    else
      var before, last := rs[..|rs| - 1], rs[|rs| - 1];
      SegmentItems(before, s) + (if last.segment == s then [Item(last.currency, last.valueUsd)] else [])
  }

  function UsdOf(r: Reserve): real { r.valueUsd }

  lemma {:induction false} NoSuchReserve(rs: seq<Reserve>, c: string, s: string)
    requires forall i :: 0 <= i < |rs| ==> rs[i].currency != c || rs[i].segment != s
    ensures KeyedTotal(SegmentItems(rs, s), c) == 0.0
    decreases |rs|
  {
    if rs != [] {
      var before, last := rs[..|rs| - 1], rs[|rs| - 1];
      NoSuchReserve(before, c, s);
      var tail := if last.segment == s then [Item(last.currency, last.valueUsd)] else [];
      KeyedTotalConcat(SegmentItems(before, s), tail, c);
    }
  }

  /** Looking a reserve up by its concatenated key finds the value of that currency and segment. */
  lemma {:induction false} LookupIsKeyed(rs: seq<Reserve>, c: string, s: string)
    requires LatestReserves(rs) && KnownSegment(s)
    ensures HeldOf(ReserveMap(rs), c, s).valueUsd == KeyedTotal(SegmentItems(rs, s), c)
    decreases |rs|
  {
    if rs != [] {
      var before, last := rs[..|rs| - 1], rs[|rs| - 1];
      LookupIsKeyed(before, c, s);
      var tail := if last.segment == s then [Item(last.currency, last.valueUsd)] else [];
      KeyedTotalConcat(SegmentItems(before, s), tail, c);
      if last.currency == c && last.segment == s {
        NoSuchReserve(before, c, s);
      } else if ReserveKey(last.currency, last.segment) == ReserveKey(c, s) {
        ReserveKeyInjective(last.currency, last.segment, c, s);
      }
    }
  }

  lemma {:induction false} SegmentsCoverReserves(rs: seq<Reserve>)
    requires LatestReserves(rs)
    ensures TotalBy(SegmentItems(rs, TRANSACTIONS), ValueOf) + TotalBy(SegmentItems(rs, INVESTMENT_SAVINGS), ValueOf)
         == TotalBy(rs, UsdOf)
    decreases |rs|
  {
    if rs != [] {
      var before, last := rs[..|rs| - 1], rs[|rs| - 1];
      SegmentsCoverReserves(before);
      assert rs == before + [last];
      TotalByConcat(before, [last], UsdOf);
      var item := Item(last.currency, last.valueUsd);
      TotalByConcat(SegmentItems(before, TRANSACTIONS), if last.segment == TRANSACTIONS then [item] else [], ValueOf);
      TotalByConcat(SegmentItems(before, INVESTMENT_SAVINGS),
        if last.segment == INVESTMENT_SAVINGS then [item] else [], ValueOf);
    }
  }

  // ----- the currency universe and its order -----

  /** Adding to a Set, whose elements keep their insertion order. */
  function Enlist(s: seq<string>, x: string): seq<string> { if x in s then s else s + [x] }

  function EnlistAll(s: seq<string>, xs: seq<string>): seq<string>
    decreases |xs|
  {
    if xs == [] then s else EnlistAll(Enlist(s, xs[0]), xs[1..])
  }

  lemma {:induction false} EnlistAllIsUnion(s: seq<string>, xs: seq<string>)
    requires NoDuplicates(s)
    ensures NoDuplicates(EnlistAll(s, xs))
    ensures forall x :: x in EnlistAll(s, xs) <==> x in s || x in xs
    decreases |xs|
  {
    if xs != [] {
      EnlistAllIsUnion(Enlist(s, xs[0]), xs[1..]);
      assert xs == [xs[0]] + xs[1..];
    }
  }

  predicate StringLe(a: string, b: string)
    decreases |a|
  {
    a == "" || (b != "" && (a[0] < b[0] || (a[0] == b[0] && StringLe(a[1..], b[1..]))))
  }

  /** `a` and `b` agree on the first `k` characters, and there `a` ends or has the smaller character. */
  ghost predicate SmallerAt(a: string, b: string, k: nat) {
    k <= |a| && k <= |b| && a[..k] == b[..k] && (k == |a| || (k < |b| && a[k] < b[k]))
  }

  /** The order is the lexicographic one, by character codes. */
  lemma {:induction false} StringLeIff(a: string, b: string)
    ensures StringLe(a, b) <==> exists k: nat :: SmallerAt(a, b, k)
    decreases |a|
  {
    if a == "" || b == "" || a[0] != b[0] {
      assert a == "" || (b != "" && a[0] < b[0]) ==> SmallerAt(a, b, 0);
    } else {
      StringLeIff(a[1..], b[1..]);
      if k: nat :| SmallerAt(a[1..], b[1..], k) {
        assert a[..k + 1] == [a[0]] + a[1..][..k] && b[..k + 1] == [b[0]] + b[1..][..k];
        assert SmallerAt(a, b, k + 1);
      }
      if k: nat :| SmallerAt(a, b, k) {
        if k > 0 {
          assert a[1..][..k - 1] == a[..k][1..] && b[1..][..k - 1] == b[..k][1..];
          assert SmallerAt(a[1..], b[1..], k - 1);
        }
      }
    }
  }

  lemma {:induction false} StringLeTotal(a: string, b: string)
    ensures StringLe(a, b) || StringLe(b, a)
  {
    if a != "" && b != "" && a[0] == b[0] {
      StringLeTotal(a[1..], b[1..]);
    }
  }

  lemma {:induction false} StringLeTransitive(a: string, b: string, c: string)
    requires StringLe(a, b) && StringLe(b, c)
    ensures StringLe(a, c)
  {
    if a != "" && a[0] == b[0] && b[0] == c[0] {
      StringLeTransitive(a[1..], b[1..], c[1..]);
    }
  }

  lemma StringLeIsTotalPreorder()
    ensures TotalPreorder(StringLe)
  {
    forall a, b ensures StringLe(a, b) || StringLe(b, a) {
      StringLeTotal(a, b);
    }
    forall a, b, c | StringLe(a, b) && StringLe(b, c) ensures StringLe(a, c) {
      StringLeTransitive(a, b, c);
    }
  }

  function Without(s: seq<string>, x: string): seq<string> {
    if s == [] then [] else (if s[0] == x then [] else [s[0]]) + Without(s[1..], x)
  }

  lemma {:induction false} WithoutRemoves(s: seq<string>, x: string)
    requires NoDuplicates(s)
    ensures NoDuplicates(Without(s, x))
    ensures forall y :: y in Without(s, x) <==> y in s && y != x
  {
    if s != [] {
      assert s == [s[0]] + s[1..];
      WithoutRemoves(s[1..], x);
      assert s[0] !in s[1..];
      assert s[0] != x ==> Without(s, x) == [s[0]] + Without(s[1..], x);
      assert s[0] == x ==> Without(s, x) == Without(s[1..], x);
    }
  }

  function FirstIndex(s: seq<string>, x: string): (r: nat)
    requires x in s
    ensures r < |s| && s[r] == x && x !in s[..r]
  {
    if s[0] == x then 0
    else
      var r := 1 + FirstIndex(s[1..], x);
      assert s[..r] == [s[0]] + s[1..][..r - 1];
      r
  }

  /** The elements of `a` stand in the order in which they first occur in `b`. */
  ghost predicate InFirstOrder(a: seq<string>, b: seq<string>) {
    && (forall i :: 0 <= i < |a| ==> a[i] in b)
    && forall i, j :: 0 <= i < j < |a| ==> FirstIndex(b, a[i]) < FirstIndex(b, a[j])
  }

  lemma {:induction false} FirstIndexStays(b: seq<string>, x: string, c: string)
    requires x in b
    ensures x in b + [c] && FirstIndex(b + [c], x) == FirstIndex(b, x)
  {
    assert (b + [c])[0] == b[0] && (b + [c])[1..] == b[1..] + [c];
    if b[0] != x {
      FirstIndexStays(b[1..], x, c);
    }
  }

  lemma {:induction false} FirstIndexOfNew(b: seq<string>, c: string)
    requires c !in b
    ensures FirstIndex(b + [c], c) == |b|
  {
    if b != [] {
      assert (b + [c])[1..] == b[1..] + [c];
      FirstIndexOfNew(b[1..], c);
    }
  }

  lemma InFirstOrderLonger(a: seq<string>, b: seq<string>, c: string)
    requires InFirstOrder(a, b)
    ensures InFirstOrder(a, b + [c])
    ensures c !in b ==> InFirstOrder(a + [c], b + [c])
  {
    forall i | 0 <= i < |a| ensures a[i] in b + [c] && FirstIndex(b + [c], a[i]) == FirstIndex(b, a[i]) {
      FirstIndexStays(b, a[i], c);
    }
    if c !in b {
      FirstIndexOfNew(b, c);
    }
  }

  /** What has been picked and what remains after looking at some preferred currencies. */
  ghost predicate Picked(ordered: seq<string>, remaining: seq<string>, preferred: seq<string>, currencies: seq<string>) {
    && NoDuplicates(ordered) && NoDuplicates(remaining) && Subsequence(ordered, preferred)
    && (forall c :: c in ordered <==> c in preferred && c in currencies)
    && (forall c :: c in remaining <==> c in currencies && c !in ordered)
  }

  lemma PickNext(ordered: seq<string>, remaining: seq<string>, preferred: seq<string>, currencies: seq<string>,
    c: string, longer: seq<string>)
    requires Picked(ordered, remaining, preferred, currencies) && longer == preferred + [c]
    ensures c in remaining ==> Picked(ordered + [c], Without(remaining, c), longer, currencies)
    ensures c !in remaining ==> Picked(ordered, remaining, longer, currencies)
  {
    if c in remaining {
      SubsequenceTake(ordered, preferred, c);
      WithoutRemoves(remaining, c);
    } else {
      SubsequenceSkip(ordered, preferred, c);
    }
  }

  /** What looking at some preferred currencies, one after the other, picks and leaves. */
  function Pick(preferred: seq<string>, currencies: seq<string>): (seq<string>, seq<string>) {
    if preferred == [] then ([], currencies)
    else
      var (ordered, remaining) := Pick(preferred[..|preferred| - 1], currencies);
      var c := preferred[|preferred| - 1];
      if c in remaining then (ordered + [c], Without(remaining, c)) else (ordered, remaining)
  }

  lemma {:induction false} PickIsPicked(
    preferred: seq<string>, currencies: seq<string>, ordered: seq<string>, remaining: seq<string>)
    requires NoDuplicates(currencies) && (ordered, remaining) == Pick(preferred, currencies)
    ensures Picked(ordered, remaining, preferred, currencies)
    decreases |preferred|
  {
    if preferred != [] {
      var before, c := preferred[..|preferred| - 1], preferred[|preferred| - 1];
      var (o, r) := Pick(before, currencies);
      PickIsPicked(before, currencies, o, r);
      PickNext(o, r, before, currencies, c, preferred);
    }
  }

  /** A repeated preferred currency keeps the place of its first occurrence. */
  lemma {:induction false} PickedInFirstOrder(preferred: seq<string>, currencies: seq<string>)
    requires NoDuplicates(currencies)
    ensures InFirstOrder(Pick(preferred, currencies).0, preferred)
    decreases |preferred|
  {
    if preferred != [] {
      var before, c := preferred[..|preferred| - 1], preferred[|preferred| - 1];
      var (ordered, remaining) := Pick(before, currencies);
      PickedInFirstOrder(before, currencies);
      PickIsPicked(before, currencies, ordered, remaining);
      assert c in remaining ==> c !in before;
      InFirstOrderLonger(ordered, before, c);
      assert before + [c] == preferred;
    }
  }

  /** The loop over the preferred currencies. */
  method PickPreferred(preferred: seq<string>, currencies: seq<string>)
    returns (ordered: seq<string>, remaining: seq<string>)
    requires NoDuplicates(currencies)
    ensures Picked(ordered, remaining, preferred, currencies) && InFirstOrder(ordered, preferred)
  {
    ordered, remaining := [], currencies;
    var i := 0;
    while i < |preferred|
      invariant 0 <= i <= |preferred| && (ordered, remaining) == Pick(preferred[..i], currencies)
    {
      assert preferred[..i + 1][..i] == preferred[..i];
      var currency := preferred[i];
      if currency in remaining {
        ordered, remaining := ordered + [currency], Without(remaining, currency);
      }
      i := i + 1;
    }
    assert preferred[..i] == preferred;
    PickIsPicked(preferred, currencies, ordered, remaining);
    PickedInFirstOrder(preferred, currencies);
  }

  lemma SortedRest(ordered: seq<string>, remaining: seq<string>, preferred: seq<string>, currencies: seq<string>)
    requires Picked(ordered, remaining, preferred, currencies)
    ensures var rest := Sort(remaining, StringLe);
      && Sorted(rest, StringLe) && NoDuplicates(ordered + rest)
      && forall c :: c in ordered + rest <==> c in currencies
  {
    StringLeIsTotalPreorder();
    SortCorrect(remaining, StringLe);
    var rest := Sort(remaining, StringLe);
    PermutationNoDuplicates(remaining, rest);
    forall c ensures c in rest <==> c in remaining {
      assert c in multiset(rest) <==> c in multiset(remaining);
    }
    forall i, j | 0 <= i < |ordered| && 0 <= j < |rest| ensures ordered[i] != rest[j] {
      assert rest[j] in rest;
    }
  }

  /** The basket order first, the rest sorted: `k` currencies come from the preferred order. */
  method GetOrderedCurrencies(preferred: seq<string>, currencies: seq<string>)
    returns (r: seq<string>, k: nat)
    requires NoDuplicates(currencies)
    ensures NoDuplicates(r) && forall c :: c in r <==> c in currencies
    ensures k <= |r| && Subsequence(r[..k], preferred) && InFirstOrder(r[..k], preferred)
    ensures Sorted(r[k..], StringLe)
    ensures forall c :: c in r[..k] <==> c in preferred && c in currencies
  {
    var ordered, remaining := PickPreferred(preferred, currencies);
    SortedRest(ordered, remaining, preferred, currencies);
    r, k := ordered + Sort(remaining, StringLe), |ordered|;
    assert r[..k] == ordered && r[k..] == Sort(remaining, StringLe);
  }

  /** `a` is obtained from `b` by leaving elements out. */
  predicate Subsequence(a: seq<string>, b: seq<string>) {
    a == [] || (b != [] && ((a[|a| - 1] == b[|b| - 1] && Subsequence(a[..|a| - 1], b[..|b| - 1]))
                            || Subsequence(a, b[..|b| - 1])))
  }

  lemma SubsequenceTake(a: seq<string>, b: seq<string>, x: string)
    requires Subsequence(a, b)
    ensures Subsequence(a + [x], b + [x])
  {
    assert (a + [x])[..|a|] == a && (b + [x])[..|b|] == b;
  }

  lemma SubsequenceSkip(a: seq<string>, b: seq<string>, x: string)
    requires Subsequence(a, b)
    ensures Subsequence(a, b + [x])
  {
    assert (b + [x])[..|b|] == b;
  }

  // ----- the response -----

  function NetOf(r: Row): real { r.netAcbu }
  function TransactionsUsdOf(r: Row): real { r.inTransactions.valueUsd }
  function SavingsUsdOf(r: Row): real { r.inSavings.valueUsd }
  function TotalUsdOf(r: Row): real { r.inTransactions.valueUsd + r.inSavings.valueUsd }

  /** The weight of the last basket entry with that currency. */
  function TargetWeight(basket: seq<BasketEntry>, c: string): Option<real> {
    if basket == [] then None
    else if basket[|basket| - 1].currency == c then Some(basket[|basket| - 1].weight)
    else TargetWeight(basket[..|basket| - 1], c)
  }

  function RowFor(basket: seq<BasketEntry>, txs: map<string, Totals>, rs: map<string, Held>, c: string): Row {
    var t := TotalsOf(txs, c);
    Row(c, TargetWeight(basket, c), t, t.minted - t.burned,
      HeldOf(rs, c, TRANSACTIONS), HeldOf(rs, c, INVESTMENT_SAVINGS))
  }

  function RowCurrencies(rows: seq<Row>): (r: seq<string>)
    ensures |r| == |rows| && forall i :: 0 <= i < |rows| ==> r[i] == rows[i].currency
  {
    seq(|rows|, i requires 0 <= i < |rows| => rows[i].currency)
  }

  function BasketCurrencies(basket: seq<BasketEntry>): (r: seq<string>)
    ensures |r| == |basket|
  {
    seq(|basket|, i requires 0 <= i < |basket| => basket[i].currency)
  }

  function TxCurrencies(txs: seq<Tx>): seq<string> {
    if txs == [] then [] else (if HasCurrency(txs[0]) then [txs[0].localCurrency.value] else []) + TxCurrencies(txs[1..])
  }

  function ReserveCurrencies(rs: seq<Reserve>): (r: seq<string>)
    ensures |r| == |rs| && forall i :: 0 <= i < |rs| ==> r[i] == rs[i].currency
  {
    seq(|rs|, i requires 0 <= i < |rs| => rs[i].currency)
  }

  function Universe(basket: seq<BasketEntry>, txs: seq<Tx>, rs: seq<Reserve>): seq<string> {
    EnlistAll(EnlistAll(EnlistAll([], BasketCurrencies(basket)), TxCurrencies(txs)), ReserveCurrencies(rs))
  }

  lemma UniverseIsUnion(basket: seq<BasketEntry>, txs: seq<Tx>, rs: seq<Reserve>)
    ensures NoDuplicates(Universe(basket, txs, rs))
    ensures forall c :: c in Universe(basket, txs, rs) <==>
      c in BasketCurrencies(basket) || c in TxCurrencies(txs) || c in ReserveCurrencies(rs)
  {
    var a := EnlistAll([], BasketCurrencies(basket));
    EnlistAllIsUnion([], BasketCurrencies(basket));
    EnlistAllIsUnion(a, TxCurrencies(txs));
    EnlistAllIsUnion(EnlistAll(a, TxCurrencies(txs)), ReserveCurrencies(rs));
  }

  lemma {:induction false} NetKeysAreListed(txs: seq<Tx>, keys: seq<string>)
    requires forall c :: c in TxCurrencies(txs) ==> c in keys
    ensures KeysIn(NetItems(txs), keys)
  {
    if txs != [] {
      NetKeysAreListed(txs[1..], keys);
      assert forall c :: c in TxCurrencies(txs[1..]) ==> c in TxCurrencies(txs);
      var head := NetItem(txs[0]);
      forall i | 0 <= i < |NetItems(txs)| ensures NetItems(txs)[i].key in keys {
        if i >= |head| {
          assert NetItems(txs)[i] == NetItems(txs[1..])[i - |head|];
        } else {
          assert TxCurrencies(txs)[0] == txs[0].localCurrency.value;
        }
      }
    }
  }

  lemma {:induction false} SegmentKeysAreListed(rs: seq<Reserve>, s: string, keys: seq<string>)
    requires forall i :: 0 <= i < |rs| ==> rs[i].currency in keys
    ensures KeysIn(SegmentItems(rs, s), keys)
    decreases |rs|
  {
    if rs != [] {
      SegmentKeysAreListed(rs[..|rs| - 1], s, keys);
    }
  }

  lemma {:induction false} RowTotals(rows: seq<Row>, keys: seq<string>, f: Row -> real, g: string -> real)
    requires |rows| == |keys| && forall i :: 0 <= i < |rows| ==> f(rows[i]) == g(keys[i])
    ensures TotalBy(rows, f) == TotalBy(keys, g)
  {
    if rows != [] {
      RowTotals(rows[1..], keys[1..], f, g);
    }
  }

  lemma {:induction false} UsdAddsUp(rows: seq<Row>)
    ensures TotalBy(rows, TotalUsdOf) == TotalBy(rows, TransactionsUsdOf) + TotalBy(rows, SavingsUsdOf)
  {
    if rows != [] {
      UsdAddsUp(rows[1..]);
    }
  }

  ghost predicate RowsFor(rows: seq<Row>, keys: seq<string>, basket: seq<BasketEntry>, txs: seq<Tx>, rs: seq<Reserve>) {
    && |rows| == |keys|
    && forall i :: 0 <= i < |rows| ==> rows[i] == RowFor(basket, Group(txs), ReserveMap(rs), keys[i])
  }

  /** The net of all rows and of the transactions without a currency is the net of all transactions. */
  lemma BalanceIsConserved(rows: seq<Row>, keys: seq<string>, basket: seq<BasketEntry>, txs: seq<Tx>, rs: seq<Reserve>)
    requires RowsFor(rows, keys, basket, txs, rs) && NoDuplicates(keys)
    requires forall c :: c in TxCurrencies(txs) ==> c in keys
    ensures TotalBy(txs, Net) == TotalBy(rows, NetOf) + NetWithoutCurrency(txs)
  {
    var items := NetItems(txs);
    NetSplits(txs);
    NetKeysAreListed(txs, keys);
    GroupingConserves(items, keys);
    forall i | 0 <= i < |rows| ensures NetOf(rows[i]) == TotalsByKey(items)(keys[i]) {
      GroupIsKeyed(txs, keys[i]);
    }
    RowTotals(rows, keys, NetOf, TotalsByKey(items));
  }

  lemma SegmentIsConserved(rows: seq<Row>, keys: seq<string>, rs: seq<Reserve>, s: string, f: Row -> real)
    requires LatestReserves(rs) && KnownSegment(s) && NoDuplicates(keys) && |rows| == |keys|
    requires forall i :: 0 <= i < |rs| ==> rs[i].currency in keys
    requires forall i :: 0 <= i < |rows| ==> f(rows[i]) == HeldOf(ReserveMap(rs), keys[i], s).valueUsd
    ensures TotalBy(rows, f) == TotalBy(SegmentItems(rs, s), ValueOf)
  {
    var items := SegmentItems(rs, s);
    SegmentKeysAreListed(rs, s, keys);
    GroupingConserves(items, keys);
    forall i | 0 <= i < |rows| ensures f(rows[i]) == TotalsByKey(items)(keys[i]) {
      LookupIsKeyed(rs, keys[i], s);
    }
    RowTotals(rows, keys, f, TotalsByKey(items));
  }

  /** Every latest reserve is counted exactly once, in one of the two segments. */
  lemma ReservesAreConserved(rows: seq<Row>, keys: seq<string>, basket: seq<BasketEntry>, txs: seq<Tx>, rs: seq<Reserve>)
    requires RowsFor(rows, keys, basket, txs, rs) && NoDuplicates(keys) && LatestReserves(rs)
    requires forall i :: 0 <= i < |rs| ==> rs[i].currency in keys
    ensures TotalBy(rows, TotalUsdOf) == TotalBy(rs, UsdOf)
  {
    SegmentIsConserved(rows, keys, rs, TRANSACTIONS, TransactionsUsdOf);
    SegmentIsConserved(rows, keys, rs, INVESTMENT_SAVINGS, SavingsUsdOf);
    SegmentsCoverReserves(rs);
    UsdAddsUp(rows);
  }

  // ----- what a row says -----

  /** What a transaction contributes to the row of a currency, by an amount read off it. */
  function InCurrency(c: string, f: Tx -> real): Tx -> real {
    (t: Tx) => if HasCurrency(t) && t.localCurrency.value == c then f(t) else 0.0
  }

  function MintedAcbu(t: Tx): real { if t.kind == Mint && t.acbuAmount.Some? then t.acbuAmount.value else 0.0 }
  function BurnedAcbu(t: Tx): real { if t.kind == Burn && t.acbuAmountBurned.Some? then t.acbuAmountBurned.value else 0.0 }
  function MintedLocal(t: Tx): real { if t.kind == Mint && t.localAmount.Some? then t.localAmount.value else 0.0 }
  function BurnedLocal(t: Tx): real { if t.kind == Burn && t.localAmount.Some? then t.localAmount.value else 0.0 }

  /** The four totals are the sums over the transactions of the currency. */
  ghost predicate TotalsFit(t: Totals, txs: seq<Tx>, c: string) {
    && t.minted == TotalBy(txs, InCurrency(c, MintedAcbu)) && t.burned == TotalBy(txs, InCurrency(c, BurnedAcbu))
    && t.mintedLocal == TotalBy(txs, InCurrency(c, MintedLocal))
    && t.burnedLocal == TotalBy(txs, InCurrency(c, BurnedLocal))
  }

  lemma TotalOfLonger(txs: seq<Tx>, f: Tx -> real)
    requires txs != []
    ensures TotalBy(txs, f) == TotalBy(txs[..|txs| - 1], f) + f(txs[|txs| - 1])
  {
    var last := txs[|txs| - 1];
    TotalByConcat(txs[..|txs| - 1], [last], f);
    assert txs == txs[..|txs| - 1] + [last];
    assert [last][1..] == [];
  }

  lemma InCurrencyAt(c: string, f: Tx -> real, t: Tx)
    ensures InCurrency(c, f)(t) == if HasCurrency(t) && t.localCurrency.value == c then f(t) else 0.0
  {
  }

  lemma AddTxFields(m: map<string, Totals>, t: Tx, c: string)
    ensures var x, y := TotalsOf(m, c), TotalsOf(AddTx(m, t), c);
      && y.minted == x.minted + InCurrency(c, MintedAcbu)(t) && y.burned == x.burned + InCurrency(c, BurnedAcbu)(t)
      && y.mintedLocal == x.mintedLocal + InCurrency(c, MintedLocal)(t)
      && y.burnedLocal == x.burnedLocal + InCurrency(c, BurnedLocal)(t)
  {
    InCurrencyAt(c, MintedAcbu, t);
    InCurrencyAt(c, BurnedAcbu, t);
    InCurrencyAt(c, MintedLocal, t);
    InCurrencyAt(c, BurnedLocal, t);
  }

  lemma {:induction false} GroupFits(txs: seq<Tx>, c: string)
    ensures TotalsFit(TotalsOf(Group(txs), c), txs, c)
    decreases |txs|
  {
    if txs != [] {
      GroupFits(txs[..|txs| - 1], c);
      AddTxFields(Group(txs[..|txs| - 1]), txs[|txs| - 1], c);
      TotalOfLonger(txs, InCurrency(c, MintedAcbu));
      TotalOfLonger(txs, InCurrency(c, BurnedAcbu));
      TotalOfLonger(txs, InCurrency(c, MintedLocal));
      TotalOfLonger(txs, InCurrency(c, BurnedLocal));
    }
  }

  /** What is held of a currency in a segment: the latest reserve of that name, amount and value, or nothing. */
  ghost predicate HeldFits(h: Held, rs: seq<Reserve>, c: string, s: string) {
    && (forall i :: 0 <= i < |rs| && rs[i].currency == c && rs[i].segment == s ==>
          h.amount == rs[i].amount && h.valueUsd == rs[i].valueUsd)
    && ((forall i :: 0 <= i < |rs| ==> rs[i].currency != c || rs[i].segment != s) ==>
          h.amount == 0.0 && h.valueUsd == 0.0)
  }

  lemma {:induction false} LookupFits(rs: seq<Reserve>, c: string, s: string)
    requires LatestReserves(rs) && KnownSegment(s)
    ensures HeldFits(HeldOf(ReserveMap(rs), c, s), rs, c, s)
    decreases |rs|
  {
    if rs != [] {
      var before, last := rs[..|rs| - 1], rs[|rs| - 1];
      LookupFits(before, c, s);
      assert forall i :: 0 <= i < |before| ==> before[i] == rs[i];
      if ReserveKey(last.currency, last.segment) == ReserveKey(c, s) {
        ReserveKeyInjective(last.currency, last.segment, c, s);
      }
    }
  }

  ghost predicate NotIn(basket: seq<BasketEntry>, c: string) {
    forall i :: 0 <= i < |basket| ==> basket[i].currency != c
  }

  /** The target weight is that of the last basket entry of the currency, or missing. */
  ghost predicate WeightFits(w: Option<real>, basket: seq<BasketEntry>, c: string) {
    && (w.None? <==> NotIn(basket, c))
    && (w.Some? ==> exists i :: 0 <= i < |basket| && basket[i] == BasketEntry(c, w.value) && NotIn(basket[i + 1..], c))
  }

  lemma {:induction false} TargetWeightFits(basket: seq<BasketEntry>, c: string)
    ensures WeightFits(TargetWeight(basket, c), basket, c)
    decreases |basket|
  {
    if basket != [] {
      var before, last := basket[..|basket| - 1], basket[|basket| - 1];
      TargetWeightFits(before, c);
      if last.currency == c {
        assert basket[|basket| - 1] == BasketEntry(c, last.weight);
      } else if TargetWeight(before, c).Some? {
        var i :| 0 <= i < |before| && before[i] == BasketEntry(c, TargetWeight(before, c).value)
          && NotIn(before[i + 1..], c);
        assert basket[i] == before[i] && basket[i + 1..] == before[i + 1..] + [last];
      } else {
        assert forall i :: 0 <= i < |basket| ==> i == |basket| - 1 || basket[i] == before[i];
      }
    }
  }

  /** A row of the response tells the truth about basket, transactions and latest reserves. */
  ghost predicate RowFits(row: Row, basket: seq<BasketEntry>, txs: seq<Tx>, rs: seq<Reserve>) {
    && WeightFits(row.targetWeight, basket, row.currency)
    && TotalsFit(row.tx, txs, row.currency) && row.netAcbu == row.tx.minted - row.tx.burned
    && (LatestReserves(rs) ==>
          && HeldFits(row.inTransactions, rs, row.currency, "transactions")
          && HeldFits(row.inSavings, rs, row.currency, "investment_savings"))
  }

  lemma RowForFits(basket: seq<BasketEntry>, txs: seq<Tx>, rs: seq<Reserve>, c: string)
    ensures RowFits(RowFor(basket, Group(txs), ReserveMap(rs), c), basket, txs, rs)
    ensures RowFor(basket, Group(txs), ReserveMap(rs), c).currency == c
  {
    TargetWeightFits(basket, c);
    GroupFits(txs, c);
    if LatestReserves(rs) {
      LookupFits(rs, c, TRANSACTIONS);
      LookupFits(rs, c, INVESTMENT_SAVINGS);
    }
  }

  /** The USD value of the reserves of one segment. */
  function SegmentUsd(s: string): Reserve -> real {
    (r: Reserve) => if r.segment == s then r.valueUsd else 0.0
  }

  lemma {:induction false} SegmentTotal(rs: seq<Reserve>, s: string)
    ensures TotalBy(SegmentItems(rs, s), ValueOf) == TotalBy(rs, SegmentUsd(s))
    decreases |rs|
  {
    if rs != [] {
      var before, last := rs[..|rs| - 1], rs[|rs| - 1];
      SegmentTotal(before, s);
      assert rs == before + [last];
      assert [last][1..] == [];
      TotalByConcat(before, [last], SegmentUsd(s));
      TotalByConcat(SegmentItems(before, s), if last.segment == s then [Item(last.currency, last.valueUsd)] else [], ValueOf);
    }
  }

  lemma SegmentsAreConserved(rows: seq<Row>, keys: seq<string>, basket: seq<BasketEntry>, txs: seq<Tx>, rs: seq<Reserve>)
    requires RowsFor(rows, keys, basket, txs, rs) && NoDuplicates(keys) && LatestReserves(rs)
    requires forall i :: 0 <= i < |rs| ==> rs[i].currency in keys
    ensures TotalBy(rows, TransactionsUsdOf) == TotalBy(rs, SegmentUsd("transactions"))
    ensures TotalBy(rows, SavingsUsdOf) == TotalBy(rs, SegmentUsd("investment_savings"))
  {
    SegmentIsConserved(rows, keys, rs, TRANSACTIONS, TransactionsUsdOf);
    SegmentIsConserved(rows, keys, rs, INVESTMENT_SAVINGS, SavingsUsdOf);
    SegmentTotal(rs, TRANSACTIONS);
    SegmentTotal(rs, INVESTMENT_SAVINGS);
  }

  lemma NetOfTransaction(t: Tx)
    ensures Net(t) == MintedAcbu(t) - BurnedAcbu(t)
  {
  }

  /** The two aggregation loops of getGovernmentTreasury and the response built from their maps. */
  method GetGovernmentTreasury(basket: seq<BasketEntry>, txs: seq<Tx>, rs: seq<Reserve>) returns (r: Response, ghost fromBasket: nat)
    ensures r.totalBalanceAcbu == TotalBy(r.byCurrency, NetOf) + NetWithoutCurrency(txs)
    ensures r.totalBalanceAcbu == TotalBy(txs, Net)
    ensures r.totalReserveExposureUsd == r.transactionsUsd + r.investmentSavingsUsd
    ensures LatestReserves(rs) ==> r.totalReserveExposureUsd == TotalBy(rs, UsdOf)
    ensures NoDuplicates(RowCurrencies(r.byCurrency))
    ensures forall c :: c in Universe(basket, txs, rs) <==> c in RowCurrencies(r.byCurrency)
    ensures forall i :: 0 <= i < |r.byCurrency| ==> RowFits(r.byCurrency[i], basket, txs, rs)
    ensures r.transactionsUsd == TotalBy(r.byCurrency, TransactionsUsdOf)
    ensures r.investmentSavingsUsd == TotalBy(r.byCurrency, SavingsUsdOf)
    ensures LatestReserves(rs) ==>
      && r.transactionsUsd == TotalBy(rs, SegmentUsd("transactions"))
      && r.investmentSavingsUsd == TotalBy(rs, SegmentUsd("investment_savings"))
    ensures var listed := RowCurrencies(r.byCurrency);
      && fromBasket <= |listed| && Subsequence(listed[..fromBasket], BasketCurrencies(basket))
      && InFirstOrder(listed[..fromBasket], BasketCurrencies(basket))
      && (forall c :: c in BasketCurrencies(basket) <==> c in listed[..fromBasket])
      && Sorted(listed[fromBasket..], StringLe)
  {
    var reserveMap := CollectReserves(rs);
    var txMap, total := CollectTransactions(txs);
    UniverseIsUnion(basket, txs, rs);
    var keys, k := GetOrderedCurrencies(BasketCurrencies(basket), Universe(basket, txs, rs));
    fromBasket := k;
    var rows := seq(|keys|, i requires 0 <= i < |keys| => RowFor(basket, txMap, reserveMap, keys[i]));
    assert RowCurrencies(rows) == keys;
    UniverseIsListed(basket, txs, rs, keys);
    BalanceIsConserved(rows, keys, basket, txs, rs);
    UsdAddsUp(rows);
    if LatestReserves(rs) {
      ReservesAreConserved(rows, keys, basket, txs, rs);
      SegmentsAreConserved(rows, keys, basket, txs, rs);
    }
    forall i | 0 <= i < |rows| ensures RowFits(rows[i], basket, txs, rs) {
      RowForFits(basket, txs, rs, keys[i]);
    }
    r := Response(total, TotalBy(rows, TotalUsdOf), TotalBy(rows, TransactionsUsdOf), TotalBy(rows, SavingsUsdOf), rows);
  }

  lemma UniverseIsListed(basket: seq<BasketEntry>, txs: seq<Tx>, rs: seq<Reserve>, keys: seq<string>)
    requires forall c :: c in keys <==> c in Universe(basket, txs, rs)
    ensures forall c :: c in TxCurrencies(txs) ==> c in keys
    ensures forall c :: c in BasketCurrencies(basket) ==> c in keys
    ensures forall i :: 0 <= i < |rs| ==> rs[i].currency in keys
  {
    UniverseIsUnion(basket, txs, rs);
    forall i | 0 <= i < |rs| ensures rs[i].currency in keys {
      assert ReserveCurrencies(rs)[i] in ReserveCurrencies(rs);
    }
  }

  method CollectReserves(rs: seq<Reserve>) returns (m: map<string, Held>)
    ensures m == ReserveMap(rs)
  {
    m := map[];
    var i := 0;
    while i < |rs|
      invariant 0 <= i <= |rs| && m == ReserveMap(rs[..i])
    {
      assert rs[..i + 1][..i] == rs[..i];
      m := m[ReserveKey(rs[i].currency, rs[i].segment) := Held(rs[i].amount, rs[i].valueUsd)];
      i := i + 1;
    }
    assert rs[..i] == rs;
  }

  method CollectTransactions(txs: seq<Tx>) returns (m: map<string, Totals>, totalBalanceAcbu: real)
    ensures m == Group(txs) && totalBalanceAcbu == TotalBy(txs, Net)
  {
    m, totalBalanceAcbu := map[], 0.0;
    var i := 0;
    while i < |txs|
      invariant 0 <= i <= |txs| && m == Group(txs[..i]) && totalBalanceAcbu == TotalBy(txs[..i], Net)
    {
      assert txs[..i + 1] == txs[..i] + [txs[i]];
      TotalByConcat(txs[..i], [txs[i]], Net);
      totalBalanceAcbu := totalBalanceAcbu + (Minted(txs[i]) - Burned(txs[i]));
      m := AddTx(m, txs[i]);
      i := i + 1;
    }
    assert txs[..i] == txs;
  }
}
