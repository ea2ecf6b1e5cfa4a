/**
 * The bulk-transfer job (src/services/enterpriseService.ts): chunked processing of uploaded rows over a
 * transaction table with unique idempotency keys. The key digest and the row schema are parameters.
 */
module BulkTransfer {
  import opened Sequences

  datatype Row = Row(to: string, amountAcbu: string, reference: Option<string>, idempotencyKey: Option<string>)

  /** What the row schema says: the trimmed row, or the joined messages of its issues. */
  datatype Validation = Valid(row: Row) | Invalid(message: string)

  datatype TxStatus = TxCompleted | TxFailed | TxPending

  datatype Tx = Tx(id: nat, key: string, status: TxStatus, recipient: string, amountAcbu: string)

  datatype RowStatus = RowSuccess | RowFailure | RowSkipped

  datatype RowResult = RowResult(
    rowIndex: nat, key: string, status: RowStatus, transactionId: Option<nat>, errorMessage: Option<string>)

  datatype Error = Unauthorized | TooManyRows

  /** Everything that stays fixed while one file is processed. */
  datatype Request = Request(
    organizationId: string, sender: Option<string>, senderExists: bool,
    validate: Row -> Validation, digest: string -> string)
  {
    predicate HasSender() { sender.Some? && sender.value != "" }
  }

  datatype Outcome = Outcome(table: seq<Tx>, results: seq<RowResult>)

  function OrEmpty(s: Option<string>): string { if s.Some? then s.value else "" }

  function DeriveKey(req: Request, row: Row): string {
    req.digest(KeyText(req.organizationId, row))
  }

  // ----- when two rows share a key -----

  const SEPARATOR := '|'

  /** A character in front of a text that has been split into pieces. */
  function Extend(c: char, pieces: seq<string>): (r: seq<string>)
    requires pieces != []
    ensures r != []
  {
    if c == SEPARATOR then [""] + pieces else [[c] + pieces[0]] + pieces[1..]
  }

  /** The pieces of a text between separators. */
  function Split(s: string): (r: seq<string>)
    ensures r != []
  {
    if s == "" then [""] else Extend(s[0], Split(s[1..]))
  }

  function Join(pieces: seq<string>): string
    requires pieces != []
  {
    if |pieces| == 1 then pieces[0] else pieces[0] + [SEPARATOR] + Join(pieces[1..])
  }

  lemma JoinOfExtended(c: char, pieces: seq<string>)
    requires pieces != []
    ensures Join(Extend(c, pieces)) == [c] + Join(pieces)
  {
    var r := Extend(c, pieces);
    if c == SEPARATOR {
      assert r[1..] == pieces;
    } else {
      assert r[1..] == pieces[1..];
    }
  }

  lemma {:induction false} JoinOfSplit(s: string)
    ensures Join(Split(s)) == s
  {
    if s != "" {
      JoinOfSplit(s[1..]);
      JoinOfExtended(s[0], Split(s[1..]));
    }
  }

  lemma ExtendConcat(c: char, a: seq<string>, b: seq<string>)
    requires a != []
    ensures Extend(c, a + b) == Extend(c, a) + b
  {
    assert (a + b)[1..] == a[1..] + b;
  }

  /** Splitting a joined pair: `joined` is `a`, the separator and `b`. */
  lemma {:induction false} SplitOfJoined(a: string, b: string, joined: string)
    requires joined == a + [SEPARATOR] + b
    ensures Split(joined) == Split(a) + Split(b)
    decreases |a|
  {
    if a == "" {
      assert joined[1..] == b;
    } else {
      assert joined[0] == a[0] && joined[1..] == a[1..] + [SEPARATOR] + b;
      SplitOfJoined(a[1..], b, joined[1..]);
      ExtendConcat(a[0], Split(a[1..]), Split(b));
    }
  }

  /** `[organizationId, recipient, amountAcbu, reference ?? "", rowKey ?? ""].join("|")` */
  function KeyText(organizationId: string, row: Row): string {
    WithSeparator(WithSeparator(WithSeparator(WithSeparator(
      organizationId, row.to), row.amountAcbu), OrEmpty(row.reference)), OrEmpty(row.idempotencyKey))
  }

  function WithSeparator(a: string, b: string): string { a + [SEPARATOR] + b }

  /** All pieces of a row, wherever its fields end. */
  function Pieces(row: Row): seq<string> {
    Split(row.to) + Split(row.amountAcbu) + Split(OrEmpty(row.reference)) + Split(OrEmpty(row.idempotencyKey))
  }

  lemma SplitOfKey(organizationId: string, row: Row)
    ensures Split(KeyText(organizationId, row)) == Split(organizationId) + Pieces(row)
  {
    var r, k := OrEmpty(row.reference), OrEmpty(row.idempotencyKey);
    var t1 := WithSeparator(organizationId, row.to);
    var t2 := WithSeparator(t1, row.amountAcbu);
    var t3 := WithSeparator(t2, r);
    SplitOfJoined(organizationId, row.to, t1);
    SplitOfJoined(t1, row.amountAcbu, t2);
    SplitOfJoined(t2, r, t3);
    SplitOfJoined(t3, k, WithSeparator(t3, k));
    Regroup(Split(organizationId), Split(row.to), Split(row.amountAcbu), Split(r), Split(k));
  }

  lemma Regroup<T>(a: seq<T>, b: seq<T>, c: seq<T>, d: seq<T>, e: seq<T>)
    ensures a + b + c + d + e == a + (b + c + d + e)
  {
  }

  ghost predicate Injective(digest: string -> string) {
    forall x, y :: digest(x) == digest(y) ==> x == y
  }

  /**
   * With a digest that never collides, two rows of one organization share a key exactly when their fields,
   * cut at every separator, are the same list of pieces: where one field ends and the next begins is not part
   * of the key.
   */
  lemma SharedKeyIff(req: Request, a: Row, b: Row)
    requires Injective(req.digest)
    ensures DeriveKey(req, a) == DeriveKey(req, b) <==> Pieces(a) == Pieces(b)
  {
    var x, y := KeyText(req.organizationId, a), KeyText(req.organizationId, b);
    SplitOfKey(req.organizationId, a);
    SplitOfKey(req.organizationId, b);
    JoinOfSplit(x);
    JoinOfSplit(y);
    assert (Split(req.organizationId) + Pieces(a))[|Split(req.organizationId)|..] == Pieces(a);
    assert (Split(req.organizationId) + Pieces(b))[|Split(req.organizationId)|..] == Pieces(b);
  }

  ghost predicate SameTexts(a: Row, b: Row) {
    && a.to == b.to && a.amountAcbu == b.amountAcbu
    && OrEmpty(a.reference) == OrEmpty(b.reference) && OrEmpty(a.idempotencyKey) == OrEmpty(b.idempotencyKey)
  }

  /** The fields of the two rows contain equally many separators. */
  ghost predicate SameShape(a: Row, b: Row) {
    && |Split(a.to)| == |Split(b.to)| && |Split(a.amountAcbu)| == |Split(b.amountAcbu)|
    && |Split(OrEmpty(a.reference))| == |Split(OrEmpty(b.reference))|
  }

  lemma FirstParts<T>(a: seq<T>, b: seq<T>, c: seq<T>, d: seq<T>)
    requires a + b == c + d && |a| == |c|
    ensures a == c && b == d
  {
    assert a == (a + b)[..|a|] && c == (c + d)[..|c|];
    assert b == (a + b)[|a|..] && d == (c + d)[|c|..];
  }

  lemma SplitIsInjective(a: string, b: string)
    requires Split(a) == Split(b)
    ensures a == b
  {
    JoinOfSplit(a);
    JoinOfSplit(b);
  }

  /** So only the separator can merge different rows: with equally many in each field, a key determines its row. */
  lemma KeyDeterminesRow(req: Request, a: Row, b: Row)
    requires Injective(req.digest) && SameShape(a, b)
    ensures DeriveKey(req, a) == DeriveKey(req, b) <==> SameTexts(a, b)
  {
    SharedKeyIff(req, a, b);
    if Pieces(a) == Pieces(b) {
      var ra, rb := Split(OrEmpty(a.reference)), Split(OrEmpty(b.reference));
      var ka, kb := Split(OrEmpty(a.idempotencyKey)), Split(OrEmpty(b.idempotencyKey));
      var ta, tb := Split(a.to), Split(b.to);
      var ma, mb := Split(a.amountAcbu), Split(b.amountAcbu);
      FirstParts(ta + ma + ra, ka, tb + mb + rb, kb);
      FirstParts(ta + ma, ra, tb + mb, rb);
      FirstParts(ta, ma, tb, mb);
      SplitIsInjective(a.to, b.to);
      SplitIsInjective(a.amountAcbu, b.amountAcbu);
      SplitIsInjective(OrEmpty(a.reference), OrEmpty(b.reference));
      SplitIsInjective(OrEmpty(a.idempotencyKey), OrEmpty(b.idempotencyKey));
    }
  }

  // ----- the transaction table -----

  ghost predicate HasKey(table: seq<Tx>, key: string) {
    exists i :: 0 <= i < |table| && table[i].key == key
  }

  ghost predicate UniqueKeys(table: seq<Tx>) {
    forall i, j :: 0 <= i < j < |table| ==> table[i].key != table[j].key
  }

  function FindUnique(table: seq<Tx>, key: string): (r: Option<Tx>)
    ensures r.Some? <==> HasKey(table, key)
    ensures r.Some? ==> r.value in table && r.value.key == key
  {
    if table == [] then None
    else if table[0].key == key then Some(table[0])
    else
      var r := FindUnique(table[1..], key);
      assert r.None? ==> forall i :: 0 < i < |table| ==> table[i] == table[1..][i - 1];
      r
  }

  /** Insert under the unique constraint: None is the P2002 error. */
  function Create(table: seq<Tx>, key: string, row: Row): (r: Option<seq<Tx>>)
    ensures r.Some? ==> r.value == table + [Tx(|table|, key, TxCompleted, row.to, row.amountAcbu)]
    ensures r.None? <==> HasKey(table, key)
  {
    if FindUnique(table, key).Some? then None
    else Some(table + [Tx(|table|, key, TxCompleted, row.to, row.amountAcbu)])
  }

  // ----- one row -----

  /**
   * processRow. `seen` is the table as it was when the key was looked up, `table` the one the insert
   * meets: a concurrent job may have inserted in between.
   */
  function ProcessRow(req: Request, seen: seq<Tx>, table: seq<Tx>, row: Row, index: nat)
    : Result<Outcome, Error>
  {
    if !req.HasSender() then Failure(Unauthorized)
    else
      var key := DeriveKey(req, row);
      match FindUnique(seen, key)
      case Some(existing) =>
        Success(Outcome(table, [RowResult(index, key, RowSkipped, Some(existing.id),
          Some(if existing.status == TxFailed then "Duplicate transfer already failed previously"
               else "Duplicate transfer already processed previously"))]))
      case None =>
        if !req.senderExists then
          Success(Outcome(table, [RowResult(index, key, RowFailure, None, Some("Sender user not found"))]))
        else
          match Create(table, key, row)
          case Some(longer) =>
            Success(Outcome(longer, [RowResult(index, key, RowSuccess, Some(|table|), None)]))
          case None =>
            match FindUnique(table, key)
            case Some(winner) =>
              Success(Outcome(table, [RowResult(index, key, RowSkipped, Some(winner.id),
                Some("Duplicate transfer already processed previously"))]))
            case None =>
              Success(Outcome(table, [RowResult(index, key, RowFailure, None, Some("Unique constraint failed"))]))
  }

  /** The transaction of a row that has been carried out. */
  ghost predicate CarriesOut(tx: Tx, id: nat, key: string, row: Row) {
    tx.id == id && tx.key == key && tx.status == TxCompleted && tx.recipient == row.to && tx.amountAcbu == row.amountAcbu
  }

  /** Whatever a concurrent job inserted, keys stay unique and only a fresh key is inserted, with what the row says. */
  lemma RacedRowIsSafe(req: Request, seen: seq<Tx>, table: seq<Tx>, row: Row, index: nat)
    requires UniqueKeys(table) && req.HasSender()
    ensures ProcessRow(req, seen, table, row, index).Success?
    ensures var o := ProcessRow(req, seen, table, row, index).value;
      && UniqueKeys(o.table) && table <= o.table && |o.results| == 1
      && (o.results[0].status == RowSuccess <==> o.table != table)
      && (o.results[0].status == RowSuccess ==> !HasKey(table, DeriveKey(req, row)) && |o.table| == |table| + 1)
      && (o.results[0].status == RowSuccess ==> o.results[0].transactionId == Some(|table|))
      && (o.results[0].status == RowSuccess ==> CarriesOut(o.table[|table|], |table|, DeriveKey(req, row), row))
      && (o.results[0].status == RowSkipped && seen <= table ==> HasKey(table, DeriveKey(req, row)))
      && (req.senderExists && seen <= table ==> HasKey(o.table, DeriveKey(req, row)))
  {
    var key, o := DeriveKey(req, row), ProcessRow(req, seen, table, row, index).value;
    if seen <= table && HasKey(seen, key) {
      var i :| 0 <= i < |seen| && seen[i].key == key;
      assert table[i].key == key;
    }
    if o.table != table {
      assert o.table[|table|].key == key;
      forall i | 0 <= i < |table| ensures table[i].key != key {
        assert !HasKey(table, key);
      }
    }
  }

  /** The body of the inner loop: validation, then processRow on the current table. */
  function RowStep(req: Request, table: seq<Tx>, raw: Row, index: nat): Result<Outcome, Error> {
    match req.validate(raw)
    case Invalid(message) =>
      Success(Outcome(table, [RowResult(index, DeriveKey(req, raw), RowFailure, None, Some(message))]))
    case Valid(row) => ProcessRow(req, table, table, row, index)
  }

  // ----- the whole file in one pass -----

  type Handler = (seq<Tx>, Row, nat) -> Result<Outcome, Error>

  function HandlerFor(req: Request): Handler {
    (table: seq<Tx>, raw: Row, index: nat) => RowStep(req, table, raw, index)
  }

  function Prepend(results: seq<RowResult>, r: Result<Outcome, Error>): Result<Outcome, Error> {
    match r
    case Failure(e) => Failure(e)
    case Success(o) => Success(Outcome(o.table, results + o.results))
  }

  /** All rows in order, each on the table the previous one left; the first exception ends it. */
  function Pass(step: Handler, table: seq<Tx>, rows: seq<Row>, start: nat): Result<Outcome, Error>
    decreases |rows|
  {
    if rows == [] then Success(Outcome(table, []))
    else
      match step(table, rows[0], start)
      case Failure(e) => Failure(e)
      case Success(first) => Prepend(first.results, Pass(step, first.table, rows[1..], start + 1))
  }

  function OnePass(req: Request, table: seq<Tx>, rows: seq<Row>, start: nat): Result<Outcome, Error> {
    Pass(HandlerFor(req), table, rows, start)
  }

  lemma PrependTwice(a: seq<RowResult>, b: seq<RowResult>, r: Result<Outcome, Error>)
    ensures Prepend(a, Prepend(b, r)) == Prepend(a + b, r)
    ensures Prepend([], r) == r
  {
    if r.Success? {
      assert a + (b + r.value.results) == a + b + r.value.results;
      assert [] + r.value.results == r.value.results;
    }
  }

  /** Splitting the file anywhere and carrying the table over makes no difference. */
  lemma {:induction false} PassConcat(step: Handler, table: seq<Tx>, a: seq<Row>, b: seq<Row>, start: nat)
    ensures Pass(step, table, a + b, start) ==
      match Pass(step, table, a, start)
      case Failure(e) => Failure(e)
      case Success(x) => Prepend(x.results, Pass(step, x.table, b, start + |a|))
    decreases |a|
  {
    if a == [] {
      assert a + b == b;
      PrependTwice([], [], Pass(step, table, b, start));
    } else {
      assert (a + b)[1..] == a[1..] + b;
      var first := step(table, a[0], start);
      if first.Success? {
        PassConcat(step, first.value.table, a[1..], b, start + 1);
        var x := Pass(step, first.value.table, a[1..], start + 1);
        if x.Success? {
          PrependTwice(first.value.results, x.value.results, Pass(step, x.value.table, b, start + |a|));
        }
      }
    }
  }

  lemma PassOne(step: Handler, table: seq<Tx>, row: Row, start: nat)
    ensures Pass(step, table, [row], start) == step(table, row, start)
  {
    var first := step(table, row, start);
    assert [row][1..] == [];
    if first.Success? {
      assert first.value.results + [] == first.value.results;
    }
  }

  lemma AddRow(step: Handler, table: seq<Tx>, rows: seq<Row>, i: nat, start: nat)
    requires i < |rows| && Pass(step, table, rows[..i], start).Success?
    ensures var o := Pass(step, table, rows[..i], start).value;
      && Pass(step, table, rows[..i + 1], start) == Prepend(o.results, step(o.table, rows[i], start + i))
  {
    var o := Pass(step, table, rows[..i], start).value;
    PassConcat(step, table, rows[..i], [rows[i]], start);
    assert rows[..i + 1] == rows[..i] + [rows[i]];
    PassOne(step, o.table, rows[i], start + i);
  }

  /** Once a prefix has failed, so has the file. */
  lemma PrefixFails(step: Handler, table: seq<Tx>, rows: seq<Row>, i: nat, start: nat)
    requires i <= |rows| && Pass(step, table, rows[..i], start).Failure?
    ensures Pass(step, table, rows, start) == Pass(step, table, rows[..i], start)
  {
    PassConcat(step, table, rows[..i], rows[i..], start);
    assert rows == rows[..i] + rows[i..];
  }

  function StatusCount(results: seq<RowResult>, status: RowStatus): nat {
    if results == [] then 0
    else (if results[0].status == status then 1 else 0) + StatusCount(results[1..], status)
  }

  lemma {:induction false} StatusCountConcat(a: seq<RowResult>, b: seq<RowResult>, status: RowStatus)
    ensures StatusCount(a + b, status) == StatusCount(a, status) + StatusCount(b, status)
  {
    if a == [] {
      assert a + b == b;
    } else {
      assert (a + b)[1..] == a[1..] + b;
      StatusCountConcat(a[1..], b, status);
    }
  }

  /**
   * One result per row, in row order; keys stay unique; the table grows at its end by exactly the
   * successful rows.
   */
  lemma {:induction false} OnePassResults(req: Request, table: seq<Tx>, rows: seq<Row>, start: nat)
    requires UniqueKeys(table) && OnePass(req, table, rows, start).Success?
    ensures Recorded(table, rows, start, OnePass(req, table, rows, start).value)
    decreases |rows|
  {
    if rows != [] {
      var first := RowStep(req, table, rows[0], start).value;
      RowStepIsSafe(req, table, rows[0], start);
      OnePassResults(req, first.table, rows[1..], start + 1);
      RecordedFirst(table, rows, start, first, OnePass(req, first.table, rows[1..], start + 1).value);
    }
  }

  ghost predicate Recorded(table: seq<Tx>, rows: seq<Row>, start: nat, o: Outcome) {
    && |o.results| == |rows|
    && (forall i :: 0 <= i < |rows| ==> o.results[i].rowIndex == start + i)
    && UniqueKeys(o.table) && table <= o.table
    && |o.table| == |table| + StatusCount(o.results, RowSuccess)
  }

  lemma RecordedFirst(table: seq<Tx>, rows: seq<Row>, start: nat, first: Outcome, rest: Outcome)
    requires rows != [] && Recorded(first.table, rows[1..], start + 1, rest)
    requires table <= first.table && |first.results| == 1 && first.results[0].rowIndex == start
    requires |first.table| == |table| + (if first.results[0].status == RowSuccess then 1 else 0)
    ensures Recorded(table, rows, start, Outcome(rest.table, first.results + rest.results))
  {
    var results := first.results + rest.results;
    assert results[1..] == rest.results;
    forall i | 0 <= i < |rows| ensures results[i].rowIndex == start + i {
      assert i > 0 ==> results[i] == rest.results[i - 1];
    }
  }

  lemma RowStepIsSafe(req: Request, table: seq<Tx>, raw: Row, index: nat)
    requires UniqueKeys(table) && RowStep(req, table, raw, index).Success?
    ensures var o := RowStep(req, table, raw, index).value;
      && UniqueKeys(o.table) && table <= o.table
      && |o.results| == 1 && o.results[0].rowIndex == index
      && |o.table| == |table| + (if o.results[0].status == RowSuccess then 1 else 0)
      && (!req.senderExists ==> o.table == table)
  {
    if req.validate(raw).Valid? {
      RacedRowIsSafe(req, table, table, req.validate(raw).row, index);
    }
  }

  /** Every row has exactly one of the three outcomes. */
  lemma {:induction false} CountsAddUp(results: seq<RowResult>)
    ensures StatusCount(results, RowSuccess) + StatusCount(results, RowFailure)
          + StatusCount(results, RowSkipped) == |results|
  {
    if results != [] {
      CountsAddUp(results[1..]);
    }
  }

  // ----- running the same file again -----

  ghost predicate KeysWithin(a: seq<Tx>, b: seq<Tx>) {
    forall key :: HasKey(a, key) ==> HasKey(b, key)
  }

  lemma PrefixKeys(a: seq<Tx>, b: seq<Tx>)
    requires a <= b
    ensures KeysWithin(a, b)
  {
    forall key | HasKey(a, key) ensures HasKey(b, key) {
      var i :| 0 <= i < |a| && a[i].key == key;
      assert b[i].key == key;
    }
  }

  /** The status a row gets when its file is processed a second time. */
  function Again(s: RowStatus): RowStatus { if s == RowFailure then RowFailure else RowSkipped }

  lemma RerunRow(req: Request, table: seq<Tx>, raw: Row, index: nat, later: seq<Tx>)
    requires UniqueKeys(table) && RowStep(req, table, raw, index).Success?
    requires KeysWithin(RowStep(req, table, raw, index).value.table, later)
    requires !req.senderExists ==> KeysWithin(later, table)
    ensures RowStep(req, later, raw, index).Success?
    ensures var o := RowStep(req, later, raw, index).value;
      && o.table == later && |o.results| == 1
      && o.results[0].status == Again(RowStep(req, table, raw, index).value.results[0].status)
  {
    var first := RowStep(req, table, raw, index).value;
    RowStepIsSafe(req, table, raw, index);
    if req.validate(raw).Valid? {
      var row := req.validate(raw).row;
      RacedRowIsSafe(req, table, table, row, index);
      var key := DeriveKey(req, row);
      assert HasKey(first.table, key) ==> HasKey(later, key);
      PrefixKeys(table, first.table);
    }
  }

  /**
   * Processing the same file again with the same sender state creates nothing: failures fail again, and
   * everything else is skipped.
   */
  lemma {:induction false} RerunFrom(req: Request, table: seq<Tx>, rows: seq<Row>, start: nat, later: seq<Tx>)
    requires UniqueKeys(table) && OnePass(req, table, rows, start).Success?
    requires KeysWithin(OnePass(req, table, rows, start).value.table, later)
    requires !req.senderExists ==> KeysWithin(later, table)
    ensures OnePass(req, later, rows, start).Success?
    ensures var o, p := OnePass(req, table, rows, start).value, OnePass(req, later, rows, start).value;
      && p.table == later
      && |p.results| == |o.results|
      && forall i :: 0 <= i < |o.results| ==> p.results[i].status == Again(o.results[i].status)
    decreases |rows|
  {
    if rows != [] {
      var first := RowStep(req, table, rows[0], start).value;
      RowStepIsSafe(req, table, rows[0], start);
      OnePassResults(req, first.table, rows[1..], start + 1);
      PrefixKeys(first.table, OnePass(req, first.table, rows[1..], start + 1).value.table);
      RerunRow(req, table, rows[0], start, later);
      RerunFrom(req, first.table, rows[1..], start + 1, later);
    }
  }

  lemma Rerun(req: Request, table: seq<Tx>, rows: seq<Row>)
    requires UniqueKeys(table) && OnePass(req, table, rows, 0).Success?
    ensures var o := OnePass(req, table, rows, 0).value;
      && OnePass(req, o.table, rows, 0).Success?
      && OnePass(req, o.table, rows, 0).value.table == o.table
      && |OnePass(req, o.table, rows, 0).value.results| == |o.results|
      && forall i :: 0 <= i < |o.results| ==>
           OnePass(req, o.table, rows, 0).value.results[i].status == Again(o.results[i].status)
  {
    var o := OnePass(req, table, rows, 0).value;
    if !req.senderExists {
      NoSenderNoChange(req, table, rows, 0);
    }
    RerunFrom(req, table, rows, 0, o.table);
  }

  lemma {:induction false} NoSenderNoChange(req: Request, table: seq<Tx>, rows: seq<Row>, start: nat)
    requires UniqueKeys(table) && !req.senderExists && OnePass(req, table, rows, start).Success?
    ensures OnePass(req, table, rows, start).value.table == table
    decreases |rows|
  {
    if rows != [] {
      RowStepIsSafe(req, table, rows[0], start);
      NoSenderNoChange(req, table, rows[1..], start + 1);
    }
  }

  /** The job is refused for want of a sender exactly when some row passes the schema. */
  lemma {:induction false} UnauthorizedIff(req: Request, table: seq<Tx>, rows: seq<Row>, start: nat)
    ensures OnePass(req, table, rows, start).Failure? <==>
      !req.HasSender() && exists i :: 0 <= i < |rows| && req.validate(rows[i]).Valid?
    decreases |rows|
  {
    if rows != [] {
      var first := RowStep(req, table, rows[0], start);
      if first.Success? {
        UnauthorizedIff(req, first.value.table, rows[1..], start + 1);
        assert forall i :: 0 < i < |rows| ==> rows[i] == rows[1..][i - 1];
      } else {
        assert req.validate(rows[0]).Valid?;
      }
    }
  }

  /** A pass taken apart at one row. */
  lemma PassSplitsAt(step: Handler, table: seq<Tx>, rows: seq<Row>, start: nat, j: nat) returns (rest: seq<RowResult>)
    requires j < |rows| && Pass(step, table, rows, start).Success?
    ensures Pass(step, table, rows[..j], start).Success?
    ensures var x := Pass(step, table, rows[..j], start).value;
      && step(x.table, rows[j], start + j).Success?
      && Pass(step, table, rows, start).value.results ==
           x.results + (step(x.table, rows[j], start + j).value.results + rest)
  {
    PassConcat(step, table, rows[..j], rows[j..], start);
    assert rows == rows[..j] + rows[j..];
    var x := Pass(step, table, rows[..j], start).value;
    var first := step(x.table, rows[j], start + j).value;
    rest := Pass(step, first.table, rows[j..][1..], start + j + 1).value.results;
  }

  lemma MiddleElement<T>(a: seq<T>, b: seq<T>, c: seq<T>, j: nat)
    requires |a| == j && |b| == 1
    ensures (a + (b + c))[j] == b[0]
  {
  }

  lemma PrefixSucceeds(step: Handler, table: seq<Tx>, rows: seq<Row>, start: nat, j: nat)
    requires j < |rows| && Pass(step, table, rows, start).Success?
    ensures Pass(step, table, rows[..j], start).Success?
    ensures step(Pass(step, table, rows[..j], start).value.table, rows[j], start + j).Success?
  {
    var rest := PassSplitsAt(step, table, rows, start, j);
  }

  lemma ResultOfStep(step: Handler, table: seq<Tx>, rows: seq<Row>, start: nat, j: nat, all: Outcome, x: Outcome, f: Outcome)
    requires j < |rows| && Pass(step, table, rows, start) == Success(all)
    requires Pass(step, table, rows[..j], start) == Success(x) && step(x.table, rows[j], start + j) == Success(f)
    requires |x.results| == j && |f.results| == 1
    ensures j < |all.results| && all.results[j] == f.results[0]
  {
    var rest := PassSplitsAt(step, table, rows, start, j);
    MiddleElement(x.results, f.results, rest, j);
  }

  lemma BeforeRow(req: Request, table: seq<Tx>, prefix: seq<Row>, start: nat, raw: Row, x: Outcome, f: Outcome)
    requires UniqueKeys(table) && OnePass(req, table, prefix, start) == Success(x)
    requires RowStep(req, x.table, raw, start + |prefix|) == Success(f)
    ensures UniqueKeys(x.table) && |x.results| == |prefix| && |f.results| == 1
  {
    OnePassResults(req, table, prefix, start);
    RowStepIsSafe(req, x.table, raw, start + |prefix|);
  }

  /** The result of one row of a file is that of the row on the table its predecessors leave. */
  lemma ResultAt(req: Request, table: seq<Tx>, rows: seq<Row>, start: nat, j: nat, all: Outcome, x: Outcome, f: Outcome)
    requires UniqueKeys(table) && j < |rows| && OnePass(req, table, rows, start) == Success(all)
    requires OnePass(req, table, rows[..j], start) == Success(x)
    requires RowStep(req, x.table, rows[j], start + j) == Success(f)
    ensures UniqueKeys(x.table) && |f.results| == 1 && j < |all.results| && all.results[j] == f.results[0]
  {
    BeforeRow(req, table, rows[..j], start, rows[j], x, f);
    ResultOfStep(HandlerFor(req), table, rows, start, j, all, x, f);
  }

  /**
   * Of two rows of a file that share a key the later one is never carried out: it is skipped, except that
   * without an existing sender it fails unless the key was in the table before.
   */
  lemma SecondIsSkipped(req: Request, table: seq<Tx>, rows: seq<Row>, start: nat, i: nat, j: nat)
    requires UniqueKeys(table) && req.HasSender() && i < j < |rows|
    requires req.validate(rows[i]).Valid? && req.validate(rows[j]).Valid?
    requires DeriveKey(req, req.validate(rows[i]).row) == DeriveKey(req, req.validate(rows[j]).row)
    ensures OnePass(req, table, rows, start).Success? && j < |OnePass(req, table, rows, start).value.results|
    ensures OnePass(req, table, rows, start).value.results[j].status ==
      if req.senderExists || HasKey(table, DeriveKey(req, req.validate(rows[j]).row)) then RowSkipped else RowFailure
  {
    UnauthorizedIff(req, table, rows, start);
    PrefixSucceeds(HandlerFor(req), table, rows, start, j);
    var all, x := OnePass(req, table, rows, start).value, OnePass(req, table, rows[..j], start).value;
    ResultAt(req, table, rows, start, j, all, x, RowStep(req, x.table, rows[j], start + j).value);
    RecordedKeysIff(req, table, rows[..j], start, DeriveKey(req, req.validate(rows[j]).row));
    assert HasRowKey(req, rows[..j][i], DeriveKey(req, req.validate(rows[j]).row));
  }

  // ----- what the results and the table say -----

  const ALREADY_FAILED := "Duplicate transfer already failed previously"
  const ALREADY_PROCESSED := "Duplicate transfer already processed previously"

  /** What one result says about its row and about the table. */
  ghost predicate ResultFits(req: Request, raw: Row, index: nat, r: RowResult, table: seq<Tx>) {
    r.rowIndex == index &&
    match req.validate(raw)
    case Invalid(message) =>
      r.status == RowFailure && r.key == DeriveKey(req, raw) && r.transactionId.None? && r.errorMessage == Some(message)
    case Valid(row) =>
      r.key == DeriveKey(req, row) &&
      match r.status
      case RowSuccess =>
        && r.transactionId.Some? && r.transactionId.value < |table| && r.errorMessage.None?
        && CarriesOut(table[r.transactionId.value], r.transactionId.value, r.key, row)
      case RowSkipped =>
        exists i :: 0 <= i < |table| && table[i].key == r.key && r.transactionId == Some(table[i].id)
          && r.errorMessage == Some(if table[i].status == TxFailed then ALREADY_FAILED else ALREADY_PROCESSED)
      case RowFailure =>
        !req.senderExists && r.transactionId.None? && r.errorMessage == Some("Sender user not found")
  }

  lemma FitsLater(req: Request, raw: Row, index: nat, r: RowResult, table: seq<Tx>, later: seq<Tx>)
    requires ResultFits(req, raw, index, r, table) && table <= later
    ensures ResultFits(req, raw, index, r, later)
  {
    if req.validate(raw).Valid? && r.status == RowSkipped {
      var i :| 0 <= i < |table| && table[i].key == r.key && r.transactionId == Some(table[i].id)
        && r.errorMessage == Some(if table[i].status == TxFailed then ALREADY_FAILED else ALREADY_PROCESSED);
      assert later[i] == table[i];
    }
  }

  lemma StepFits(req: Request, table: seq<Tx>, raw: Row, index: nat)
    requires RowStep(req, table, raw, index).Success?
    ensures var o := RowStep(req, table, raw, index).value;
      |o.results| == 1 && ResultFits(req, raw, index, o.results[0], o.table)
  {
    var o := RowStep(req, table, raw, index).value;
    if req.validate(raw).Valid? && o.results[0].status == RowSkipped {
      var existing := FindUnique(table, DeriveKey(req, req.validate(raw).row)).value;
      var i :| 0 <= i < |table| && table[i] == existing;
      assert o.table[i].key == o.results[0].key;
    }
  }

  ghost predicate ResultsFit(req: Request, rows: seq<Row>, start: nat, results: seq<RowResult>, table: seq<Tx>) {
    |results| == |rows| && forall i :: 0 <= i < |rows| ==> ResultFits(req, rows[i], start + i, results[i], table)
  }

  /** Every result of a file tells the truth about the table the file leaves behind. */
  lemma {:induction false} OnePassFits(req: Request, table: seq<Tx>, rows: seq<Row>, start: nat)
    requires UniqueKeys(table) && OnePass(req, table, rows, start).Success?
    ensures var o := OnePass(req, table, rows, start).value; ResultsFit(req, rows, start, o.results, o.table)
    decreases |rows|
  {
    if rows != [] {
      var first := RowStep(req, table, rows[0], start).value;
      RowStepIsSafe(req, table, rows[0], start);
      StepFits(req, table, rows[0], start);
      OnePassFits(req, first.table, rows[1..], start + 1);
      OnePassResults(req, first.table, rows[1..], start + 1);
      var rest := OnePass(req, first.table, rows[1..], start + 1).value;
      FitsLater(req, rows[0], start, first.results[0], first.table, rest.table);
      FirstFits(req, rows, start, first.results, rest.results, rest.table);
    }
  }

  lemma FirstFits(req: Request, rows: seq<Row>, start: nat, first: seq<RowResult>, rest: seq<RowResult>, table: seq<Tx>)
    requires rows != [] && |first| == 1 && ResultFits(req, rows[0], start, first[0], table)
    requires ResultsFit(req, rows[1..], start + 1, rest, table)
    ensures ResultsFit(req, rows, start, first + rest, table)
  {
    forall i | 0 <= i < |rows| ensures ResultFits(req, rows[i], start + i, (first + rest)[i], table) {
      if i > 0 {
        assert ResultFits(req, rows[1..][i - 1], start + 1 + (i - 1), rest[i - 1], table);
      }
    }
  }

  /** The key of a row that passes the schema. */
  ghost predicate HasRowKey(req: Request, raw: Row, key: string) {
    req.validate(raw).Valid? && DeriveKey(req, req.validate(raw).row) == key
  }

  ghost predicate SomeRowHasKey(req: Request, rows: seq<Row>, key: string) {
    exists i :: 0 <= i < |rows| && HasRowKey(req, rows[i], key)
  }

  lemma StepKeys(req: Request, table: seq<Tx>, raw: Row, index: nat, key: string)
    requires RowStep(req, table, raw, index).Success?
    ensures HasKey(RowStep(req, table, raw, index).value.table, key) <==>
      HasKey(table, key) || (req.senderExists && HasRowKey(req, raw, key))
  {
    var o := RowStep(req, table, raw, index).value;
    if o.table != table {
      var k := |table|;
      assert o.table[..k] == table && o.table[k].key == DeriveKey(req, req.validate(raw).row);
      assert forall i :: 0 <= i < k ==> o.table[i] == table[i];
    }
  }

  /** The keys in the table after a file: those there before, and, for an existing sender, those of its valid rows. */
  lemma {:induction false} RecordedKeysIff(req: Request, table: seq<Tx>, rows: seq<Row>, start: nat, key: string)
    requires OnePass(req, table, rows, start).Success?
    ensures HasKey(OnePass(req, table, rows, start).value.table, key) <==>
      HasKey(table, key) || (req.senderExists && SomeRowHasKey(req, rows, key))
    decreases |rows|
  {
    if rows != [] {
      var first := RowStep(req, table, rows[0], start).value;
      StepKeys(req, table, rows[0], start, key);
      RecordedKeysIff(req, first.table, rows[1..], start + 1, key);
      assert forall i :: 0 < i < |rows| ==> rows[i] == rows[1..][i - 1];
      assert SomeRowHasKey(req, rows, key) <==> HasRowKey(req, rows[0], key) || SomeRowHasKey(req, rows[1..], key);
    }
  }

  /** Exactly which rows are carried out: valid ones of an existing sender whose key is new to table and file. */
  lemma CarriedOutIff(req: Request, table: seq<Tx>, rows: seq<Row>, start: nat, j: nat)
    requires UniqueKeys(table) && OnePass(req, table, rows, start).Success? && j < |rows|
    ensures j < |OnePass(req, table, rows, start).value.results|
    ensures OnePass(req, table, rows, start).value.results[j].status == RowSuccess <==>
      && req.senderExists && req.validate(rows[j]).Valid?
      && !HasKey(table, DeriveKey(req, req.validate(rows[j]).row))
      && !SomeRowHasKey(req, rows[..j], DeriveKey(req, req.validate(rows[j]).row))
  {
    PrefixSucceeds(HandlerFor(req), table, rows, start, j);
    var all, x := OnePass(req, table, rows, start).value, OnePass(req, table, rows[..j], start).value;
    ResultAt(req, table, rows, start, j, all, x, RowStep(req, x.table, rows[j], start + j).value);
    if req.validate(rows[j]).Valid? {
      RecordedKeysIff(req, table, rows[..j], start, DeriveKey(req, req.validate(rows[j]).row));
    }
  }

  /** Two different transfers that share a key, whatever the digest: a separator moves between two fields. */
  lemma MovedSeparatorSharesKey(req: Request, to: string, amount: string, x: string, y: string)
    ensures var a := Row(to, amount, Some(x + "|" + y), None); var b := Row(to, amount, Some(x), Some(y + "|"));
      a != b && DeriveKey(req, a) == DeriveKey(req, b)
  {
    var a, b := Row(to, amount, Some(x + "|" + y), None), Row(to, amount, Some(x), Some(y + "|"));
    assert KeyText(req.organizationId, a) == KeyText(req.organizationId, b);
  }

  // ----- the job -----

  datatype JobStatus = JobProcessing | JobCompleted

  datatype Job = Job(
    organizationId: string, totalRows: nat, processedRows: nat, successCount: nat, failureCount: nat,
    status: JobStatus, report: Option<seq<RowResult>>)

  datatype JobResult = JobResult(
    jobId: nat, totalRows: nat, successCount: nat, failureCount: nat, skippedCount: nat,
    failureReport: seq<RowResult>)

  datatype JobView = JobView(
    jobId: nat, totalRows: nat, successCount: nat, failureCount: nat, skippedCount: nat, status: JobStatus,
    failureReport: seq<RowResult>)

  function Keep(results: seq<RowResult>, keep: RowStatus -> bool): seq<RowResult> {
    if results == [] then []
    else (if keep(results[0].status) then [results[0]] else []) + Keep(results[1..], keep)
  }

  predicate IsFailure(s: RowStatus) { s == RowFailure }
  predicate IsNotSuccess(s: RowStatus) { s != RowSuccess }

  /** The persisted report keeps every skipped row. */
  lemma {:induction false} ReportKeepsSkipped(results: seq<RowResult>)
    ensures StatusCount(Keep(results, IsNotSuccess), RowSkipped) == StatusCount(results, RowSkipped)
  {
    if results != [] {
      var head := if IsNotSuccess(results[0].status) then [results[0]] else [];
      StatusCountConcat(head, Keep(results[1..], IsNotSuccess), RowSkipped);
      ReportKeepsSkipped(results[1..]);
    }
  }

  ghost predicate RowOrder(results: seq<RowResult>) {
    forall i, j :: 0 <= i < j < |results| ==> results[i].rowIndex < results[j].rowIndex
  }

  /** `part` holds exactly the results with a status to keep, in row order. */
  ghost predicate Selects(part: seq<RowResult>, results: seq<RowResult>, keep: RowStatus -> bool) {
    (forall x :: x in part <==> x in results && keep(x.status)) && RowOrder(part)
  }

  lemma {:induction false} KeepMember(results: seq<RowResult>, keep: RowStatus -> bool, x: RowResult)
    ensures x in Keep(results, keep) <==> x in results && keep(x.status)
  {
    if results != [] {
      KeepMember(results[1..], keep, x);
      assert x in results <==> x == results[0] || x in results[1..];
      assert x in Keep(results, keep) <==> (x == results[0] && keep(x.status)) || x in Keep(results[1..], keep);
    }
  }

  lemma OneBefore(first: RowResult, rest: seq<RowResult>)
    requires RowOrder(rest) && forall k :: 0 <= k < |rest| ==> first.rowIndex < rest[k].rowIndex
    ensures RowOrder([first] + rest)
  {
  }

  lemma {:induction false} KeepOrdered(results: seq<RowResult>, keep: RowStatus -> bool)
    requires RowOrder(results)
    ensures RowOrder(Keep(results, keep))
  {
    if results != [] {
      var rest := results[1..];
      KeepOrdered(rest, keep);
      var part := Keep(rest, keep);
      forall k | 0 <= k < |part| ensures results[0].rowIndex < part[k].rowIndex {
        KeepMember(rest, keep, part[k]);
        var i :| 0 <= i < |rest| && rest[i] == part[k];
        assert results[i + 1] == part[k];
      }
      OneBefore(results[0], part);
      assert Keep(results, keep) == (if keep(results[0].status) then [results[0]] + part else part);
    }
  }

  lemma KeepSelects(results: seq<RowResult>, keep: RowStatus -> bool)
    requires RowOrder(results)
    ensures Selects(Keep(results, keep), results, keep)
  {
    KeepOrdered(results, keep);
    forall x ensures x in Keep(results, keep) <==> x in results && keep(x.status) {
      KeepMember(results, keep, x);
    }
  }

  lemma InRowOrder(table: seq<Tx>, rows: seq<Row>, start: nat, o: Outcome)
    requires Recorded(table, rows, start, o)
    ensures RowOrder(o.results)
  {
  }

  function ResultOf(jobId: nat, totalRows: nat, results: seq<RowResult>): JobResult {
    JobResult(jobId, totalRows, StatusCount(results, RowSuccess), StatusCount(results, RowFailure),
      StatusCount(results, RowSkipped), Keep(results, IsFailure))
  }

  function JobOf(organizationId: string, totalRows: nat, results: seq<RowResult>): Job {
    Job(organizationId, totalRows, totalRows, StatusCount(results, RowSuccess),
      StatusCount(results, RowFailure), JobCompleted, Some(Keep(results, IsNotSuccess)))
  }

  /** The job record updated after a chunk: `n` rows processed so far, with these results. */
  function Progress(job: Job, n: nat, results: seq<RowResult>): Job {
    job.(processedRows := n, successCount := StatusCount(results, RowSuccess),
      failureCount := StatusCount(results, RowFailure))
  }

  // ----- a job that is broken off -----

  /** Row `at` throws, on the table `left` by the rows before it. */
  ghost predicate StopsAt(step: Handler, table: seq<Tx>, rows: seq<Row>, start: nat, at: nat, left: seq<Tx>) {
    && at < |rows| && Pass(step, table, rows[..at], start).Success?
    && Pass(step, table, rows[..at], start).value.table == left
    && step(left, rows[at], start + at).Failure?
  }

  lemma StopsInChunk(step: Handler, table: seq<Tx>, rows: seq<Row>, start: nat, end: nat, at: nat,
    before: seq<Tx>, results: seq<RowResult>, left: seq<Tx>)
    requires start <= end <= |rows| && Pass(step, table, rows[..start], 0) == Success(Outcome(before, results))
    requires StopsAt(step, before, rows[start..end], start, at, left)
    ensures StopsAt(step, table, rows, 0, start + at, left)
  {
    PassConcat(step, table, rows[..start], rows[start..end][..at], 0);
    assert rows[..start + at] == rows[..start] + rows[start..end][..at];
  }

  /** What a chunk adds to the rows before it. */
  lemma NextChunk(step: Handler, table: seq<Tx>, rows: seq<Row>, start: nat, end: nat, before: seq<Tx>, results: seq<RowResult>)
    requires start <= end <= |rows| && Pass(step, table, rows[..start], 0) == Success(Outcome(before, results))
    ensures Pass(step, table, rows[..end], 0) == Prepend(results, Pass(step, before, rows[start..end], start))
  {
    PassConcat(step, table, rows[..start], rows[start..end], 0);
    assert rows[..end] == rows[..start] + rows[start..end];
  }

  ghost predicate WholeChunks(n: nat, chunkSize: nat) { exists k: nat :: n == k * chunkSize }

  lemma NoChunks(chunkSize: nat)
    ensures WholeChunks(0, chunkSize)
  {
    assert 0 == 0 * chunkSize;
  }

  lemma OneMoreChunk(n: nat, chunkSize: nat)
    requires WholeChunks(n, chunkSize)
    ensures WholeChunks(n + chunkSize, chunkSize)
  {
    var k: nat :| n == k * chunkSize;
    assert n + chunkSize == (k + 1) * chunkSize;
  }

  /** Without a sender the rows before the first valid one fail, and nothing else happens. */
  lemma {:induction false} BeforeFirstValid(req: Request, table: seq<Tx>, rows: seq<Row>, start: nat)
    requires !req.HasSender() && OnePass(req, table, rows, start).Success?
    ensures var o := OnePass(req, table, rows, start).value;
      && o.table == table && StatusCount(o.results, RowSuccess) == 0 && StatusCount(o.results, RowFailure) == |rows|
    ensures forall j :: 0 <= j < |rows| ==> req.validate(rows[j]).Invalid?
    decreases |rows|
  {
    if rows != [] {
      var first := RowStep(req, table, rows[0], start).value;
      BeforeFirstValid(req, first.table, rows[1..], start + 1);
      var rest := OnePass(req, first.table, rows[1..], start + 1).value;
      StatusCountConcat(first.results, rest.results, RowSuccess);
      StatusCountConcat(first.results, rest.results, RowFailure);
    }
  }

  /** Row `at` is the first that passes the schema. */
  ghost predicate FirstValid(req: Request, rows: seq<Row>, at: nat) {
    at < |rows| && req.validate(rows[at]).Valid? && forall j :: 0 <= j < at ==> req.validate(rows[j]).Invalid?
  }

  lemma StopsUntouched(req: Request, table: seq<Tx>, rows: seq<Row>, at: nat, left: seq<Tx>)
    requires StopsAt(HandlerFor(req), table, rows, 0, at, left)
    ensures !req.HasSender() && left == table && FirstValid(req, rows, at)
  {
    assert RowStep(req, left, rows[at], at).Failure?;
    BeforeFirstValid(req, table, rows[..at], 0);
    assert forall j :: 0 <= j < at ==> rows[j] == rows[..at][j];
  }

  function AbandonedJob(organizationId: string, totalRows: nat, done: nat): Job {
    Job(organizationId, totalRows, done, 0, done, JobProcessing, None)
  }

  /**
   * A job refused for want of a sender stays in `processing`: it counts, as failures, the rows of the whole
   * chunks before the first valid row.
   */
  ghost predicate Abandoned(req: Request, rows: seq<Row>, chunkSize: nat, before: seq<Job>, jobs: seq<Job>) {
    exists done: nat, at: nat :: FirstValid(req, rows, at) && done <= at < done + chunkSize
      && WholeChunks(done, chunkSize) && jobs == before + [AbandonedJob(req.organizationId, |rows|, done)]
  }

  lemma LeftInProcessing(req: Request, rows: seq<Row>, chunkSize: nat, done: nat, at: nat, before: seq<Job>, jobs: seq<Job>)
    requires FirstValid(req, rows, at) && done <= at < done + chunkSize && WholeChunks(done, chunkSize)
    requires |jobs| == |before| + 1 && forall j :: 0 <= j < |before| ==> jobs[j] == before[j]
    requires jobs[|before|] == AbandonedJob(req.organizationId, |rows|, done)
    ensures Abandoned(req, rows, chunkSize, before, jobs)
  {
    assert jobs == before + [AbandonedJob(req.organizationId, |rows|, done)];
  }

  class BulkTransferService {
    var transactions: seq<Tx>
    var jobs: seq<Job>

    constructor ()
      ensures transactions == [] && jobs == []
    {
      transactions, jobs := [], [];
    }

    /** One chunk: the loop inside the database transaction. A row that throws is row `at`. */
    method ProcessChunk(step: Handler, chunk: seq<Row>, start: nat)
      returns (r: Result<seq<RowResult>, Error>, ghost at: nat)
      modifies this`transactions
      ensures Pass(step, old(transactions), chunk, start) ==
        match r
        case Failure(e) => Failure(e)
        case Success(results) => Success(Outcome(transactions, results))
      ensures r.Failure? ==> StopsAt(step, old(transactions), chunk, start, at, transactions)
    {
      var results: seq<RowResult> := [];
      var i := 0;
      assert chunk[..0] == [];
      while i < |chunk|
        invariant 0 <= i <= |chunk|
        invariant Pass(step, old(transactions), chunk[..i], start) == Success(Outcome(transactions, results))
      {
        var row := step(transactions, chunk[i], start + i);
        AddRow(step, old(transactions), chunk, i, start);
        if row.Failure? {
          PrefixFails(step, old(transactions), chunk, i + 1, start);
          return Failure(row.error), i;
        }
        transactions := row.value.table;
        results := results + row.value.results;
        i := i + 1;
      }
      assert chunk[..i] == chunk;
      return Success(results), i;
    }

    /** The loop over the chunks, updating the job record after each of them. */
    method ProcessChunks(step: Handler, rows: seq<Row>, chunkSize: nat, jobId: nat)
      returns (r: Result<seq<RowResult>, Error>, ghost done: nat, ghost at: nat)
      requires chunkSize >= 1 && jobId < |jobs| && jobs[jobId].processedRows == 0
      requires jobs[jobId].successCount == jobs[jobId].failureCount == 0
      modifies this
      ensures Pass(step, old(transactions), rows, 0) ==
        match r
        case Failure(e) => Failure(e)
        case Success(results) => Success(Outcome(transactions, results))
      ensures r.Success? ==> jobs == old(jobs)[jobId := Progress(old(jobs)[jobId], |rows|, r.value)]
      ensures r.Failure? ==>
        && StopsAt(step, old(transactions), rows, 0, at, transactions)
        && done <= at < done + chunkSize && WholeChunks(done, chunkSize)
        && done <= |rows| && Pass(step, old(transactions), rows[..done], 0).Success?
        && jobs == old(jobs)[jobId := Progress(old(jobs)[jobId], done,
             Pass(step, old(transactions), rows[..done], 0).value.results)]
    {
      var allResults: seq<RowResult> := [];
      var start := 0;
      NoChunks(chunkSize);
      assert rows[..0] == [];
      while start < |rows|
        invariant 0 <= start <= |rows| && (start < |rows| ==> WholeChunks(start, chunkSize))
        invariant Pass(step, old(transactions), rows[..start], 0) == Success(Outcome(transactions, allResults))
        invariant jobs == old(jobs)[jobId := Progress(old(jobs)[jobId], start, allResults)]
      {
        var end := if start + chunkSize < |rows| then start + chunkSize else |rows|;
        ghost var before := transactions;
        NextChunk(step, old(transactions), rows, start, end, before, allResults);
        var chunkResults, inChunk := ProcessChunk(step, rows[start..end], start);
        if chunkResults.Failure? {
          PrefixFails(step, old(transactions), rows, end, 0);
          StopsInChunk(step, old(transactions), rows, start, end, inChunk, before, allResults, transactions);
          return chunkResults, start, start + inChunk;
        }
        allResults := allResults + chunkResults.value;
        OneMoreChunk(start, chunkSize);
        start := end;
        jobs := jobs[jobId := Progress(jobs[jobId], start, allResults)];
      }
      assert rows[..start] == rows;
      return Success(allResults), start, start;
    }

    /** processBulkTransfer, for rows already read from the file. */
    method ProcessBulkTransfer(req: Request, rows: seq<Row>, chunkSize: nat, maxRows: nat)
      returns (r: Result<JobResult, Error>)
      requires chunkSize >= 1 && UniqueKeys(transactions)
      modifies this
      ensures |rows| > maxRows ==>
        r == Failure(TooManyRows) && transactions == old(transactions) && jobs == old(jobs)
      ensures |rows| <= maxRows ==>
        match OnePass(req, old(transactions), rows, 0)
        case Failure(e) =>
          r == Failure(e) && transactions == old(transactions) && Abandoned(req, rows, chunkSize, old(jobs), jobs)
        case Success(o) =>
          && transactions == o.table
          && ResultsFit(req, rows, 0, o.results, transactions)
          && r == Success(ResultOf(|old(jobs)|, |rows|, o.results))
          && jobs == old(jobs) + [JobOf(req.organizationId, |rows|, o.results)]
          && Selects(r.value.failureReport, o.results, IsFailure)
          && Selects(jobs[|old(jobs)|].report.value, o.results, IsNotSuccess)
      ensures r.Success? ==>
        && r.value.successCount + r.value.failureCount + r.value.skippedCount == |rows|
        && |transactions| == |old(transactions)| + r.value.successCount
        && UniqueKeys(transactions)
    {
      if |rows| > maxRows {
        return Failure(TooManyRows);
      }
      var jobId := |jobs|;
      jobs := jobs + [Job(req.organizationId, |rows|, 0, 0, 0,
        if rows == [] then JobCompleted else JobProcessing, None)];
      var all, done, at := ProcessChunks(HandlerFor(req), rows, chunkSize, jobId);
      if all.Failure? {
        StopsUntouched(req, old(transactions), rows, at, transactions);
        BeforeFirstValid(req, old(transactions), rows[..done], 0);
        LeftInProcessing(req, rows, chunkSize, done, at, old(jobs), jobs);
        return Failure(all.error);
      }
      jobs := jobs[jobId := jobs[jobId].(status := JobCompleted,
        report := Some(Keep(all.value, IsNotSuccess)))];
      OnePassResults(req, old(transactions), rows, 0);
      OnePassFits(req, old(transactions), rows, 0);
      InRowOrder(old(transactions), rows, 0, Outcome(transactions, all.value));
      KeepSelects(all.value, IsFailure);
      KeepSelects(all.value, IsNotSuccess);
      CountsAddUp(all.value);
      return Success(ResultOf(jobId, |rows|, all.value));
    }

    /** getBulkTransferJob: the stored job, if the organization owns it. */
    method GetBulkTransferJob(jobId: nat, organizationId: string) returns (v: Option<JobView>)
      ensures v.None? <==> jobId >= |jobs| || jobs[jobId].organizationId != organizationId
      ensures v.Some? ==>
        && v.value.jobId == jobId && v.value.totalRows == jobs[jobId].totalRows
        && v.value.successCount == jobs[jobId].successCount
        && v.value.failureCount == jobs[jobId].failureCount && v.value.status == jobs[jobId].status
        && v.value.failureReport == (if jobs[jobId].report.Some? then jobs[jobId].report.value else [])
        && forall results :: jobs[jobId].report == Some(Keep(results, IsNotSuccess)) ==>
             v.value.skippedCount == StatusCount(results, RowSkipped)
    {
      if jobId >= |jobs| || jobs[jobId].organizationId != organizationId {
        return None;
      }
      var job := jobs[jobId];
      var report := if job.report.Some? then job.report.value else [];
      var skipped := StatusCount(report, RowSkipped);
      forall results | job.report == Some(Keep(results, IsNotSuccess))
        ensures skipped == StatusCount(results, RowSkipped)
      {
        ReportKeepsSkipped(results);
      }
      return Some(JobView(jobId, job.totalRows, job.successCount, job.failureCount, skipped, job.status, report));
    }
  }
}
