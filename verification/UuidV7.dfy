/**
 * UUIDv7 generation with a monotonic counter (src/utils/idGenerator.ts; section 5.7 of RFC 9562). Bytes are
 * integers below 256; the masks and shifts of the source are written as remainders and quotients.
 */
module UuidV7 {
  const SEQ_MAX: nat := 4095
  const MS_LIMIT: nat := 0x1_0000_0000_0000

  // Bytes of the two halves of the timestamp, and of the version with the counter.
  const HIGH_BYTES: nat := 4
  const LOW_BYTES: nat := 2
  const SEQ_BYTES: nat := 2

  // Hexadecimal digits of the timestamp, of the version with the counter, and of both.
  const TIME_DIGITS: nat := 12
  const SEQ_DIGITS: nat := 4
  const STAMP_DIGITS: nat := 16

  type byte = n: nat | n < 256

  /** Clock readings and random bytes consumed by one call. */
  datatype Draw = Draw(
    nowMs: nat,        // Date.now() on entry
    seed: nat,         // two random bytes for the counter
    spunMs: nat,       // Date.now() after the busy-wait, if it is needed
    randB: seq<byte>)   // ten random bytes

  datatype Counter = Counter(lastMs: nat, seqCounter: nat)

  predicate Overflows(c: Counter, d: Draw) { d.nowMs <= c.lastMs && c.seqCounter >= SEQ_MAX }

  ghost predicate ValidDraw(c: Counter, d: Draw) {
    && d.seed < 0x1_0000 && d.nowMs < MS_LIMIT
    && |d.randB| == 10
    && (Overflows(c, d) ==> d.spunMs > c.lastMs)
  }

  function Advance(c: Counter, d: Draw): (r: Counter)
    ensures c.seqCounter <= SEQ_MAX ==> r.seqCounter <= SEQ_MAX
  {
    if d.nowMs > c.lastMs then Counter(d.nowMs, d.seed % 4096)
    else if c.seqCounter + 1 > SEQ_MAX then Counter(d.spunMs, d.seed % 4096)
    else Counter(c.lastMs, c.seqCounter + 1)
  }

  // ----- bytes and hexadecimal -----

  /** Big-endian bytes of `n`, as written by writeUInt16BE and writeUInt32BE. */
  function BigEndian(n: nat, width: nat): (r: seq<byte>)
    ensures |r| == width
  {
    if width == 0 then [] else BigEndian(n / 256, width - 1) + [n % 256]
  }

  function Digit(n: nat): char
    requires n < 16
  {
    "0123456789abcdef"[n]
  }

  function Hex(bytes: seq<byte>): (r: string)
    ensures |r| == 2 * |bytes|
  {
    if bytes == [] then ""
    else Hex(bytes[..|bytes| - 1]) + [Digit(bytes[|bytes| - 1] / 16), Digit(bytes[|bytes| - 1] % 16)]
  }

  /** The hexadecimal numeral of `n` with the given number of digits. */
  function HexNumeral(n: nat, width: nat): (r: string)
    ensures |r| == width
  {
    if width == 0 then "" else HexNumeral(n / 16, width - 1) + [Digit(n % 16)]
  }

  function Buffer(nowMs: nat, seqCounter: nat, randB: seq<byte>): (r: seq<byte>)
    requires |randB| == 10
    ensures |r| == 16
  {
    BigEndian(nowMs / 0x1_0000 % 0x1_0000_0000, HIGH_BYTES) + BigEndian(nowMs % 0x1_0000, LOW_BYTES)
    + BigEndian(0x7000 + seqCounter % 4096, SEQ_BYTES) + RandomPart(randB)
  }

  /** The variant bits and 62 of the random bits. */
  function RandomPart(randB: seq<byte>): (r: seq<byte>)
    requires |randB| == 10
    ensures |r| == 8 && 128 <= r[0] < 192
  {
    [randB[0] % 64 + 128] + randB[1..8]
  }

  function Hyphenate(hex: string): (r: string)
    requires |hex| == 32
    ensures |r| == 36
  {
    hex[..8] + "-" + hex[8..12] + "-" + hex[12..16] + "-" + hex[16..20] + "-" + hex[20..]
  }

  function FormatUuid(buf: seq<byte>): string
    requires |buf| == 16
  {
    Hyphenate(Hex(buf))
  }

  function IdOf(nowMs: nat, seqCounter: nat, randB: seq<byte>): string
    requires |randB| == 10
  {
    FormatUuid(Buffer(nowMs, seqCounter, randB))
  }

  /** The module state of the source and its only writer. */
  class IdGenerator {
    var counter: Counter

    constructor ()
      ensures counter == Counter(0, 0)
    {
      counter := Counter(0, 0);
    }

    method GenerateId(d: Draw) returns (id: string)
      requires ValidDraw(counter, d) && counter.seqCounter <= SEQ_MAX
      modifies this
      ensures counter == Advance(old(counter), d) && counter.seqCounter <= SEQ_MAX
      ensures d.nowMs > old(counter).lastMs ==> counter == Counter(d.nowMs, d.seed % 4096)
      ensures d.nowMs <= old(counter).lastMs && old(counter).seqCounter < 4095 ==>
        counter == Counter(old(counter).lastMs, old(counter).seqCounter + 1)
      ensures Overflows(old(counter), d) ==> counter == Counter(d.spunMs, d.seed % 4096)
      ensures id == IdOf(d.nowMs, counter.seqCounter, d.randB)
      ensures ReadsAs(id, d.nowMs, counter.seqCounter, d.randB)
      ensures WellFormed(id)
      ensures !Overflows(old(counter), d) && d.nowMs >= old(counter).lastMs ==>
        forall ms: nat, s: nat, r: seq<byte> | Earlier(old(counter), ms, s, r) :: LexLess(IdOf(ms, s, r), id)
    {
      if d.nowMs > counter.lastMs {
        counter := Counter(d.nowMs, d.seed % 4096);
      } else {
        counter := counter.(seqCounter := counter.seqCounter + 1);
        if counter.seqCounter > SEQ_MAX {
          counter := Counter(d.spunMs, d.seed % 4096);
        }
      }
      var bytes := FillBuffer(d.nowMs, counter.seqCounter, d.randB);
      id := FormatUuid(bytes);
      IdIsWellFormed(d.nowMs, counter.seqCounter, d.randB);
      IdReadsBack(d.nowMs, counter.seqCounter, d.randB);
      forall ms: nat, s: nat, r: seq<byte> | Earlier(old(counter), ms, s, r)
        && !Overflows(old(counter), d) && d.nowMs >= old(counter).lastMs
        ensures LexLess(IdOf(ms, s, r), id)
      {
        LaterStampIsLarger(ms, s, r, d.nowMs, counter.seqCounter, d.randB);
      }
    }
  }

  method FillBuffer(nowMs: nat, seqCounter: nat, randB: seq<byte>) returns (bytes: seq<byte>)
    requires |randB| == 10
    ensures bytes == Buffer(nowMs, seqCounter, randB)
  {
    var high := BigEndian(nowMs / 0x1_0000 % 0x1_0000_0000, HIGH_BYTES);
    var low := BigEndian(nowMs % 0x1_0000, LOW_BYTES);
    var version := BigEndian(0x7000 + seqCounter % 4096, SEQ_BYTES);
    var random := RandomPart(randB);
    var buf := new byte[16](i => 0);
    WriteBytes(buf, 0, high);
    assert buf[..4] == high;
    WriteBytes(buf, 4, low);
    assert buf[..6] == high + low;
    WriteBytes(buf, 6, version);
    assert buf[..8] == high + low + version;
    WriteBytes(buf, 8, random);
    assert buf[..16] == high + low + version + random;
    bytes := buf[..];
    assert bytes == buf[..16];
  }

  method WriteBytes(buf: array<byte>, at: nat, bytes: seq<byte>)
    requires at + |bytes| <= buf.Length
    modifies buf
    ensures buf[at..at + |bytes|] == bytes
    ensures buf[..at] == old(buf[..at]) && buf[at + |bytes|..] == old(buf[at + |bytes|..])
  {
    var i := 0;
    while i < |bytes|
      invariant 0 <= i <= |bytes|
      invariant buf[at..at + i] == bytes[..i]
      invariant buf[..at] == old(buf[..at]) && buf[at + |bytes|..] == old(buf[at + |bytes|..])
    {
      buf[at + i] := bytes[i];
      i := i + 1;
    }
  }

  /** An id that the counter has already moved past. */
  ghost predicate Earlier(c: Counter, ms: nat, s: nat, r: seq<byte>) {
    && s <= SEQ_MAX && |r| == 10
    && (ms < c.lastMs || (ms == c.lastMs && s <= c.seqCounter))
  }

  // ----- string order -----

  /** The order of JavaScript and PostgreSQL on ASCII strings. */
  predicate LexLess(a: string, b: string) {
    b != "" && (a == "" || a[0] < b[0] || (a[0] == b[0] && LexLess(a[1..], b[1..])))
  }

  lemma {:induction false} LexSplit(a: string, b: string, x: string, y: string)
    requires |a| == |b|
    ensures LexLess(a + x, b + y) <==> LexLess(a, b) || (a == b && LexLess(x, y))
  {
    if a == "" {
      assert a + x == x && b + y == y;
    } else {
      assert (a + x)[1..] == a[1..] + x && (b + y)[1..] == b[1..] + y;
      LexSplit(a[1..], b[1..], x, y);
      assert a == b <==> a[0] == b[0] && a[1..] == b[1..];
    }
  }

  lemma DigitOrder(m: nat, n: nat)
    requires m < 16 && n < 16
    ensures LexLess([Digit(m)], [Digit(n)]) <==> m < n
    ensures Digit(m) == Digit(n) <==> m == n
  {
  }

  function Pow16(w: nat): (r: nat)
    ensures r >= 1
  {
    if w == 0 then 1 else 16 * Pow16(w - 1)
  }

  /** Numerals of equal width are ordered like their numbers. */
  lemma {:induction false} NumeralOrder(m: nat, n: nat, width: nat)
    requires m < Pow16(width) && n < Pow16(width)
    ensures LexLess(HexNumeral(m, width), HexNumeral(n, width)) <==> m < n
    ensures HexNumeral(m, width) == HexNumeral(n, width) <==> m == n
  {
    if width > 0 {
      HexDigits(m, n);
      NumeralOrder(m / 16, n / 16, width - 1);
      DigitOrder(m % 16, n % 16);
      LastDigit(HexNumeral(m / 16, width - 1), HexNumeral(n / 16, width - 1), Digit(m % 16), Digit(n % 16));
    }
  }

  lemma HexDigits(m: nat, n: nat)
    ensures m < n <==> m / 16 < n / 16 || (m / 16 == n / 16 && m % 16 < n % 16)
    ensures m == n <==> m / 16 == n / 16 && m % 16 == n % 16
  {
  }

  lemma LastDigit(a: string, b: string, x: char, y: char)
    requires |a| == |b|
    ensures LexLess(a + [x], b + [y]) <==> LexLess(a, b) || (a == b && LexLess([x], [y]))
    ensures a + [x] == b + [y] <==> a == b && x == y
  {
    LexSplit(a, b, [x], [y]);
    var s, t := a + [x], b + [y];
    assert s[..|a|] == a && t[..|b|] == b && s[|a|] == x && t[|b|] == y;
  }

  // ----- the leading 64 bits -----

  lemma {:induction false} HexConcat(a: seq<byte>, b: seq<byte>)
    ensures Hex(a + b) == Hex(a) + Hex(b)
    decreases |b|
  {
    if b == [] {
      assert a + b == a;
    } else {
      assert (a + b)[..|a + b| - 1] == a + b[..|b| - 1];
      HexConcat(a, b[..|b| - 1]);
    }
  }

  lemma {:induction false} HexOfBigEndian(n: nat, width: nat)
    ensures Hex(BigEndian(n, width)) == HexNumeral(n, 2 * width)
  {
    if width > 0 {
      var bytes := BigEndian(n, width);
      assert bytes[..width - 1] == BigEndian(n / 256, width - 1);
      HexOfBigEndian(n / 256, width - 1);
      TwoDigits(n, 2 * (width - 1));
    }
  }

  lemma TwoDigits(n: nat, width: nat)
    ensures HexNumeral(n, width + 2) == HexNumeral(n / 256, width) + [Digit(n % 256 / 16), Digit(n % 256 % 16)]
  {
    Nibbles(n);
    assert HexNumeral(n, width + 2) == HexNumeral(n / 16, width + 1) + [Digit(n % 16)];
    assert HexNumeral(n / 16, width + 1) == HexNumeral(n / 16 / 16, width) + [Digit(n / 16 % 16)];
  }

  lemma Nibbles(n: nat)
    ensures n % 256 / 16 == n / 16 % 16 && n % 256 % 16 == n % 16 && n / 16 / 16 == n / 256
  {
    var q, r := n / 256, n % 256;
    assert n == 16 * (16 * q) + r;
    SixteenTimes(16 * q, r);
    SixteenTimes(q, r / 16);
  }

  lemma {:induction false} NumeralOfSum(high: nat, low: nat, a: nat, b: nat)
    requires low < Pow16(b)
    ensures HexNumeral(high * Pow16(b) + low, a + b) == HexNumeral(high, a) + HexNumeral(low, b)
    decreases b
  {
    if b > 0 {
      ShiftDigit(high, low, Pow16(b - 1));
      NumeralOfSum(high, low / 16, a, b - 1);
      AppendDigit(high * Pow16(b) + low, high, low, a, b);
    }
  }

  lemma AppendDigit(n: nat, high: nat, low: nat, a: nat, b: nat)
    requires b > 0 && n % 16 == low % 16
    requires HexNumeral(n / 16, a + (b - 1)) == HexNumeral(high, a) + HexNumeral(low / 16, b - 1)
    ensures HexNumeral(n, a + b) == HexNumeral(high, a) + HexNumeral(low, b)
  {
    assert HexNumeral(n, a + b) == HexNumeral(n / 16, a + (b - 1)) + [Digit(n % 16)];
    assert HexNumeral(low, b) == HexNumeral(low / 16, b - 1) + [Digit(low % 16)];
  }

  lemma ShiftDigit(high: nat, low: nat, p: nat)
    ensures (high * (16 * p) + low) / 16 == high * p + low / 16
    ensures (high * (16 * p) + low) % 16 == low % 16
  {
    assert high * (16 * p) == 16 * (high * p);
    SixteenTimes(high * p, low);
  }

  lemma SixteenTimes(q: nat, low: nat)
    ensures (16 * q + low) / 16 == q + low / 16 && (16 * q + low) % 16 == low % 16
  {
  }

  /** Timestamp, version and counter as one number. */
  function Stamp(nowMs: nat, seqCounter: nat): nat {
    (nowMs * 0x1_0000) + (0x7000 + seqCounter)
  }

  lemma Halves(nowMs: nat)
    requires nowMs < MS_LIMIT
    ensures nowMs / 0x1_0000 % 0x1_0000_0000 == nowMs / 0x1_0000
    ensures nowMs / 0x1_0000 * 0x1_0000 + nowMs % 0x1_0000 == nowMs
  {
  }

  lemma TimestampDigits(nowMs: nat)
    requires nowMs < MS_LIMIT
    ensures Hex(BigEndian(nowMs / 0x1_0000 % 0x1_0000_0000, HIGH_BYTES) + BigEndian(nowMs % 0x1_0000, LOW_BYTES))
         == HexNumeral(nowMs, TIME_DIGITS)
  {
    var high, low := nowMs / 0x1_0000, nowMs % 0x1_0000;
    Halves(nowMs);
    HexConcat(BigEndian(high, HIGH_BYTES), BigEndian(low, LOW_BYTES));
    HexOfBigEndian(high, HIGH_BYTES);
    HexOfBigEndian(low, LOW_BYTES);
    HalvesDigits(nowMs, high, low);
  }

  lemma HalvesDigits(nowMs: nat, high: nat, low: nat)
    requires nowMs == high * 0x1_0000 + low && low < 0x1_0000
    ensures HexNumeral(nowMs, TIME_DIGITS) == HexNumeral(high, 2 * HIGH_BYTES) + HexNumeral(low, 2 * LOW_BYTES)
  {
    PowersOfSixteen();
    NumeralOfSum(high, low, 2 * HIGH_BYTES, 2 * LOW_BYTES);
  }

  lemma StampDigits(nowMs: nat, seqCounter: nat)
    requires seqCounter <= SEQ_MAX
    ensures HexNumeral(Stamp(nowMs, seqCounter), STAMP_DIGITS)
         == HexNumeral(nowMs, TIME_DIGITS) + HexNumeral(0x7000 + seqCounter, SEQ_DIGITS)
  {
    PowersOfSixteen();
    NumeralOfSum(nowMs, 0x7000 + seqCounter, TIME_DIGITS, SEQ_DIGITS);
  }

  lemma BufferParts(nowMs: nat, seqCounter: nat, randB: seq<byte>, time: seq<byte>, version: seq<byte>)
    requires seqCounter <= SEQ_MAX && |randB| == 10
    requires time == BigEndian(nowMs / 0x1_0000 % 0x1_0000_0000, HIGH_BYTES) + BigEndian(nowMs % 0x1_0000, LOW_BYTES)
    requires version == BigEndian(0x7000 + seqCounter, SEQ_BYTES)
    ensures Buffer(nowMs, seqCounter, randB) == time + version + RandomPart(randB)
  {
    assert seqCounter % 4096 == seqCounter;
  }

  lemma HexOfParts(time: seq<byte>, version: seq<byte>, random: seq<byte>)
    ensures Hex(time + version + random) == Hex(time) + Hex(version) + Hex(random)
  {
    HexConcat(time, version);
    HexConcat(time + version, random);
  }

  lemma LeadingDigits(nowMs: nat, seqCounter: nat, randB: seq<byte>)
    requires nowMs < MS_LIMIT && seqCounter <= SEQ_MAX
    requires |randB| == 10
    ensures Hex(Buffer(nowMs, seqCounter, randB))
         == HexNumeral(Stamp(nowMs, seqCounter), STAMP_DIGITS) + Hex(RandomPart(randB))
  {
    var time := BigEndian(nowMs / 0x1_0000 % 0x1_0000_0000, HIGH_BYTES) + BigEndian(nowMs % 0x1_0000, LOW_BYTES);
    var version := BigEndian(0x7000 + seqCounter, SEQ_BYTES);
    BufferParts(nowMs, seqCounter, randB, time, version);
    HexOfParts(time, version, RandomPart(randB));
    TimestampDigits(nowMs);
    HexOfBigEndian(0x7000 + seqCounter, SEQ_BYTES);
    StampDigits(nowMs, seqCounter);
  }

  lemma PowersOfSixteen()
    ensures Pow16(SEQ_DIGITS) == 0x1_0000 && Pow16(2 * LOW_BYTES) == 0x1_0000
    ensures Pow16(STAMP_DIGITS) == 0x1_0000_0000_0000_0000
  {
    FourMore(0);
    FourMore(4);
    FourMore(8);
    FourMore(TIME_DIGITS);
  }

  lemma FourMore(w: nat)
    ensures Pow16(w + 4) == 0x1_0000 * Pow16(w)
  {
    assert Pow16(w + 2) == 256 * Pow16(w);
    assert Pow16(w + 4) == 256 * Pow16(w + 2);
  }

  function InsertHyphen(s: string, k: nat): string
    requires k <= |s|
  {
    s[..k] + (['-'] + s[k..])
  }

  lemma HyphenFirst(x: string, y: string)
    ensures LexLess(['-'] + x, ['-'] + y) <==> LexLess(x, y)
  {
    assert (['-'] + x)[1..] == x && (['-'] + y)[1..] == y;
  }

  lemma HyphenBetween(a: string, b: string, p: string, q: string, x: string, y: string)
    requires |p| == |q| && a == p + x && b == q + y
    ensures LexLess(p + (['-'] + x), q + (['-'] + y)) <==> LexLess(a, b)
  {
    LexSplit(p, q, x, y);
    LexSplit(p, q, ['-'] + x, ['-'] + y);
    HyphenFirst(x, y);
  }

  lemma InsertHyphenKeepsOrder(a: string, b: string, k: nat)
    requires |a| == |b| && k <= |a|
    ensures LexLess(InsertHyphen(a, k), InsertHyphen(b, k)) <==> LexLess(a, b)
  {
    HyphenBetween(a, b, a[..k], b[..k], a[k..], b[k..]);
  }

  lemma HyphenateByInsertion(h: string)
    requires |h| == 32
    ensures Hyphenate(h) == InsertHyphen(InsertHyphen(InsertHyphen(InsertHyphen(h, 20), 16), 12), 8)
  {
    var t1 := "-" + h[20..];
    var t2 := "-" + (h[16..20] + t1);
    var t3 := "-" + (h[12..16] + t2);
    assert InsertHyphen(h, 20) == h[..16] + (h[16..20] + t1);
    assert InsertHyphen(InsertHyphen(h, 20), 16) == h[..12] + (h[12..16] + t2);
    assert InsertHyphen(InsertHyphen(InsertHyphen(h, 20), 16), 12) == h[..8] + (h[8..12] + t3);
  }

  lemma HyphensKeepOrder(a: string, b: string)
    requires |a| == |b| == 32
    ensures LexLess(Hyphenate(a), Hyphenate(b)) <==> LexLess(a, b)
  {
    HyphenateByInsertion(a);
    HyphenateByInsertion(b);
    var a1, b1 := InsertHyphen(a, 20), InsertHyphen(b, 20);
    var a2, b2 := InsertHyphen(a1, 16), InsertHyphen(b1, 16);
    var a3, b3 := InsertHyphen(a2, 12), InsertHyphen(b2, 12);
    InsertHyphenKeepsOrder(a, b, 20);
    InsertHyphenKeepsOrder(a1, b1, 16);
    InsertHyphenKeepsOrder(a2, b2, 12);
    InsertHyphenKeepsOrder(a3, b3, 8);
  }

  /** Ids compare like their stamps, and like their random parts when the stamps agree. */
  lemma IdOrder(ms: nat, s: nat, r: seq<byte>, ms': nat, s': nat, r': seq<byte>)
    requires ms < MS_LIMIT && ms' < MS_LIMIT && s <= SEQ_MAX && s' <= SEQ_MAX
    requires |r| == 10 && |r'| == 10
    ensures LexLess(IdOf(ms, s, r), IdOf(ms', s', r')) <==>
      Stamp(ms, s) < Stamp(ms', s')
      || (Stamp(ms, s) == Stamp(ms', s') && LexLess(Hex(RandomPart(r)), Hex(RandomPart(r'))))
  {
    LeadingDigits(ms, s, r);
    LeadingDigits(ms', s', r');
    PowersOfSixteen();
    NumeralOrder(Stamp(ms, s), Stamp(ms', s'), STAMP_DIGITS);
    LexSplit(HexNumeral(Stamp(ms, s), STAMP_DIGITS), HexNumeral(Stamp(ms', s'), STAMP_DIGITS),
      Hex(RandomPart(r)), Hex(RandomPart(r')));
    HyphensKeepOrder(Hex(Buffer(ms, s, r)), Hex(Buffer(ms', s', r')));
  }

  lemma LaterStampIsLarger(ms: nat, s: nat, r: seq<byte>, ms': nat, s': nat, r': seq<byte>)
    requires ms < ms' || (ms == ms' && s < s')
    requires ms' < MS_LIMIT && s <= SEQ_MAX && s' <= SEQ_MAX
    requires |r| == 10 && |r'| == 10
    ensures LexLess(IdOf(ms, s, r), IdOf(ms', s', r'))
  {
    IdOrder(ms, s, r, ms', s', r');
  }

  // ----- shape -----

  /** Hyphens in place, version 7 and variant 10. */
  ghost predicate WellFormed(id: string) {
    && |id| == 36 && id[8] == '-' && id[13] == '-' && id[18] == '-' && id[23] == '-'
    && id[14] == '7' && id[19] in "89ab"
  }

  lemma IdIsWellFormed(nowMs: nat, seqCounter: nat, randB: seq<byte>)
    requires nowMs < MS_LIMIT && seqCounter <= SEQ_MAX
    requires |randB| == 10
    ensures WellFormed(IdOf(nowMs, seqCounter, randB))
  {
    var hex, stamp := Hex(Buffer(nowMs, seqCounter, randB)), Stamp(nowMs, seqCounter);
    LeadingDigits(nowMs, seqCounter, randB);
    HyphenPositions(hex);
    VersionDigit(nowMs, seqCounter);
    assert hex[12] == HexNumeral(stamp, STAMP_DIGITS)[12];
    FirstDigit(RandomPart(randB));
    assert hex[16] == Hex(RandomPart(randB))[0];
    VariantDigit(RandomPart(randB)[0]);
  }

  lemma HyphenPositions(h: string)
    requires |h| == 32
    ensures var id := Hyphenate(h);
      id[8] == '-' && id[13] == '-' && id[18] == '-' && id[23] == '-' && id[14] == h[12] && id[19] == h[16]
  {
  }

  lemma VersionDigit(nowMs: nat, seqCounter: nat)
    requires seqCounter <= SEQ_MAX
    ensures HexNumeral(Stamp(nowMs, seqCounter), STAMP_DIGITS)[12] == '7'
  {
    StampDigits(nowMs, seqCounter);
    FirstNumeral(7, seqCounter, SEQ_DIGITS - 1);
  }

  lemma FirstNumeral(first: nat, rest: nat, width: nat)
    requires first < 16 && width == 3 && rest < 4096
    ensures HexNumeral(first * 4096 + rest, 1 + width)[0] == Digit(first)
  {
    assert Pow16(width) == 16 * Pow16(width - 1) && Pow16(width - 1) == 16 * Pow16(width - 2);
    NumeralOfSum(first, rest, 1, width);
    assert HexNumeral(first, 1) == HexNumeral(first / 16, 0) + [Digit(first % 16)];
  }

  lemma VariantDigit(b: nat)
    requires 128 <= b < 192
    ensures Digit(b / 16) in "89ab"
  {
    assert b / 16 == 8 || b / 16 == 9 || b / 16 == 10 || b / 16 == 11;
    assert "89ab"[b / 16 - 8] == Digit(b / 16);
  }

  lemma {:induction false} FirstDigit(bytes: seq<byte>)
    requires bytes != []
    ensures Hex(bytes)[0] == Digit(bytes[0] / 16)
    decreases |bytes|
  {
    if |bytes| > 1 {
      FirstDigit(bytes[..|bytes| - 1]);
    }
  }

  // ----- traces -----

  ghost predicate ValidTrace(c: Counter, draws: seq<Draw>)
    decreases |draws|
  {
    draws == [] || (ValidDraw(c, draws[0]) && ValidTrace(Advance(c, draws[0]), draws[1..]))
  }

  /** The clock never goes back, and no call exhausts the counter within its millisecond. */
  ghost predicate Steady(c: Counter, draws: seq<Draw>)
    decreases |draws|
  {
    draws == [] || (draws[0].nowMs >= c.lastMs && !Overflows(c, draws[0])
                    && Steady(Advance(c, draws[0]), draws[1..]))
  }

  ghost function Ids(c: Counter, draws: seq<Draw>): (r: seq<string>)
    requires ValidTrace(c, draws)
    ensures |r| == |draws|
    decreases |draws|
  {
    if draws == [] then []
    else
      var d, next := draws[0], Advance(c, draws[0]);
      [IdOf(d.nowMs, next.seqCounter, d.randB)] + Ids(next, draws[1..])
  }

  lemma {:induction false} LaterIdsAreLarger(c: Counter, draws: seq<Draw>, ms: nat, s: nat, r: seq<byte>, j: nat)
    requires c.seqCounter <= SEQ_MAX && ValidTrace(c, draws) && Steady(c, draws) && j < |draws|
    requires Earlier(c, ms, s, r)
    ensures LexLess(IdOf(ms, s, r), Ids(c, draws)[j])
    decreases |draws|
  {
    var d, next := draws[0], Advance(c, draws[0]);
    if j == 0 {
      LaterStampIsLarger(ms, s, r, d.nowMs, next.seqCounter, d.randB);
    } else {
      LaterIdsAreLarger(next, draws[1..], ms, s, r, j - 1);
    }
  }

  /** Every id is strictly greater than all earlier ones. */
  lemma {:induction false} IdsStrictlyIncrease(c: Counter, draws: seq<Draw>, i: nat, j: nat)
    requires c.seqCounter <= SEQ_MAX && ValidTrace(c, draws) && Steady(c, draws) && i < j < |draws|
    ensures LexLess(Ids(c, draws)[i], Ids(c, draws)[j])
    decreases |draws|
  {
    var d, next := draws[0], Advance(c, draws[0]);
    if i == 0 {
      LaterIdsAreLarger(next, draws[1..], d.nowMs, next.seqCounter, d.randB, j - 1);
    } else {
      IdsStrictlyIncrease(next, draws[1..], i - 1, j - 1);
    }
  }

  /** The clock never goes back behind the last reading the generator has kept. */
  ghost predicate Forward(c: Counter, draws: seq<Draw>)
    decreases |draws|
  {
    draws == [] || (draws[0].nowMs >= c.lastMs && Forward(Advance(c, draws[0]), draws[1..]))
  }

  /**
   * Two successive calls leave ids in order if the second does not overflow the counter, or the first did so
   * itself, or the new seed is the maximum and the random parts happen to be in order.
   */
  predicate PairInOrder(c: Counter, d: Draw, d': Draw)
    requires |d.randB| == 10 && |d'.randB| == 10
  {
    || Overflows(c, d)
    || !Overflows(Advance(c, d), d')
    || (d'.seed % 4096 == SEQ_MAX && LexLess(Hex(RandomPart(d.randB)), Hex(RandomPart(d'.randB))))
  }

  lemma PairOrderIff(c: Counter, d: Draw, d': Draw)
    requires c.seqCounter <= SEQ_MAX && ValidDraw(c, d) && ValidDraw(Advance(c, d), d')
    requires d.nowMs >= c.lastMs && d'.nowMs >= Advance(c, d).lastMs
    ensures var n1 := Advance(c, d); var n2 := Advance(n1, d');
      PairInOrder(c, d, d') <==>
        LexLess(IdOf(d.nowMs, n1.seqCounter, d.randB), IdOf(d'.nowMs, n2.seqCounter, d'.randB))
  {
    var n1 := Advance(c, d);
    var n2 := Advance(n1, d');
    IdOrder(d.nowMs, n1.seqCounter, d.randB, d'.nowMs, n2.seqCounter, d'.randB);
  }

  ghost predicate PairsInOrder(c: Counter, draws: seq<Draw>)
    requires ValidTrace(c, draws)
    decreases |draws|
  {
    |draws| < 2
    || (var d, next, rest := draws[0], Advance(c, draws[0]), draws[1..];
        assert ValidTrace(next, rest);
        PairInOrder(c, d, rest[0]) && PairsInOrder(next, rest))
  }

  ghost predicate StrictlyIncreasing(ids: seq<string>) {
    forall i, j :: 0 <= i < j < |ids| ==> LexLess(ids[i], ids[j])
  }

  lemma {:induction false} LexTransitive(a: string, b: string, c: string)
    requires LexLess(a, b) && LexLess(b, c)
    ensures LexLess(a, c)
    decreases |a|
  {
    if a != "" && a[0] == b[0] && b[0] == c[0] {
      LexTransitive(a[1..], b[1..], c[1..]);
    }
  }

  lemma IncreasingFromFirst(ids: seq<string>)
    requires |ids| >= 2
    ensures StrictlyIncreasing(ids) <==> LexLess(ids[0], ids[1]) && StrictlyIncreasing(ids[1..])
  {
    var rest := ids[1..];
    assert forall k :: 0 < k < |ids| ==> ids[k] == rest[k - 1];
    if LexLess(ids[0], ids[1]) && StrictlyIncreasing(rest) {
      forall i, j | 0 <= i < j < |ids| ensures LexLess(ids[i], ids[j]) {
        if i == 0 && j > 1 {
          LexTransitive(ids[0], rest[0], rest[j - 1]);
        }
      }
    }
    if StrictlyIncreasing(ids) {
      forall i, j | 0 <= i < j < |rest| ensures LexLess(rest[i], rest[j]) {
        assert LexLess(ids[i + 1], ids[j + 1]);
      }
    }
  }

  /**
   * On a clock that does not go back, over any trace, overflows included: every id is strictly greater than
   * all earlier ones if and only if every two successive calls are in order. The overflow branch refreshes
   * lastMs but the id is still stamped with the earlier reading, so it normally falls behind.
   */
  lemma {:induction false} OrderedIff(c: Counter, draws: seq<Draw>)
    requires c.seqCounter <= SEQ_MAX && ValidTrace(c, draws) && Forward(c, draws)
    ensures StrictlyIncreasing(Ids(c, draws)) <==> PairsInOrder(c, draws)
    decreases |draws|
  {
    if |draws| >= 2 {
      var ids, next := Ids(c, draws), Advance(c, draws[0]);
      assert ids[1..] == Ids(next, draws[1..]);
      IncreasingFromFirst(ids);
      PairOrderIff(c, draws[0], draws[1]);
      OrderedIff(next, draws[1..]);
    }
  }

  /** A second call in the millisecond of a call seeded with the maximum: its id is the smaller one. */
  lemma OverflowReversesOrder(ms: nat, seed: nat, spunMs: nat, r: seq<byte>, r': seq<byte>)
    requires 0 < ms < MS_LIMIT && seed < SEQ_MAX && spunMs > ms && |r| == 10 && |r'| == 10
    ensures var draws := [Draw(ms, SEQ_MAX, 0, r), Draw(ms, seed, spunMs, r')];
      && ValidTrace(Counter(0, 0), draws) && Forward(Counter(0, 0), draws)
      && LexLess(Ids(Counter(0, 0), draws)[1], Ids(Counter(0, 0), draws)[0])
  {
    var c, d, d' := Counter(0, 0), Draw(ms, SEQ_MAX, 0, r), Draw(ms, seed, spunMs, r');
    var draws := [d, d'];
    var n1 := Advance(c, d);
    var n2 := Advance(n1, d');
    assert draws[1..] == [d'] && [d'][1..] == [];
    assert ValidTrace(n2, []) && ValidTrace(n1, [d']);
    assert Ids(n1, [d'])[0] == IdOf(ms, n2.seqCounter, r');
    LaterStampIsLarger(ms, n2.seqCounter, r', ms, n1.seqCounter, r);
  }

  // ----- reading an id -----

  predicate IsHexDigit(c: char) { '0' <= c <= '9' || 'a' <= c <= 'f' }

  function DigitValue(c: char): nat
    requires IsHexDigit(c)
  {
    if c <= '9' then (c - '0') as nat else 10 + (c - 'a') as nat
  }

  ghost predicate HexText(s: string) { forall i :: 0 <= i < |s| ==> IsHexDigit(s[i]) }

  function HexValue(s: string): nat
    requires HexText(s)
  {
    if s == "" then 0 else 16 * HexValue(s[..|s| - 1]) + DigitValue(s[|s| - 1])
  }

  function Unhyphenated(id: string): string
    requires |id| == 36
  {
    id[..8] + id[9..13] + id[14..18] + id[19..23] + id[24..]
  }

  /** The digits of an id, read as numbers: timestamp, version, counter, variant, and 62 random bits. */
  ghost predicate ReadsAs(id: string, nowMs: nat, seqCounter: nat, randB: seq<byte>)
    requires |randB| == 10
  {
    |id| == 36 &&
    var h := Unhyphenated(id);
    && |h| == 32 && HexText(h)
    && HexValue(h[..12]) == nowMs && HexValue(h[12..13]) == 7 && HexValue(h[13..16]) == seqCounter
    && HexValue(h[16..18]) == 128 + randB[0] % 64
    && forall k :: 1 <= k < 8 ==> HexValue(h[16 + 2 * k..18 + 2 * k]) == randB[k]
  }

  lemma DigitIsRead(n: nat)
    requires n < 16
    ensures IsHexDigit(Digit(n)) && DigitValue(Digit(n)) == n
  {
  }

  lemma {:induction false} NumeralIsRead(n: nat, width: nat)
    requires n < Pow16(width)
    ensures HexText(HexNumeral(n, width)) && HexValue(HexNumeral(n, width)) == n
    decreases width
  {
    if width > 0 {
      NumeralIsRead(n / 16, width - 1);
      DigitIsRead(n % 16);
      var s := HexNumeral(n, width);
      assert s[..|s| - 1] == HexNumeral(n / 16, width - 1);
    }
  }

  lemma UnhyphenatedBack(h: string)
    requires |h| == 32
    ensures Unhyphenated(Hyphenate(h)) == h
  {
    var id := Hyphenate(h);
    assert id[..8] == h[..8] && id[9..13] == h[8..12] && id[14..18] == h[12..16] && id[19..23] == h[16..20];
    assert id[24..] == h[20..];
  }

  lemma {:induction false} ByteIsRead(bytes: seq<byte>, k: nat)
    requires k < |bytes|
    ensures HexText(Hex(bytes)[2 * k..2 * k + 2]) && HexValue(Hex(bytes)[2 * k..2 * k + 2]) == bytes[k]
    decreases |bytes|
  {
    var last, before := bytes[|bytes| - 1], bytes[..|bytes| - 1];
    if k == |bytes| - 1 {
      TwoDigitsAreRead(last);
      assert Hex(bytes)[2 * k..2 * k + 2] == [Digit(last / 16), Digit(last % 16)];
    } else {
      ByteIsRead(before, k);
      assert Hex(bytes)[2 * k..2 * k + 2] == Hex(before)[2 * k..2 * k + 2];
    }
  }

  lemma TwoDigitsAreRead(b: byte)
    ensures var s := [Digit(b / 16), Digit(b % 16)]; HexText(s) && HexValue(s) == b
  {
    DigitIsRead(b / 16);
    DigitIsRead(b % 16);
    var s := [Digit(b / 16), Digit(b % 16)];
    assert s[..1] == [Digit(b / 16)] && s[..1][..0] == "";
    assert HexValue(s[..1]) == 16 * HexValue(s[..1][..0]) + DigitValue(Digit(b / 16));
  }

  lemma CounterDigits(seqCounter: nat)
    requires seqCounter <= SEQ_MAX
    ensures HexNumeral(0x7000 + seqCounter, SEQ_DIGITS) == HexNumeral(7, 1) + HexNumeral(seqCounter, 3)
  {
    PowerOfThree(3);
    NumeralOfSum(7, seqCounter, 1, 3);
  }

  lemma PowerOfThree(width: nat)
    requires width == 3
    ensures Pow16(width) == 4096
  {
    assert Pow16(width) == 16 * Pow16(width - 1) && Pow16(width - 1) == 16 * Pow16(width - 2);
  }

  lemma StampIsRead(nowMs: nat, seqCounter: nat, time: string, version: string, counter: string)
    requires nowMs < MS_LIMIT && seqCounter <= SEQ_MAX
    requires time == HexNumeral(nowMs, TIME_DIGITS) && version == HexNumeral(7, 1) && counter == HexNumeral(seqCounter, 3)
    ensures HexNumeral(Stamp(nowMs, seqCounter), STAMP_DIGITS) == time + version + counter
    ensures HexText(time) && HexText(version) && HexText(counter)
    ensures HexValue(time) == nowMs && HexValue(version) == 7 && HexValue(counter) == seqCounter
  {
    StampDigits(nowMs, seqCounter);
    CounterDigits(seqCounter);
    PowerOfThree(3);
    TimePower();
    NumeralIsRead(nowMs, TIME_DIGITS);
    NumeralIsRead(7, 1);
    NumeralIsRead(seqCounter, 3);
  }

  lemma TimePower()
    ensures Pow16(TIME_DIGITS) == MS_LIMIT
  {
    PowersOfSixteen();
    FourMore(TIME_DIGITS);
    FourMore(8);
  }

  lemma {:induction false} HexIsText(bytes: seq<byte>)
    ensures HexText(Hex(bytes))
    decreases |bytes|
  {
    if bytes != [] {
      HexIsText(bytes[..|bytes| - 1]);
      DigitIsRead(bytes[|bytes| - 1] / 16);
      DigitIsRead(bytes[|bytes| - 1] % 16);
    }
  }

  lemma RandomIsRead(h: string, random: seq<byte>, k: nat)
    requires |h| == 32 && |random| == 8 && h[16..] == Hex(random) && HexText(h) && k < 8
    ensures HexValue(h[16 + 2 * k..18 + 2 * k]) == random[k]
  {
    ByteIsRead(random, k);
    assert h[16 + 2 * k..18 + 2 * k] == h[16..][2 * k..2 * k + 2];
  }

  lemma TextReadsAs(id: string, h: string, nowMs: nat, seqCounter: nat, randB: seq<byte>, random: seq<byte>)
    requires |id| == 36 && Unhyphenated(id) == h && |h| == 32 && HexText(h)
    requires HexValue(h[..12]) == nowMs && HexValue(h[12..13]) == 7 && HexValue(h[13..16]) == seqCounter
    requires |randB| == 10 && random == RandomPart(randB) && h[16..] == Hex(random)
    ensures ReadsAs(id, nowMs, seqCounter, randB)
  {
    RandomIsRead(h, random, 0);
    forall k | 1 <= k < 8 ensures HexValue(h[16 + 2 * k..18 + 2 * k]) == randB[k] {
      RandomIsRead(h, random, k);
    }
  }

  /** An id says what it was made of: every number put into it can be read off its digits. */
  lemma IdReadsBack(nowMs: nat, seqCounter: nat, randB: seq<byte>)
    requires nowMs < MS_LIMIT && seqCounter <= SEQ_MAX && |randB| == 10
    ensures ReadsAs(IdOf(nowMs, seqCounter, randB), nowMs, seqCounter, randB)
  {
    var h, random := Hex(Buffer(nowMs, seqCounter, randB)), RandomPart(randB);
    var time, version, counter := HexNumeral(nowMs, TIME_DIGITS), HexNumeral(7, 1), HexNumeral(seqCounter, 3);
    LeadingDigits(nowMs, seqCounter, randB);
    StampIsRead(nowMs, seqCounter, time, version, counter);
    HexIsText(Buffer(nowMs, seqCounter, randB));
    UnhyphenatedBack(h);
    PartsOfText(h, time, version, counter, Hex(random));
    TextReadsAs(IdOf(nowMs, seqCounter, randB), h, nowMs, seqCounter, randB, random);
  }

  lemma PartsOfText(h: string, time: string, version: string, counter: string, random: string)
    requires h == time + version + counter + random
    requires |time| == 12 && |version| == 1 && |counter| == 3 && |random| == 16
    ensures |h| == 32 && h[..12] == time && h[12..13] == version && h[13..16] == counter && h[16..] == random
  {
  }
}
