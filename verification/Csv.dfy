/**
 * The CSV printer of the statement report (src/controllers/reportController.ts) and the line parser of
 * the bulk upload (src/services/enterpriseService.ts) are inverses, as RFC 4180 section 2 asks.
 */
module Csv {
  import opened Sequences

  /** A value to print; None stands for null and undefined. */
  type Field = Option<string>

  // ----- printing -----

  predicate Special(c: char) { c == '"' || c == ',' || c == '\r' || c == '\n' }

  predicate NeedsQuotes(s: string) { exists i :: 0 <= i < |s| && Special(s[i]) }

  function DoubleQuotes(s: string): string {
    if s == "" then ""
    else if s[0] == '"' then "\"\"" + DoubleQuotes(s[1..])
    else [s[0]] + DoubleQuotes(s[1..])
  }

  function SanitizeCsvValue(v: Field): (r: string)
    ensures v.Some? && !NeedsQuotes(v.value) ==> r == v.value
    ensures v.Some? && NeedsQuotes(v.value) ==> |r| >= 2 && r[0] == '"' && r[|r| - 1] == '"'
  {
    match v
    case None => ""
    case Some(s) => if NeedsQuotes(s) then "\"" + DoubleQuotes(s) + "\"" else s
  }

  /** `row.map(sanitizeCsvValue).join(",")` */
  function PrintRow(row: seq<Field>): string {
    if row == [] then ""
    else if |row| == 1 then SanitizeCsvValue(row[0])
    else SanitizeCsvValue(row[0]) + "," + PrintRow(row[1..])
  }

  // ----- parsing -----

  /** The fields still to come when `current` has been read of the first one. */
  function Fields(rest: string, current: string, inQuotes: bool): seq<string>
    decreases |rest|
  {
    if rest == "" then [current]
    else if rest[0] == '"' then
      if inQuotes && |rest| > 1 && rest[1] == '"' then Fields(rest[2..], current + "\"", inQuotes)
      else Fields(rest[1..], current, !inQuotes)
    else if rest[0] == ',' && !inQuotes then [current] + Fields(rest[1..], "", inQuotes)
    else Fields(rest[1..], current + [rest[0]], inQuotes)
  }

  function ParsedLine(line: string): seq<string> { Fields(line, "", false) }

  method ParseCsvLine(line: string) returns (values: seq<string>)
    ensures values == ParsedLine(line)
    ensures forall row: seq<Field> :: row != [] && line == PrintRow(row) ==> values == Texts(row)
  {
    values := [];
    var current, inQuotes, i := "", false, 0;
    assert line[0..] == line;
    while i < |line|
      invariant 0 <= i <= |line|
      invariant values + Fields(line[i..], current, inQuotes) == ParsedLine(line)
    {
      var rest := line[i..];
      assert rest[1..] == line[i + 1..];
      var c := line[i];
      if c == '"' {
        if inQuotes && i + 1 < |line| && line[i + 1] == '"' {
          assert rest[2..] == line[i + 2..];
          current := current + "\"";
          i := i + 2;
        } else {
          inQuotes := !inQuotes;
          i := i + 1;
        }
      } else if c == ',' && !inQuotes {
        assert values + ([current] + Fields(rest[1..], "", inQuotes))
            == values + [current] + Fields(rest[1..], "", inQuotes);
        values := values + [current];
        current := "";
        i := i + 1;
      } else {
        current := current + [c];
        i := i + 1;
      }
    }
    values := values + [current];
    forall row: seq<Field> | row != [] && line == PrintRow(row) ensures values == Texts(row) {
      RoundTrip(row);
    }
  }

  // ----- the round trip -----

  function Text(v: Field): string {
    match v
    case None => ""
    case Some(s) => s
  }

  function Texts(row: seq<Field>): (r: seq<string>)
    ensures |r| == |row| && forall i :: 0 <= i < |row| ==> r[i] == Text(row[i])
  {
    seq(|row|, i requires 0 <= i < |row| => Text(row[i]))
  }

  /** What may follow a printed field: nothing, or the separator. */
  ghost predicate Boundary(rest: string) { rest == "" || rest[0] == ',' }

  /** Text the parser takes as it stands. */
  ghost predicate Plain(s: string) { forall i :: 0 <= i < |s| ==> s[i] != '"' && s[i] != ',' }

  lemma {:induction false} PlainField(s: string, rest: string, current: string)
    requires Plain(s)
    ensures Fields(s + rest, current, false) == Fields(rest, current + s, false)
    decreases |s|
  {
    if s == "" {
      assert s + rest == rest && current + s == current;
    } else {
      assert forall i :: 0 <= i < |s[1..]| ==> s[1..][i] == s[i + 1];
      assert (s + rest)[1..] == s[1..] + rest;
      PlainField(s[1..], rest, current + [s[0]]);
      assert current + [s[0]] + s[1..] == current + s;
    }
  }

  lemma {:induction false} QuotedField(s: string, rest: string, current: string)
    requires rest == "" || rest[0] != '"'
    ensures Fields(DoubleQuotes(s) + ("\"" + rest), current, true) == Fields(rest, current + s, false)
    decreases |s|
  {
    var line := DoubleQuotes(s) + ("\"" + rest);
    if s == "" {
      assert line == "\"" + rest && line[1..] == rest && current + s == current;
    } else {
      var tail := DoubleQuotes(s[1..]) + ("\"" + rest);
      if s[0] == '"' {
        assert line == "\"\"" + tail && line[2..] == tail;
      } else {
        assert line == [s[0]] + tail && line[1..] == tail;
      }
      QuotedField(s[1..], rest, current + [s[0]]);
      assert current + [s[0]] + s[1..] == current + s;
    }
  }

  lemma QuotedText(s: string, rest: string)
    requires NeedsQuotes(s)
    ensures SanitizeCsvValue(Some(s)) + rest == "" + ("\"" + (DoubleQuotes(s) + ("\"" + rest)))
  {
  }

  lemma PrintedField(v: Field, rest: string)
    requires Boundary(rest)
    ensures Fields(SanitizeCsvValue(v) + rest, "", false) == Fields(rest, Text(v), false)
  {
    var s := Text(v);
    assert "" + "" + s == s && "" + s == s;
    if NeedsQuotes(s) {
      QuotedText(s, rest);
      OneStretch("", s, rest, SanitizeCsvValue(v) + rest, "");
    } else {
      assert forall i :: 0 <= i < |s| ==> !Special(s[i]);
      PlainField(s, rest, "");
    }
  }

  /** Parsing a printed row gives back its fields, whatever characters they contain. */
  lemma {:induction false} RoundTrip(row: seq<Field>)
    requires row != []
    ensures ParsedLine(PrintRow(row)) == Texts(row)
    decreases |row|
  {
    if |row| == 1 {
      PrintedField(row[0], "");
      assert SanitizeCsvValue(row[0]) + "" == PrintRow(row);
    } else {
      var rest := "," + PrintRow(row[1..]);
      PrintedField(row[0], rest);
      assert SanitizeCsvValue(row[0]) + rest == PrintRow(row);
      assert rest[1..] == PrintRow(row[1..]);
      RoundTrip(row[1..]);
      assert Texts(row) == [Text(row[0])] + Texts(row[1..]);
    }
  }

  /** The empty row is the only one that does not come back: its line reads as one empty field. */
  lemma RoundTripIff(row: seq<Field>)
    ensures ParsedLine(PrintRow(row)) == Texts(row) <==> row != []
  {
    if row != [] {
      RoundTrip(row);
    }
  }

  /** Two rows with the same printed line have the same texts. */
  lemma PrintIsInjective(a: seq<Field>, b: seq<Field>)
    requires a != [] && b != [] && PrintRow(a) == PrintRow(b)
    ensures Texts(a) == Texts(b)
  {
    RoundTrip(a);
    RoundTrip(b);
  }

  lemma {:induction false} FieldsNonEmpty(rest: string, current: string, inQuotes: bool)
    ensures Fields(rest, current, inQuotes) != []
    decreases |rest|
  {
    if rest == "" {
    } else if rest[0] == '"' {
      if inQuotes && |rest| > 1 && rest[1] == '"' {
        FieldsNonEmpty(rest[2..], current + "\"", inQuotes);
      } else {
        FieldsNonEmpty(rest[1..], current, !inQuotes);
      }
    } else if !(rest[0] == ',' && !inQuotes) {
      FieldsNonEmpty(rest[1..], current + [rest[0]], inQuotes);
    }
  }

  function Present(values: seq<string>): (r: seq<Field>)
    ensures |r| == |values| && forall i :: 0 <= i < |values| ==> r[i] == Some(values[i])
  {
    seq(|values|, i requires 0 <= i < |values| => Some(values[i]))
  }

  /** Any line at all, however quoted, means the same after being parsed, printed and parsed again. */
  lemma NormalFormIsStable(line: string)
    ensures ParsedLine(PrintRow(Present(ParsedLine(line)))) == ParsedLine(line)
  {
    var values := ParsedLine(line);
    FieldsNonEmpty(line, "", false);
    RoundTrip(Present(values));
    assert Texts(Present(values)) == values;
  }

  // ----- lines no printer has written -----

  /** A quoted stretch of a field and the plain text that follows it. */
  datatype Stretch = Stretch(quoted: string, plain: string)

  /** A field as it may stand in a line: plain text with quoted stretches anywhere in it. */
  function Written(plain: string, more: seq<Stretch>): string
    decreases |more|
  {
    if more == [] then plain
    else plain + ("\"" + (DoubleQuotes(more[0].quoted) + ("\"" + Written(more[0].plain, more[1..]))))
  }

  /** What it means: the quotes around the stretches are dropped, everything else is text. */
  function Meaning(plain: string, more: seq<Stretch>): string
    decreases |more|
  {
    if more == [] then plain else plain + (more[0].quoted + Meaning(more[0].plain, more[1..]))
  }

  /** Two stretches do not touch, for their quotes would then stand for a quote. */
  ghost predicate WellWritten(plain: string, more: seq<Stretch>)
    decreases |more|
  {
    && Plain(plain)
    && (more != [] ==> WellWritten(more[0].plain, more[1..]) && (|more| > 1 ==> more[0].plain != ""))
  }

  lemma WrittenStart(plain: string, more: seq<Stretch>, rest: string)
    requires WellWritten(plain, more) && Boundary(rest) && (more != [] ==> plain != "")
    ensures var line := Written(plain, more) + rest; line == "" || line[0] != '"'
  {
    assert plain != "" ==> (Written(plain, more) + rest)[0] == plain[0];
    assert plain == "" ==> Written(plain, more) + rest == rest;
  }

  lemma ClosingQuote(quoted: string, tail: string, current: string)
    requires tail == "" || tail[0] != '"'
    ensures Fields("\"" + (DoubleQuotes(quoted) + ("\"" + tail)), current, false) == Fields(tail, current + quoted, false)
  {
    var body := DoubleQuotes(quoted) + ("\"" + tail);
    assert ("\"" + body)[1..] == body;
    QuotedField(quoted, tail, current);
  }

  lemma OneStretch(plain: string, quoted: string, tail: string, line: string, current: string)
    requires Plain(plain) && (tail == "" || tail[0] != '"')
    requires line == plain + ("\"" + (DoubleQuotes(quoted) + ("\"" + tail)))
    ensures Fields(line, current, false) == Fields(tail, current + plain + quoted, false)
  {
    PlainField(plain, "\"" + (DoubleQuotes(quoted) + ("\"" + tail)), current);
    ClosingQuote(quoted, tail, current + plain);
  }

  lemma WrittenSplits(plain: string, more: seq<Stretch>, rest: string)
    requires more != []
    ensures Written(plain, more) + rest ==
      plain + ("\"" + (DoubleQuotes(more[0].quoted) + ("\"" + (Written(more[0].plain, more[1..]) + rest))))
  {
  }

  /** Quotes may open and close anywhere in a field; a field that starts in plain text is read the same way. */
  lemma {:induction false} WrittenIsRead(plain: string, more: seq<Stretch>, rest: string, current: string)
    requires WellWritten(plain, more) && Boundary(rest)
    ensures Fields(Written(plain, more) + rest, current, false) == Fields(rest, current + Meaning(plain, more), false)
    decreases |more|
  {
    if more == [] {
      PlainField(plain, rest, current);
    } else {
      var q, tail := more[0].quoted, Written(more[0].plain, more[1..]) + rest;
      WrittenSplits(plain, more, rest);
      WrittenStart(more[0].plain, more[1..], rest);
      OneStretch(plain, q, tail, Written(plain, more) + rest, current);
      WrittenIsRead(more[0].plain, more[1..], rest, current + plain + q);
      assert current + plain + q + Meaning(more[0].plain, more[1..]) == current + Meaning(plain, more);
    }
  }

  /** A quote that is never closed takes in the rest of the line, separators included. */
  lemma {:induction false} UnclosedQuote(plain: string, quoted: string, current: string)
    requires Plain(plain)
    ensures Fields(plain + ("\"" + DoubleQuotes(quoted)), current, false) == [current + plain + quoted]
  {
    var after := "\"" + DoubleQuotes(quoted);
    PlainField(plain, after, current);
    assert after[1..] == DoubleQuotes(quoted);
    InsideToTheEnd(quoted, current + plain);
  }

  lemma EscapedQuote(line: string, tail: string, current: string)
    requires line == ['"', '"'] + tail
    ensures Fields(line, current, true) == Fields(tail, current + ['"'], true)
  {
    assert line[2..] == tail;
  }

  lemma InsideChar(line: string, c: char, tail: string, current: string)
    requires line == [c] + tail && c != '"'
    ensures Fields(line, current, true) == Fields(tail, current + [c], true)
  {
    assert line[1..] == tail;
  }

  lemma {:induction false} InsideToTheEnd(s: string, current: string)
    ensures Fields(DoubleQuotes(s), current, true) == [current + s]
    decreases |s|
  {
    if s == "" {
      assert current + s == current;
    } else {
      var tail := DoubleQuotes(s[1..]);
      if s[0] == '"' {
        EscapedQuote(DoubleQuotes(s), tail, current);
      } else {
        InsideChar(DoubleQuotes(s), s[0], tail, current);
      }
      InsideToTheEnd(s[1..], current + [s[0]]);
      assert current + [s[0]] + s[1..] == current + s;
    }
  }

  // ----- line breaks -----

  /** Whether a position behind `s` lies inside quotes. */
  function OpenAfter(s: string, open: bool): bool
    decreases |s|
  {
    if s == "" then open else OpenAfter(s[1..], if s[0] == '"' then !open else open)
  }

  predicate IsBreak(c: char) { c == '\r' || c == '\n' }

  /** Every line break of `s` lies inside quotes. */
  ghost predicate BreaksQuoted(s: string, open: bool) {
    forall i :: 0 <= i < |s| && IsBreak(s[i]) ==> OpenAfter(s[..i], open)
  }

  lemma {:induction false} OpenAfterConcat(a: string, b: string, open: bool)
    ensures OpenAfter(a + b, open) == OpenAfter(b, OpenAfter(a, open))
    decreases |a|
  {
    if a == "" {
      assert a + b == b;
    } else {
      assert (a + b)[1..] == a[1..] + b;
      OpenAfterConcat(a[1..], b, if a[0] == '"' then !open else open);
    }
  }

  lemma BreaksConcat(a: string, b: string, open: bool)
    requires BreaksQuoted(a, open) && BreaksQuoted(b, OpenAfter(a, open))
    ensures BreaksQuoted(a + b, open)
  {
    forall i | 0 <= i < |a + b| && IsBreak((a + b)[i]) ensures OpenAfter((a + b)[..i], open) {
      if i < |a| {
        assert (a + b)[..i] == a[..i] && IsBreak(a[i]);
      } else {
        assert (a + b)[..i] == a + b[..i - |a|] && IsBreak(b[i - |a|]);
        OpenAfterConcat(a, b[..i - |a|], open);
      }
    }
  }

  lemma OneChar(c: char, open: bool)
    requires !IsBreak(c) || open
    ensures BreaksQuoted([c], open) && OpenAfter([c], open) == if c == '"' then !open else open
  {
    assert [c][..0] == "" && [c][1..] == "";
  }

  /** Doubling keeps the number of quotes even, so everything stays inside. */
  lemma {:induction false} DoubledStaysInside(s: string)
    ensures OpenAfter(DoubleQuotes(s), true) && BreaksQuoted(DoubleQuotes(s), true)
    decreases |s|
  {
    if s != "" {
      DoubledStaysInside(s[1..]);
      var tail := DoubleQuotes(s[1..]);
      OneChar(s[0], true);
      if s[0] == '"' {
        OneChar('"', false);
        BreaksConcat(['"'], ['"'], true);
        OpenAfterConcat(['"'], ['"'], true);
        BreaksConcat(['"'] + ['"'], tail, true);
        OpenAfterConcat(['"'] + ['"'], tail, true);
        assert DoubleQuotes(s) == ['"'] + ['"'] + tail;
      } else {
        BreaksConcat([s[0]], tail, true);
        OpenAfterConcat([s[0]], tail, true);
      }
    }
  }

  lemma {:induction false} PlainHasNoBreak(s: string)
    requires !NeedsQuotes(s)
    ensures !OpenAfter(s, false) && BreaksQuoted(s, false)
    decreases |s|
  {
    assert forall i :: 0 <= i < |s| ==> !Special(s[i]);
    if s != "" {
      assert forall i :: 0 <= i < |s[1..]| ==> s[1..][i] == s[i + 1];
      PlainHasNoBreak(s[1..]);
      OneChar(s[0], false);
      BreaksConcat([s[0]], s[1..], false);
      assert s == [s[0]] + s[1..];
    }
  }

  lemma FieldBreaksQuoted(v: Field)
    ensures !OpenAfter(SanitizeCsvValue(v), false) && BreaksQuoted(SanitizeCsvValue(v), false)
  {
    if v.Some? && NeedsQuotes(v.value) {
      var body := DoubleQuotes(v.value);
      OneChar('"', false);
      OneChar('"', true);
      DoubledStaysInside(v.value);
      BreaksConcat(['"'], body, false);
      OpenAfterConcat(['"'], body, false);
      BreaksConcat(['"'] + body, ['"'], false);
      OpenAfterConcat(['"'] + body, ['"'], false);
      assert SanitizeCsvValue(v) == ['"'] + body + ['"'];
    } else if v.Some? {
      PlainHasNoBreak(v.value);
    }
  }

  /** A printed row has no line break outside quotes, so rows can be told apart by their line breaks. */
  lemma {:induction false} RowIsOneLine(row: seq<Field>)
    ensures !OpenAfter(PrintRow(row), false) && BreaksQuoted(PrintRow(row), false)
    decreases |row|
  {
    if row != [] {
      FieldBreaksQuoted(row[0]);
      if |row| > 1 {
        RowIsOneLine(row[1..]);
        OneChar(',', false);
        BreaksConcat([','], PrintRow(row[1..]), false);
        OpenAfterConcat([','], PrintRow(row[1..]), false);
        BreaksConcat(SanitizeCsvValue(row[0]), [','] + PrintRow(row[1..]), false);
        OpenAfterConcat(SanitizeCsvValue(row[0]), [','] + PrintRow(row[1..]), false);
        assert PrintRow(row) == SanitizeCsvValue(row[0]) + ([','] + PrintRow(row[1..]));
      }
    }
  }
}
