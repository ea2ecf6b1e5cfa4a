/** Replacing card-like numbers in a string (src/config/logRedaction.ts, redactPii). */
module CardNumbers {

  const MARKER_WORD := "REDACTED"
  const REDACTED := "[" + MARKER_WORD + "]"
  const MIN_DIGITS := 13
  const MAX_DIGITS := 19

  predicate IsDigit(c: char) { '0' <= c <= '9' }

  predicate IsWordChar(c: char) { IsDigit(c) || 'a' <= c <= 'z' || 'A' <= c <= 'Z' || c == '_' }

  // ----- the pattern /\b\d{13,19}\b/ -----

  predicate WordAt(s: string, i: int) { 0 <= i < |s| && IsWordChar(s[i]) }

  predicate WordBoundary(s: string, i: int) { WordAt(s, i - 1) != WordAt(s, i) }

  /** The pattern matches s[i..j]. */
  ghost predicate Matches(s: string, i: int, j: int) {
    && 0 <= i && j <= |s| && MIN_DIGITS <= j - i <= MAX_DIGITS
    && (forall k :: i <= k < j ==> IsDigit(s[k]))
    && WordBoundary(s, i) && WordBoundary(s, j)
  }

  ghost predicate CardFree(s: string) { forall i, j :: !Matches(s, i, j) }

  // ----- replacing from left to right -----

  /** Length of the run of word characters `s` begins with. */
  function WordLength(s: string): (n: nat)
    ensures n <= |s| && (forall k :: 0 <= k < n ==> IsWordChar(s[k]))
    ensures n < |s| ==> !IsWordChar(s[n])
  {
    if s == "" || !IsWordChar(s[0]) then 0 else 1 + WordLength(s[1..])
  }

  predicate AllDigits(s: string) { forall k :: 0 <= k < |s| ==> IsDigit(s[k]) }

  /** A match starts here: no word character precedes, and the coming word is a card-like number. */
  predicate CardHere(s: string, afterWord: bool) {
    var n := WordLength(s);
    !afterWord && MIN_DIGITS <= n <= MAX_DIGITS && AllDigits(s[..n])
  }

  /** `value.replace(pattern, "[REDACTED]")` on what is left, `afterWord` telling what came before. */
  function Replaced(s: string, afterWord: bool): string
    decreases |s|
  {
    if s == "" then ""
    else if CardHere(s, afterWord) then REDACTED + Replaced(s[WordLength(s)..], true)
    else [s[0]] + Replaced(s[1..], IsWordChar(s[0]))
  }

  function RedactPii(s: string): string { Replaced(s, false) }

  // ----- no match starts anywhere -----

  predicate Clean(s: string, afterWord: bool)
    decreases |s|
  {
    s == "" || (!CardHere(s, afterWord) && Clean(s[1..], IsWordChar(s[0])))
  }

  /** A match at i is the whole run of word characters from i. */
  lemma MatchIsWord(s: string, i: nat, j: nat)
    requires i < j <= |s| && IsDigit(s[i])
    ensures Matches(s, i, j) <==>
      CardHere(s[i..], i > 0 && IsWordChar(s[i - 1])) && j == i + WordLength(s[i..])
  {
    var n := WordLength(s[i..]);
    assert forall k :: 0 <= k < n ==> s[i..][k] == s[i + k];
    if Matches(s, i, j) {
      assert IsDigit(s[j - 1]) && WordAt(s, j - 1);
      assert forall k :: 0 <= k < j - i ==> s[i..][k] == s[i + k] && IsDigit(s[i + k]);
      assert n >= j - i;
      assert j < |s| ==> s[i..][j - i] == s[j] && !IsWordChar(s[j]);
      assert n == j - i;
      forall k | 0 <= k < n ensures IsDigit(s[i..][..n][k]) {
        assert IsDigit(s[i + k]);
      }
    }
    if CardHere(s[i..], i > 0 && IsWordChar(s[i - 1])) && j == i + n {
      forall k | i <= k < j ensures IsDigit(s[k]) {
        assert IsDigit(s[i..][..n][k - i]);
      }
      assert j < |s| ==> s[i..][n] == s[j];
    }
  }

  ghost predicate NoMatchFrom(s: string, i: nat) {
    forall a, b :: i <= a ==> !Matches(s, a, b)
  }

  lemma {:induction false} CleanMeansNoMatch(s: string, i: nat)
    requires i <= |s|
    ensures Clean(s[i..], i > 0 && IsWordChar(s[i - 1])) <==> NoMatchFrom(s, i)
    decreases |s| - i
  {
    if i < |s| {
      CleanMeansNoMatch(s, i + 1);
      assert s[i..][1..] == s[i + 1..] && s[i..][0] == s[i];
      var here := CardHere(s[i..], i > 0 && IsWordChar(s[i - 1]));
      forall b ensures Matches(s, i, b) ==> here {
        if Matches(s, i, b) {
          MatchIsWord(s, i, b);
        }
      }
      if here {
        assert IsDigit(s[i..][..WordLength(s[i..])][0]);
        MatchIsWord(s, i, i + WordLength(s[i..]));
      }
      assert NoMatchFrom(s, i) <==> NoMatchFrom(s, i + 1) && forall b :: !Matches(s, i, b);
    }
  }

  lemma CleanIsCardFree(s: string)
    ensures Clean(s, false) <==> CardFree(s)
  {
    assert s[0..] == s;
    CleanMeansNoMatch(s, 0);
    assert NoMatchFrom(s, 0) <==> CardFree(s);
  }

  // ----- the result of replacing -----

  /** Inside a word nothing is replaced, so the coming word survives. */
  lemma {:induction false} RestOfWordSurvives(s: string)
    ensures var r := Replaced(s, true); var n := WordLength(s);
      WordLength(r) == n && n <= |r| && r[..n] == s[..n]
    decreases |s|
  {
    if s != "" && IsWordChar(s[0]) {
      RestOfWordSurvives(s[1..]);
      var r, n := Replaced(s, true), WordLength(s);
      assert r[1..] == Replaced(s[1..], true);
      assert r[..n] == [r[0]] + r[1..][..n - 1];
      assert s[..n] == [s[0]] + s[1..][..n - 1];
    }
  }

  lemma WordLengthCons(c: char, q: string)
    ensures WordLength([c] + q) == if IsWordChar(c) then 1 + WordLength(q) else 0
  {
    assert ([c] + q)[1..] == q;
  }

  lemma ConsKeepsWord(c: char, a: string, b: string)
    requires WordLength(a) == WordLength(b) && a[..WordLength(a)] == b[..WordLength(b)]
    ensures var n := WordLength([c] + a); WordLength([c] + b) == n && ([c] + a)[..n] == ([c] + b)[..n]
  {
    WordLengthCons(c, a);
    WordLengthCons(c, b);
    SamePrefix(c, a, b, WordLength(a));
  }

  lemma FirstWordSurvives(s: string, afterWord: bool)
    requires s != "" && !CardHere(s, afterWord)
    ensures var r := Replaced(s, afterWord);
      WordLength(r) == WordLength(s) && r[..WordLength(r)] == s[..WordLength(s)]
  {
    var c, tail := s[0], s[1..];
    assert s == [c] + tail && Replaced(s, afterWord) == [c] + Replaced(tail, IsWordChar(c));
    if IsWordChar(c) {
      RestOfWordSurvives(tail);
      ConsKeepsWord(c, Replaced(tail, true), tail);
    }
  }

  lemma SamePrefix(c: char, a: string, b: string, n: nat)
    requires n <= |a| && n <= |b| && a[..n] == b[..n]
    ensures ([c] + a)[..n + 1] == ([c] + b)[..n + 1]
  {
    assert ([c] + a)[..n + 1] == [c] + a[..n] && ([c] + b)[..n + 1] == [c] + b[..n];
  }

  ghost predicate ShortWordOnly(word: string) {
    |word| < MIN_DIGITS && forall k :: 0 <= k < |word| ==> IsWordChar(word[k])
  }

  /** A short word in brackets is clean before anything clean. */
  lemma BracketedIsClean(text: string, word: string, tail: string)
    requires text == ['['] + (word + ([']'] + tail)) && ShortWordOnly(word)
    requires Clean(tail, false)
    ensures Clean(text, false) && Clean(text, true)
  {
    NonWordFirst(']', tail);
    ShortWord(word, [']'] + tail);
    NonWordFirst('[', word + ([']'] + tail));
  }

  lemma Bracketed(text: string, word: string, tail: string)
    requires text == "[" + word + "]"
    ensures text + tail == ['['] + (word + ([']'] + tail))
  {
  }

  lemma MarkerIsShort()
    ensures ShortWordOnly(MARKER_WORD)
  {
  }

  lemma MarkerIsClean(marker: string, tail: string)
    requires marker == REDACTED && Clean(tail, false)
    ensures Clean(marker + tail, false) && Clean(marker + tail, true)
  {
    MarkerIsShort();
    Bracketed(marker, MARKER_WORD, tail);
    BracketedIsClean(marker + tail, MARKER_WORD, tail);
  }

  lemma NonWordFirst(c: char, s: string)
    requires !IsWordChar(c) && Clean(s, false)
    ensures Clean([c] + s, false) && Clean([c] + s, true)
  {
    assert ([c] + s)[1..] == s;
  }

  lemma {:induction false} ShortWord(word: string, tail: string)
    requires ShortWordOnly(word)
    requires tail != "" && !IsWordChar(tail[0]) && Clean(tail, false) && Clean(tail, true)
    ensures Clean(word + tail, false) && Clean(word + tail, true)
    ensures WordLength(word + tail) == |word|
    decreases |word|
  {
    if word == "" {
      assert word + tail == tail;
    } else {
      assert (word + tail)[1..] == word[1..] + tail;
      ShortWord(word[1..], tail);
    }
  }

  /** What has been replaced contains no match, also when the character before it has become a bracket. */
  lemma {:induction false} ReplacedIsClean(s: string, afterWord: bool, shown: bool)
    requires shown == afterWord || s == "" || !IsWordChar(s[0])
    ensures Clean(Replaced(s, afterWord), shown)
    ensures s == "" || !IsWordChar(s[0]) ==>
      Replaced(s, afterWord) == "" || !IsWordChar(Replaced(s, afterWord)[0])
    decreases |s|
  {
    if s == "" {
    } else if CardHere(s, afterWord) {
      var rest := s[WordLength(s)..];
      ReplacedIsClean(rest, true, false);
      MarkerIsClean(REDACTED, Replaced(rest, true));
    } else {
      var r := Replaced(s, afterWord);
      FirstWordSurvives(s, afterWord);
      ReplacedIsClean(s[1..], IsWordChar(s[0]), IsWordChar(s[0]));
      assert r[1..] == Replaced(s[1..], IsWordChar(s[0]));
      assert r[..WordLength(r)] == s[..WordLength(s)];
    }
  }

  /** No card-like number is left in a redacted string. */
  lemma RedactedIsCardFree(s: string)
    ensures CardFree(RedactPii(s))
  {
    ReplacedIsClean(s, false, false);
    CleanIsCardFree(RedactPii(s));
  }

  lemma {:induction false} CleanIsKept(s: string, afterWord: bool)
    ensures Clean(s, afterWord) ==> Replaced(s, afterWord) == s
    ensures !Clean(s, afterWord) ==> |Replaced(s, afterWord)| < |s|
    ensures |Replaced(s, afterWord)| <= |s|
    decreases |s|
  {
    if s != "" {
      if CardHere(s, afterWord) {
        CleanIsKept(s[WordLength(s)..], true);
      } else {
        CleanIsKept(s[1..], IsWordChar(s[0]));
      }
    }
  }

  /** Redaction changes exactly the strings that contain a card-like number. */
  lemma RedactionIff(s: string)
    ensures RedactPii(s) == s <==> CardFree(s)
  {
    CleanIsKept(s, false);
    CleanIsCardFree(s);
  }

  lemma RedactTwice(s: string)
    ensures RedactPii(RedactPii(s)) == RedactPii(s)
  {
    RedactedIsCardFree(s);
    RedactionIff(RedactPii(s));
  }

  // ----- the text around the matches -----

  /** No word runs across the cut between `p` and `q`. */
  ghost predicate CutBetweenWords(p: string, q: string) {
    p == "" || q == "" || !IsWordChar(p[|p| - 1]) || !IsWordChar(q[0])
  }

  lemma {:induction false} WordBeforeCut(p: string, q: string)
    requires p != "" && CutBetweenWords(p, q)
    ensures WordLength(p + q) == WordLength(p)
    decreases |p|
  {
    assert (p + q)[1..] == p[1..] + q;
    if IsWordChar(p[0]) {
      if |p| == 1 {
        assert p[1..] + q == q;
      } else {
        WordBeforeCut(p[1..], q);
      }
    }
  }

  lemma SameCardBeforeCut(p: string, q: string, afterWord: bool)
    requires p != "" && CutBetweenWords(p, q)
    ensures CardHere(p + q, afterWord) <==> CardHere(p, afterWord)
  {
    WordBeforeCut(p, q);
    assert (p + q)[..WordLength(p)] == p[..WordLength(p)];
  }

  lemma ReplacedCard(s: string, afterWord: bool, marker: string)
    requires s != "" && CardHere(s, afterWord) && marker == REDACTED
    ensures Replaced(s, afterWord) == marker + Replaced(s[WordLength(s)..], true)
  {
  }

  lemma ReplacedChar(s: string, afterWord: bool)
    requires s != "" && !CardHere(s, afterWord)
    ensures Replaced(s, afterWord) == [s[0]] + Replaced(s[1..], IsWordChar(s[0]))
  {
  }

  function EndsInWord(p: string, otherwise: bool): bool { if p == "" then otherwise else IsWordChar(p[|p| - 1]) }

  /** Replacing works on both sides of such a cut independently. */
  lemma {:induction false} ReplacedConcat(p: string, q: string, whole: string, afterWord: bool, marker: string)
    requires CutBetweenWords(p, q) && whole == p + q && marker == REDACTED
    ensures Replaced(whole, afterWord) == Replaced(p, afterWord) + Replaced(q, EndsInWord(p, afterWord))
    decreases |p|
  {
    if p == "" {
      assert whole == q;
    } else {
      SameCardBeforeCut(p, q, afterWord);
      if CardHere(p, afterWord) {
        CardBeforeCut(p, q, whole, afterWord, marker);
      } else {
        CharBeforeCut(p, q, whole, afterWord, marker);
      }
    }
  }

  lemma {:induction false} CardBeforeCut(p: string, q: string, whole: string, afterWord: bool, marker: string)
    requires p != "" && CutBetweenWords(p, q) && whole == p + q && marker == REDACTED
    requires CardHere(p, afterWord) && CardHere(whole, afterWord)
    ensures Replaced(whole, afterWord) == Replaced(p, afterWord) + Replaced(q, EndsInWord(p, afterWord))
    decreases |p|, 0
  {
    var n := WordLength(p);
    WordBeforeCut(p, q);
    ReplacedCard(p, afterWord, marker);
    ReplacedCard(whole, afterWord, marker);
    assert whole[n..] == p[n..] + q;
    ReplacedConcat(p[n..], q, whole[n..], true, marker);
    assert EndsInWord(p[n..], true) == EndsInWord(p, afterWord);
    Associative(marker, Replaced(p[n..], true), Replaced(q, EndsInWord(p, afterWord)));
  }

  lemma {:induction false} CharBeforeCut(p: string, q: string, whole: string, afterWord: bool, marker: string)
    requires p != "" && CutBetweenWords(p, q) && whole == p + q && marker == REDACTED
    requires !CardHere(p, afterWord) && !CardHere(whole, afterWord)
    ensures Replaced(whole, afterWord) == Replaced(p, afterWord) + Replaced(q, EndsInWord(p, afterWord))
    decreases |p|, 0
  {
    ReplacedChar(p, afterWord);
    ReplacedChar(whole, afterWord);
    assert whole[1..] == p[1..] + q;
    ReplacedConcat(p[1..], q, whole[1..], IsWordChar(p[0]), marker);
    assert EndsInWord(p[1..], IsWordChar(p[0])) == EndsInWord(p, afterWord);
    Associative([p[0]], Replaced(p[1..], IsWordChar(p[0])), Replaced(q, EndsInWord(p, afterWord)));
  }

  lemma Associative(a: string, b: string, c: string)
    ensures a + (b + c) == a + b + c
  {
  }

  lemma AfterNonWord(s: string)
    requires s == "" || !IsWordChar(s[0])
    ensures Replaced(s, true) == Replaced(s, false)
  {
  }

  lemma {:induction false} AllOneWord(s: string)
    requires AllDigits(s)
    ensures WordLength(s) == |s|
  {
    if s != "" {
      AllOneWord(s[1..]);
    }
  }

  lemma CardIsReplaced(card: string, marker: string)
    requires MIN_DIGITS <= |card| <= MAX_DIGITS && AllDigits(card) && marker == REDACTED
    ensures Replaced(card, false) == marker
  {
    AllOneWord(card);
    assert card[..|card|] == card && card[|card|..] == "";
    ReplacedCard(card, false, marker);
    assert marker + "" == marker;
  }

  lemma MatchIsCut(s: string, i: nat, j: nat)
    requires Matches(s, i, j)
    ensures i < j <= |s| && AllDigits(s[i..j]) && MIN_DIGITS <= |s[i..j]| <= MAX_DIGITS
    ensures CutBetweenWords(s[..i], s[i..]) && CutBetweenWords(s[i..j], s[j..])
    ensures !EndsInWord(s[..i], false) && EndsInWord(s[i..j], false)
    ensures s[j..] == "" || !IsWordChar(s[j..][0])
  {
    assert IsDigit(s[i]) && IsDigit(s[j - 1]);
    assert WordAt(s, i) && WordAt(s, j - 1);
  }

  lemma CardBetween(before: string, card: string, behind: string, rest: string, s: string, marker: string)
    requires s == before + rest && rest == card + behind && marker == REDACTED
    requires MIN_DIGITS <= |card| <= MAX_DIGITS && AllDigits(card)
    requires CutBetweenWords(before, rest) && CutBetweenWords(card, behind)
    requires !EndsInWord(before, false) && EndsInWord(card, false) && (behind == "" || !IsWordChar(behind[0]))
    ensures Replaced(s, false) == Replaced(before, false) + (marker + Replaced(behind, false))
  {
    ReplacedConcat(before, rest, s, false, marker);
    ReplacedConcat(card, behind, rest, false, marker);
    CardIsReplaced(card, marker);
    AfterNonWord(behind);
  }

  /** The marker takes the place of each match; what stands before and behind it is redacted as if it stood alone. */
  lemma MatchIsReplaced(s: string, i: nat, j: nat, marker: string)
    requires Matches(s, i, j) && marker == REDACTED
    ensures i < j <= |s|
    ensures RedactPii(s) == RedactPii(s[..i]) + (marker + RedactPii(s[j..]))
  {
    MatchIsCut(s, i, j);
    CardBetween(s[..i], s[i..j], s[j..], s[i..], s, marker);
  }

  /** So the text around the only match of a string survives as it is. */
  lemma OtherTextSurvives(s: string, i: nat, j: nat, marker: string)
    requires Matches(s, i, j) && marker == REDACTED && CardFree(s[..i]) && CardFree(s[j..])
    ensures RedactPii(s) == s[..i] + (marker + s[j..])
  {
    MatchIsReplaced(s, i, j, marker);
    RedactionIff(s[..i]);
    RedactionIff(s[j..]);
  }
}
