/**
 * Wall-clock times in a time zone (src/utils/dateUtils.ts). A zone is its offset function: `off(t)`
 * is the number of milliseconds to add to the UTC instant `t`. All instants are in milliseconds.
 */
module ZonedTime {
  import opened Sequences
  import opened Calendar

  const SECOND := 1000
  const DAY := 86400000

  type Zone = int -> int

  datatype ZonedDateParts = ZonedDateParts(date: CalendarParts, hour: int, minute: int, second: int)

  /** Wall-clock milliseconds shown for an instant; formatting drops the part below one second. */
  function Wall(off: Zone, t: int): int { (t + off(t)) / SECOND * SECOND }

  function PartsOf(wall: int): ZonedDateParts {
    var secondOfDay := wall % DAY / SECOND;
    ZonedDateParts(FromDay(wall / DAY), secondOfDay / 3600, secondOfDay / 60 % 60, secondOfDay % 60)
  }

  function GetZonedParts(off: Zone, t: int): ZonedDateParts { PartsOf(Wall(off, t)) }

  /** Date.UTC: MakeDate over MakeDay and MakeTime. */
  function DateUtc(p: ZonedDateParts): int {
    UtcDay(p.date) * DAY + TimeMs(p)
  }

  function UtcDay(date: CalendarParts): int { MakeDay(FullYear(date.year), date.month - 1, date.day) }

  function TimeMs(p: ZonedDateParts): int { (p.hour * 3600 + p.minute * 60 + p.second) * SECOND }

  /** What a formatted and recombined instant amounts to. */
  function ShownIn(off: Zone): int -> int {
    (t: int) => DateUtc(GetZonedParts(off, t))
  }

  // ----- zonedDateTimeToUtc -----

  const ATTEMPTS: nat := 3

  /** The guess after some corrections, each by the difference between the wanted and the shown time. */
  function Corrected(shown: int -> int, desired: int, attempts: nat): int {
    if attempts == 0 then desired
    else
      var guess := Corrected(shown, desired, attempts - 1);
      guess + (desired - shown(guess))
  }

  function ZonedToUtc(off: Zone, wanted: ZonedDateParts): int {
    Corrected(ShownIn(off), DateUtc(wanted), ATTEMPTS)
  }

  /** The loop: three corrections of the guess. */
  method CorrectGuess(shown: int -> int, desired: int) returns (guessMs: int)
    ensures guessMs == Corrected(shown, desired, ATTEMPTS)
  {
    guessMs := desired;
    var attempt := 0;
    while attempt < ATTEMPTS
      invariant 0 <= attempt <= ATTEMPTS
      invariant guessMs == Corrected(shown, desired, attempt)
    {
      guessMs := guessMs + (desired - shown(guessMs));
      attempt := attempt + 1;
    }
  }

  method ZonedDateTimeToUtc(off: Zone, wanted: ZonedDateParts) returns (guessMs: int)
    ensures guessMs == ZonedToUtc(off, wanted)
  {
    guessMs := CorrectGuess(ShownIn(off), DateUtc(wanted));
  }

  // ----- parts and milliseconds -----

  /** Day number of 1 January of year 100: from here on Date.UTC takes the year as it stands. */
  const MODERN_DAY := -683003

  ghost predicate Modern(wall: int) { wall >= MODERN_DAY * DAY }

  lemma ModernYear(n: int)
    requires n >= MODERN_DAY
    ensures FromDay(n).year >= 100
  {
    YearFormulaIsExact(100);
    var r := YearFromDay(n);
    if r < 100 {
      YearsAreOrdered(r, 100);
    }
  }

  lemma TimeOfDay(s: int)
    requires 0 <= s < 86400
    ensures s / 3600 * 3600 + s / 60 % 60 * 60 + s % 60 == s
  {
    assert s / 3600 == s / 60 / 60;
    assert s / 60 == s / 60 / 60 * 60 + s / 60 % 60;
    assert s == s / 60 * 60 + s % 60;
  }

  /** Hours, minutes and seconds are in their ranges, so the time of day determines them. */
  lemma PartsInRange(wall: int)
    ensures var p := PartsOf(wall);
      && p.date == FromDay(wall / DAY)
      && 0 <= p.hour < 24 && 0 <= p.minute < 60 && 0 <= p.second < 60
      && p.hour * 3600 + p.minute * 60 + p.second == wall % DAY / 1000
  {
    TimeOfDay(wall % DAY / SECOND);
  }

  lemma TimeOfWall(wall: int)
    requires wall % SECOND == 0
    ensures TimeMs(PartsOf(wall)) == wall % DAY
  {
    assert wall % DAY % SECOND == 0;
    TimeOfDay(wall % DAY / SECOND);
  }

  lemma DayOfModernDate(n: int)
    requires n >= MODERN_DAY
    ensures UtcDay(FromDay(n)) == n
  {
    ModernYear(n);
    DayRoundTrip(n);
    MakeDayInCalendar(FromDay(n), 0);
  }

  lemma ModernDay(wall: int)
    requires Modern(wall)
    ensures wall / DAY >= MODERN_DAY
  {
  }

  /** Reading whole-second wall time as parts and putting the parts together again is the identity. */
  lemma PartsRoundTrip(wall: int)
    requires wall % SECOND == 0 && Modern(wall)
    ensures DateUtc(PartsOf(wall)) == wall
  {
    TimeOfWall(wall);
    ModernDay(wall);
    DayOfModernDate(wall / DAY);
  }

  lemma WallIsWhole(off: Zone, t: int)
    ensures Wall(off, t) % SECOND == 0
    ensures Wall(off, t) <= t + off(t) < Wall(off, t) + SECOND
    ensures t % SECOND == 0 && off(t) % SECOND == 0 ==> Wall(off, t) == t + off(t)
  {
  }

  // ----- the iteration in plain numbers -----

  function Guess(off: Zone, desired: int, attempts: nat): int {
    if attempts == 0 then desired else desired - off(Guess(off, desired, attempts - 1))
  }

  /** On the window the zone is modern and its offsets are whole seconds. */
  ghost predicate Ordinary(off: Zone, lo: int, hi: int) {
    forall t :: lo <= t < hi ==> off(t) % SECOND == 0 && Modern(Wall(off, t))
  }

  /** On the window whole-second instants are shown at their offset. */
  ghost predicate Faithful(shown: int -> int, off: Zone, lo: int, hi: int) {
    forall t :: lo <= t < hi && t % SECOND == 0 ==> off(t) % SECOND == 0 && shown(t) == t + off(t)
  }

  lemma ZonesAreFaithful(off: Zone, lo: int, hi: int)
    requires Ordinary(off, lo, hi)
    ensures Faithful(ShownIn(off), off, lo, hi)
  {
    forall t | lo <= t < hi && t % SECOND == 0
      ensures off(t) % SECOND == 0 && ShownIn(off)(t) == t + off(t)
    {
      assert off(t) % SECOND == 0 && Modern(Wall(off, t));
      WallIsWhole(off, t);
      PartsRoundTrip(Wall(off, t));
    }
  }

  lemma {:induction false} CorrectedIsGuess(
    shown: int -> int, off: Zone, desired: int, attempts: nat, lo: int, hi: int)
    requires Faithful(shown, off, lo, hi) && desired % SECOND == 0
    requires forall k: nat :: k < attempts ==> lo <= Guess(off, desired, k) < hi
    ensures Corrected(shown, desired, attempts) == Guess(off, desired, attempts)
    ensures Guess(off, desired, attempts) % SECOND == 0
  {
    if attempts > 0 {
      CorrectedIsGuess(shown, off, desired, attempts - 1, lo, hi);
      var guess := Guess(off, desired, attempts - 1);
      assert off(guess) % SECOND == 0 && shown(guess) == guess + off(guess);
    }
  }

  // ----- one transition -----

  /** On [lo, hi) the zone has offset `a` before the instant `tr` and `b` from then on. */
  ghost predicate OneTransition(off: Zone, tr: int, a: int, b: int, lo: int, hi: int) {
    && tr % SECOND == 0 && a % SECOND == 0 && b % SECOND == 0
    && forall t :: lo <= t < hi ==> off(t) == if t < tr then a else b
  }

  /** The window contains every instant the iteration can look at. */
  ghost predicate Covers(lo: int, hi: int, desired: int, a: int, b: int) {
    lo <= desired < hi && lo <= desired - a < hi && lo <= desired - b < hi
  }

  /** The wanted wall-clock time is shown at some instant of the window. */
  ghost predicate WallTimeExists(off: Zone, desired: int, lo: int, hi: int) {
    exists t :: lo <= t < hi && Wall(off, t) == desired
  }

  lemma ExistingWallTime(off: Zone, desired: int, tr: int, a: int, b: int, lo: int, hi: int)
    requires OneTransition(off, tr, a, b, lo, hi) && Covers(lo, hi, desired, a, b) && desired % SECOND == 0
    ensures WallTimeExists(off, desired, lo, hi) <==> desired - a < tr || desired - b >= tr
  {
    if desired - a < tr {
      WallIsWhole(off, desired - a);
    }
    if desired - b >= tr {
      WallIsWhole(off, desired - b);
    }
    forall t | lo <= t < hi && Wall(off, t) == desired ensures desired - a < tr || desired - b >= tr {
      WallIsWhole(off, t);
      if t >= tr {
        WholeBelow(t, tr, desired - b);
      }
    }
  }

  lemma WholeBelow(t: int, tr: int, w: int)
    requires tr % SECOND == 0 && w % SECOND == 0 && w <= t < w + SECOND
    ensures t >= tr ==> w >= tr
  {
  }

  function ThirdGuess(off: Zone, desired: int): int {
    desired - off(desired - off(desired - off(desired)))
  }

  /** The three guesses stay in the window, so the iteration is the plain one. */
  lemma ThreeCorrections(
    shown: int -> int, off: Zone, desired: int, tr: int, a: int, b: int, lo: int, hi: int)
    requires OneTransition(off, tr, a, b, lo, hi) && Covers(lo, hi, desired, a, b)
    requires Faithful(shown, off, lo, hi) && desired % SECOND == 0
    ensures Corrected(shown, desired, ATTEMPTS) == ThirdGuess(off, desired)
  {
    var g0, g1, g2 := Guess(off, desired, 0), Guess(off, desired, 1), Guess(off, desired, 2);
    assert lo <= g0 < hi && (g1 == desired - a || g1 == desired - b);
    assert g2 == desired - a || g2 == desired - b;
    forall k: nat | k < ATTEMPTS ensures lo <= Guess(off, desired, k) < hi {
      assert k == 0 || k == 1 || k == 2;
    }
    CorrectedIsGuess(shown, off, desired, ATTEMPTS, lo, hi);
  }

  /** In plain numbers: the third guess is consistent if and only if some instant of the window is. */
  lemma ThirdGuessIsConsistent(off: Zone, desired: int, tr: int, a: int, b: int, lo: int, hi: int)
    requires OneTransition(off, tr, a, b, lo, hi) && Covers(lo, hi, desired, a, b) && desired % SECOND == 0
    ensures var r := ThirdGuess(off, desired);
      && lo <= r < hi && r % SECOND == 0 && off(r) % SECOND == 0
      && (r + off(r) == desired <==> desired - a < tr || desired - b >= tr)
      && (r + off(r) != desired ==> r + off(r) == desired + (b - a) || r + off(r) == desired - (b - a))
  {
  }

  /**
   * The result shows exactly the wanted wall-clock time if and only if that time exists, whichever way
   * the transition goes. In a gap the result is off by the size of the gap.
   */
  lemma ReachesWantedTime(off: Zone, wanted: ZonedDateParts, tr: int, a: int, b: int, lo: int, hi: int)
    requires OneTransition(off, tr, a, b, lo, hi) && Covers(lo, hi, DateUtc(wanted), a, b)
    requires Ordinary(off, lo, hi)
    ensures var r := ZonedToUtc(off, wanted); var desired := DateUtc(wanted);
      && lo <= r < hi
      && (Wall(off, r) == desired <==> WallTimeExists(off, desired, lo, hi))
      && (Wall(off, r) != desired ==> Wall(off, r) == desired + (b - a) || Wall(off, r) == desired - (b - a))
  {
    WholeSeconds(wanted);
    ZonesAreFaithful(off, lo, hi);
    ThreeCorrections(ShownIn(off), off, DateUtc(wanted), tr, a, b, lo, hi);
    ExistingWallTime(off, DateUtc(wanted), tr, a, b, lo, hi);
    ThirdGuessIsConsistent(off, DateUtc(wanted), tr, a, b, lo, hi);
    WallIsWhole(off, ThirdGuess(off, DateUtc(wanted)));
  }

  lemma WholeSeconds(p: ZonedDateParts)
    ensures DateUtc(p) % SECOND == 0
  {
    WholeSum(UtcDay(p.date), p.hour * 3600 + p.minute * 60 + p.second);
  }

  lemma WholeSum(n: int, s: int)
    ensures (n * DAY + s * SECOND) % SECOND == 0
  {
    assert n * DAY + s * SECOND == (n * 86400 + s) * SECOND;
  }

  // ----- midnights -----

  function Midnight(date: CalendarParts): ZonedDateParts { ZonedDateParts(date, 0, 0, 0) }

  function GetStartOfZonedDay(off: Zone, t: int): int {
    ZonedToUtc(off, Midnight(GetZonedParts(off, t).date))
  }

  /** None where the calendar shift leaves the range of Date. */
  function GetNextDailyMidnight(off: Zone, from: int): Option<int> {
    match AddCalendarDays(GetZonedParts(off, from).date, 1)
    case Some(tomorrow) => Some(ZonedToUtc(off, Midnight(tomorrow)))
    case None => None
  }

  function GetInitialDailyMidnight(off: Zone, from: int): Option<int> {
    var todayMidnight := GetStartOfZonedDay(off, from);
    if todayMidnight > from then Some(todayMidnight) else GetNextDailyMidnight(off, from)
  }

  /** Wall-clock milliseconds of the midnight that starts, or ends, the zoned day of an instant. */
  function TodayWall(off: Zone, t: int): int { Wall(off, t) / DAY * DAY }
  function TomorrowWall(off: Zone, t: int): int { (Wall(off, t) / DAY + 1) * DAY }

  lemma MidnightOfDay(n: int)
    requires n >= MODERN_DAY
    ensures DateUtc(Midnight(FromDay(n))) == n * DAY
  {
    DayOfModernDate(n);
  }

  lemma Tomorrow(n: int)
    requires n >= MODERN_DAY
    ensures AddCalendarDays(FromDay(n), 1) == if -MAX_DAY <= n + 1 <= MAX_DAY then Some(FromDay(n + 1)) else None
  {
    ModernYear(n);
    DayRoundTrip(n);
    ShiftIsDayAddition(FromDay(n), 1);
  }

  /** The two midnights the helpers ask for. */
  lemma TodayWanted(off: Zone, from: int)
    requires Modern(Wall(off, from))
    ensures GetStartOfZonedDay(off, from) == ZonedToUtc(off, Midnight(FromDay(Wall(off, from) / DAY)))
    ensures DateUtc(Midnight(FromDay(Wall(off, from) / DAY))) == TodayWall(off, from)
  {
    ModernDay(Wall(off, from));
    MidnightOfDay(Wall(off, from) / DAY);
  }

  lemma TomorrowWanted(off: Zone, from: int)
    requires Modern(Wall(off, from)) && GetNextDailyMidnight(off, from).Some?
    ensures GetNextDailyMidnight(off, from).value == ZonedToUtc(off, Midnight(FromDay(Wall(off, from) / DAY + 1)))
    ensures DateUtc(Midnight(FromDay(Wall(off, from) / DAY + 1))) == TomorrowWall(off, from)
  {
    ModernDay(Wall(off, from));
    Tomorrow(Wall(off, from) / DAY);
    MidnightOfDay(Wall(off, from) / DAY + 1);
  }

  lemma DayBounds(off: Zone, from: int)
    ensures TodayWall(off, from) <= Wall(off, from) < TomorrowWall(off, from)
    ensures TomorrowWall(off, from) == TodayWall(off, from) + DAY
    ensures from + off(from) < TomorrowWall(off, from)
  {
    WallIsWhole(off, from);
    WholeSum(Wall(off, from) / DAY + 1, 0);
    WholeBelow(from + off(from), TomorrowWall(off, from), Wall(off, from));
  }

  /** The zone keeps one offset on the window, and the window covers what the helpers look at. */
  ghost predicate ConstantAround(off: Zone, c: int, from: int, lo: int, hi: int) {
    && OneTransition(off, 0, c, c, lo, hi) && Ordinary(off, lo, hi)
    && lo <= from < hi
    && Covers(lo, hi, TodayWall(off, from), c, c) && Covers(lo, hi, TomorrowWall(off, from), c, c)
  }

  lemma ConstantOffset(off: Zone, c: int, wanted: ZonedDateParts, desired: int, lo: int, hi: int)
    requires OneTransition(off, 0, c, c, lo, hi) && Ordinary(off, lo, hi)
    requires desired == DateUtc(wanted) && Covers(lo, hi, desired, c, c)
    ensures ZonedToUtc(off, wanted) == desired - c
  {
    WholeSeconds(wanted);
    ZonesAreFaithful(off, lo, hi);
    ConstantCorrections(ShownIn(off), off, c, desired, lo, hi);
  }

  lemma ConstantCorrections(shown: int -> int, off: Zone, c: int, desired: int, lo: int, hi: int)
    requires OneTransition(off, 0, c, c, lo, hi) && Faithful(shown, off, lo, hi)
    requires Covers(lo, hi, desired, c, c) && desired % SECOND == 0
    ensures Corrected(shown, desired, ATTEMPTS) == desired - c
  {
    ThreeCorrections(shown, off, desired, 0, c, c, lo, hi);
  }

  lemma ConstantMidnight(off: Zone, c: int, n: int, lo: int, hi: int)
    requires OneTransition(off, 0, c, c, lo, hi) && Ordinary(off, lo, hi)
    requires n >= MODERN_DAY && Covers(lo, hi, n * DAY, c, c)
    ensures ZonedToUtc(off, Midnight(FromDay(n))) == n * DAY - c
  {
    MidnightOfDay(n);
    ConstantOffset(off, c, Midnight(FromDay(n)), n * DAY, lo, hi);
  }

  lemma NextMidnightIs(off: Zone, c: int, from: int, n: int, lo: int, hi: int)
    requires ConstantAround(off, c, from, lo, hi) && GetNextDailyMidnight(off, from).Some?
    requires n == Wall(off, from) / DAY
    ensures GetNextDailyMidnight(off, from).value == (n + 1) * DAY - c
  {
    assert off(from) == c && Modern(Wall(off, from));
    ModernDay(Wall(off, from));
    TomorrowWanted(off, from);
    ConstantMidnight(off, c, n + 1, lo, hi);
  }

  lemma TodaysMidnightIs(off: Zone, c: int, from: int, lo: int, hi: int)
    requires ConstantAround(off, c, from, lo, hi)
    ensures GetStartOfZonedDay(off, from) == TodayWall(off, from) - c
  {
    assert off(from) == c && Modern(Wall(off, from));
    ModernDay(Wall(off, from));
    ConstantMidnight(off, c, Wall(off, from) / DAY, lo, hi);
    TodayWanted(off, from);
  }

  /**
   * With a constant offset the next daily midnight is strictly later and at most one day later, and the
   * initial daily midnight is the same instant.
   */
  lemma NextMidnight(off: Zone, c: int, from: int, lo: int, hi: int)
    requires ConstantAround(off, c, from, lo, hi) && GetNextDailyMidnight(off, from).Some?
    ensures from < GetNextDailyMidnight(off, from).value <= from + DAY
    ensures GetInitialDailyMidnight(off, from) == GetNextDailyMidnight(off, from)
  {
    NextMidnightIs(off, c, from, Wall(off, from) / DAY, lo, hi);
    TodaysMidnightIs(off, c, from, lo, hi);
    DayBounds(off, from);
    assert off(from) == c;
    WallIsWhole(off, from);
  }

  /** It shows 00:00:00 on the calendar day after the one shown at `from`. */
  lemma NextMidnightShows(off: Zone, c: int, from: int, r: int, lo: int, hi: int)
    requires ConstantAround(off, c, from, lo, hi) && GetNextDailyMidnight(off, from) == Some(r)
    ensures GetZonedParts(off, r) == Midnight(FromDay(Wall(off, from) / DAY + 1))
  {
    var n := Wall(off, from) / DAY;
    assert r + off(r) == (n + 1) * DAY by {
      NextMidnightIs(off, c, from, n, lo, hi);
      InWindow(off, c, from, n, lo, hi);
    }
    ShowsMidnight(off, r, n + 1);
  }

  lemma InWindow(off: Zone, c: int, from: int, n: int, lo: int, hi: int)
    requires ConstantAround(off, c, from, lo, hi) && n == Wall(off, from) / DAY
    ensures off((n + 1) * DAY - c) == c
  {
    assert lo <= TomorrowWall(off, from) - c < hi;
  }

  lemma ShowsMidnight(off: Zone, r: int, n: int)
    requires r + off(r) == n * DAY
    ensures GetZonedParts(off, r) == Midnight(FromDay(n))
  {
    WholeWall(off, r, n);
    PartsOfMidnight(n);
  }

  lemma WholeWall(off: Zone, r: int, n: int)
    requires r + off(r) == n * DAY
    ensures Wall(off, r) == n * DAY
  {
    var m := n * 86400;
    assert n * DAY == m * SECOND && m * SECOND / SECOND == m;
  }

  lemma WholeDays(n: int)
    ensures n * DAY / DAY == n && n * DAY % DAY == 0
  {
  }

  /** The parts shown at a midnight of day number `n` are that day's date and zero time. */
  lemma PartsOfMidnight(n: int)
    ensures PartsOf(n * DAY) == Midnight(FromDay(n))
  {
    WholeDays(n);
    assert n * DAY % DAY / SECOND == 0;
  }

  // ----- midnights across a transition -----

  /**
   * The clock has been set back past the coming midnight `wall`: `from` lies after the transition, while the
   * midnight, read as UTC and read with the old offset, lies before it.
   */
  predicate SetBackPast(wall: int, from: int, tr: int, a: int) {
    from >= tr && wall < tr && wall - a < tr
  }

  /**
   * The clock is about to be set forward over the midnight `wall`, and `from` is no earlier than that
   * midnight read with the new offset, which is where the iteration ends.
   */
  predicate SkippedAhead(wall: int, from: int, tr: int, a: int, b: int) {
    wall >= tr && wall - b < tr <= wall - a && from >= wall - b
  }

  /**
   * Across one transition, either way, whether or not the midnight exists: the result shows the next
   * midnight if and only if there is one, and it is strictly after the given instant unless the clock has
   * been set back past that midnight or is about to skip it.
   */
  lemma NextMidnightAcrossTransition(off: Zone, from: int, tr: int, a: int, b: int, lo: int, hi: int)
    requires OneTransition(off, tr, a, b, lo, hi) && Ordinary(off, lo, hi) && lo <= from < hi
    requires Covers(lo, hi, TomorrowWall(off, from), a, b)
    requires GetNextDailyMidnight(off, from).Some?
    ensures Wall(off, GetNextDailyMidnight(off, from).value) == TomorrowWall(off, from) <==>
      WallTimeExists(off, TomorrowWall(off, from), lo, hi)
    ensures GetNextDailyMidnight(off, from).value > from <==>
      !SetBackPast(TomorrowWall(off, from), from, tr, a) && !SkippedAhead(TomorrowWall(off, from), from, tr, a, b)
  {
    assert off(from) == off(from) && Modern(Wall(off, from));
    var midnight := Midnight(FromDay(Wall(off, from) / DAY + 1));
    TomorrowWanted(off, from);
    DayBounds(off, from);
    ReachesWantedTime(off, midnight, tr, a, b, lo, hi);
    StrictlyAfter(off, midnight, from, tr, a, b, lo, hi);
  }

  lemma StrictlyAfter(off: Zone, wanted: ZonedDateParts, from: int, tr: int, a: int, b: int, lo: int, hi: int)
    requires OneTransition(off, tr, a, b, lo, hi) && Covers(lo, hi, DateUtc(wanted), a, b)
    requires Ordinary(off, lo, hi)
    requires lo <= from < hi && from + off(from) < DateUtc(wanted)
    ensures ZonedToUtc(off, wanted) > from <==>
      !SetBackPast(DateUtc(wanted), from, tr, a) && !SkippedAhead(DateUtc(wanted), from, tr, a, b)
  {
    WholeSeconds(wanted);
    ZonesAreFaithful(off, lo, hi);
    ThreeCorrections(ShownIn(off), off, DateUtc(wanted), tr, a, b, lo, hi);
    LaterThanTransition(off, DateUtc(wanted), from, tr, a, b, lo, hi);
  }

  lemma LaterThanTransition(off: Zone, desired: int, from: int, tr: int, a: int, b: int, lo: int, hi: int)
    requires OneTransition(off, tr, a, b, lo, hi) && Covers(lo, hi, desired, a, b)
    requires lo <= from < hi && from + off(from) < desired
    ensures ThirdGuess(off, desired) > from <==>
      !SetBackPast(desired, from, tr, a) && !SkippedAhead(desired, from, tr, a, b)
  {
  }

  /**
   * The midnight `wall` that started the day shown at `from` is shown, or would be, after `from`: it comes
   * twice and `from` is still before the second time, or the clock has just skipped it and `from` is earlier
   * than the midnight read with the old offset.
   */
  predicate TodayAhead(wall: int, from: int, tr: int, a: int, b: int) {
    || (from < tr && wall >= tr && wall - a < tr <= wall - b)
    || (from >= tr && wall < tr && wall - b < tr <= wall - a && from < wall - a)
  }

  lemma TodayAheadIff(off: Zone, desired: int, from: int, tr: int, a: int, b: int, lo: int, hi: int)
    requires OneTransition(off, tr, a, b, lo, hi) && Covers(lo, hi, desired, a, b)
    requires lo <= from < hi && from + off(from) >= desired
    ensures ThirdGuess(off, desired) > from <==> TodayAhead(desired, from, tr, a, b)
  {
  }

  lemma TodayStrictlyAfter(off: Zone, wanted: ZonedDateParts, from: int, tr: int, a: int, b: int, lo: int, hi: int)
    requires OneTransition(off, tr, a, b, lo, hi) && Covers(lo, hi, DateUtc(wanted), a, b)
    requires Ordinary(off, lo, hi)
    requires lo <= from < hi && from + off(from) >= DateUtc(wanted)
    ensures ZonedToUtc(off, wanted) > from <==> TodayAhead(DateUtc(wanted), from, tr, a, b)
  {
    WholeSeconds(wanted);
    ZonesAreFaithful(off, lo, hi);
    ThreeCorrections(ShownIn(off), off, DateUtc(wanted), tr, a, b, lo, hi);
    TodayAheadIff(off, DateUtc(wanted), from, tr, a, b, lo, hi);
  }

  /** Across one transition: exactly when the midnight that starts today counts as still to come. */
  lemma TodaysMidnightAcrossTransition(off: Zone, from: int, tr: int, a: int, b: int, lo: int, hi: int)
    requires OneTransition(off, tr, a, b, lo, hi) && Ordinary(off, lo, hi) && lo <= from < hi
    requires Covers(lo, hi, TodayWall(off, from), a, b)
    ensures GetStartOfZonedDay(off, from) > from <==> TodayAhead(TodayWall(off, from), from, tr, a, b)
    ensures Wall(off, GetStartOfZonedDay(off, from)) == TodayWall(off, from) <==>
      WallTimeExists(off, TodayWall(off, from), lo, hi)
  {
    assert off(from) == off(from) && Modern(Wall(off, from));
    TodayWanted(off, from);
    DayBounds(off, from);
    WallIsWhole(off, from);
    TodayStrictlyAfter(off, Midnight(FromDay(Wall(off, from) / DAY)), from, tr, a, b, lo, hi);
    ReachesWantedTime(off, Midnight(FromDay(Wall(off, from) / DAY)), tr, a, b, lo, hi);
  }

  /**
   * Across one transition the initial daily midnight is strictly after the given instant unless both
   * midnights fail: today's is not ahead, and the next one has been passed or skipped.
   */
  lemma InitialMidnightAcrossTransition(off: Zone, from: int, tr: int, a: int, b: int, lo: int, hi: int)
    requires OneTransition(off, tr, a, b, lo, hi) && Ordinary(off, lo, hi) && lo <= from < hi
    requires Covers(lo, hi, TodayWall(off, from), a, b) && Covers(lo, hi, TomorrowWall(off, from), a, b)
    requires GetNextDailyMidnight(off, from).Some?
    ensures GetInitialDailyMidnight(off, from) ==
      if TodayAhead(TodayWall(off, from), from, tr, a, b) then Some(GetStartOfZonedDay(off, from))
      else GetNextDailyMidnight(off, from)
    ensures GetInitialDailyMidnight(off, from).value > from <==>
      || TodayAhead(TodayWall(off, from), from, tr, a, b)
      || (!SetBackPast(TomorrowWall(off, from), from, tr, a) && !SkippedAhead(TomorrowWall(off, from), from, tr, a, b))
  {
    TodaysMidnightAcrossTransition(off, from, tr, a, b, lo, hi);
    NextMidnightAcrossTransition(off, from, tr, a, b, lo, hi);
  }

  /** A zone with one transition, from offset `a` to offset `b` at the instant `tr`. */
  function ShiftingAt(tr: int, a: int, b: int): Zone {
    (t: int) => if t < tr then a else b
  }

  lemma ShiftingIsOrdinary(tr: int, a: int, b: int, lo: int, hi: int)
    requires tr % SECOND == 0 && a % SECOND == 0 && b % SECOND == 0 && -DAY <= a <= DAY && -DAY <= b <= DAY
    requires lo >= MODERN_DAY * DAY + 2 * DAY
    ensures OneTransition(ShiftingAt(tr, a, b), tr, a, b, lo, hi) && Ordinary(ShiftingAt(tr, a, b), lo, hi)
  {
    var off := ShiftingAt(tr, a, b);
    forall t | lo <= t < hi ensures off(t) % SECOND == 0 && Modern(Wall(off, t)) {
      WallIsWhole(off, t);
    }
  }

  lemma DayShownAt(off: Zone, from: int, n: int, ahead: int)
    requires from + off(from) == n * DAY - ahead && 0 < ahead <= DAY && ahead % SECOND == 0
    ensures Wall(off, from) / DAY == n - 1
  {
    WholeSum(n, -(ahead / SECOND));
    WallIsWhole(off, from);
  }

  lemma NextExists(off: Zone, from: int, n: int)
    requires Wall(off, from) / DAY == n - 1 && MODERN_DAY < n <= MAX_DAY
    ensures GetNextDailyMidnight(off, from).Some? && TomorrowWall(off, from) == n * DAY
  {
    Tomorrow(n - 1);
  }

  predicate NextIsPast(off: Zone, from: int) {
    var next := GetNextDailyMidnight(off, from);
    next.Some? && next.value <= from
  }

  predicate InitialIsPast(off: Zone, from: int) {
    var initial := GetInitialDailyMidnight(off, from);
    initial.Some? && initial.value <= from
  }

  /** What both families of failing cases have in common: a transition within a day of midnight `n`. */
  lemma NextIsPastIn(tr: int, a: int, b: int, from: int, n: int, ahead: int)
    requires tr % SECOND == 0 && a % SECOND == 0 && b % SECOND == 0 && -DAY <= a <= DAY && -DAY <= b <= DAY
    requires MODERN_DAY + 6 <= n <= MAX_DAY && n * DAY - DAY <= from <= n * DAY + DAY
    requires from + ShiftingAt(tr, a, b)(from) == n * DAY - ahead && 0 < ahead <= DAY && ahead % SECOND == 0
    ensures NextIsPast(ShiftingAt(tr, a, b), from) <==>
      SetBackPast(n * DAY, from, tr, a) || SkippedAhead(n * DAY, from, tr, a, b)
    ensures InitialIsPast(ShiftingAt(tr, a, b), from) <==>
      NextIsPast(ShiftingAt(tr, a, b), from) && !TodayAhead((n - 1) * DAY, from, tr, a, b)
  {
    var off, lo, hi := ShiftingAt(tr, a, b), n * DAY - 3 * DAY, n * DAY + 3 * DAY;
    ShiftingIsOrdinary(tr, a, b, lo, hi);
    DayShownAt(off, from, n, ahead);
    NextExists(off, from, n);
    NextMidnightAcrossTransition(off, from, tr, a, b, lo, hi);
    InitialMidnightAcrossTransition(off, from, tr, a, b, lo, hi);
  }

  /**
   * A zone three hours behind UTC and set back one hour at half past midnight of day `n` shows a quarter
   * to midnight a quarter of an hour later, and the "next" and the "initial" midnight are then the one already
   * passed.
   */
  lemma NextMidnightMayBePast(n: int)
    requires MODERN_DAY + 6 <= n <= MAX_DAY
    ensures var tr := n * DAY + 12600000; var off := ShiftingAt(tr, -10800000, -14400000);
      NextIsPast(off, tr + 900000) && InitialIsPast(off, tr + 900000)
  {
    var tr := n * DAY + 12600000;
    WholeSum(n, 12600);
    NextIsPastIn(tr, -10800000, -14400000, tr + 900000, n, 900000);
  }

  /**
   * A zone two hours ahead of UTC and set forward one hour at the midnight that starts day `n` has no such
   * midnight; at half past eleven the evening before, the "next" and the "initial" midnight are eleven o'clock.
   */
  lemma SkippedMidnightIsPast(n: int)
    requires MODERN_DAY + 6 <= n <= MAX_DAY
    ensures var tr := n * DAY - 7200000; var off := ShiftingAt(tr, 7200000, 10800000);
      NextIsPast(off, tr - 1800000) && InitialIsPast(off, tr - 1800000)
  {
    var tr := n * DAY - 7200000;
    WholeSum(n, -7200);
    NextIsPastIn(tr, 7200000, 10800000, tr - 1800000, n, 1800000);
  }
}
