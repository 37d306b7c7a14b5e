/** The "surah of the day": elapsed days since 2020-01-01 cycle through the
    114 surahs. The clock is a parameter: `elapsedMs` is `today - start`, the
    signed number of milliseconds between now and 2020-01-01T00:00:00Z. */
module Daily {

  const DayMs: int := 1000 * 60 * 60 * 24
  const SurahCount: int := 114

  /** Division truncated toward zero, the quotient that goes with JavaScript's `%`. */
  function JsQuot(a: int, b: int): int
    requires b > 0
  {
    if a >= 0 then a / b else -((-a) / b)
  }

  /** JavaScript's `%`: the remainder of division truncated toward zero, so
      it takes the sign of the dividend. */
  function JsRem(a: int, b: int): (r: int)
    requires b > 0
    ensures a >= 0 ==> 0 <= r < b
    ensures a < 0 ==> -b < r <= 0
    ensures a == JsQuot(a, b) * b + r
  {
    if a >= 0 then a % b else -((-a) % b)
  }

  /** `getDailySurahNumber`: `Math.floor(elapsedMs / DayMs) % 114 + 1`.
      Dafny's `/` on a positive divisor is floor division, as `Math.floor`
      of the quotient is. */
  function DailySurahNumber(elapsedMs: int): (n: int)
    ensures -SurahCount + 2 <= n <= SurahCount
  {
    JsRem(elapsedMs / DayMs, SurahCount) + 1
  }

  /** On or after 2020-01-01 the number always names a surah. */
  lemma DailyInRange(elapsedMs: int)
    requires elapsedMs >= 0
    ensures 1 <= DailySurahNumber(elapsedMs) <= SurahCount
  {
  }

  /** Every instant of day `d >= 0` (counted from 2020-01-01) gives the same
      surah, number `d mod 114 + 1`: from the start date on, the selection
      depends only on the day. */
  lemma DailyDependsOnlyOnDay(elapsedMs: int, d: nat)
    requires d * DayMs <= elapsedMs < (d + 1) * DayMs
    ensures DailySurahNumber(elapsedMs) == d % SurahCount + 1
  {
  }

  /** From 2020-01-01 on, the next day shows the next surah, wrapping from
      114 to 1 (before that date the truncating `%` breaks the cycle). */
  lemma DailyAdvancesEachDay(elapsedMs: int)
    requires elapsedMs >= 0
    ensures var today := DailySurahNumber(elapsedMs);
            DailySurahNumber(elapsedMs + DayMs) == if today == SurahCount then 1 else today + 1
  {
    var d := elapsedMs / DayMs;
    assert (elapsedMs + DayMs) / DayMs == d + 1;
  }

  /** From 2020-01-01 on, the selection repeats every 114 days; a period
      that straddles the start date does not repeat (see `DailyAcrossStart`). */
  lemma DailyPeriodic(elapsedMs: int)
    requires elapsedMs >= 0
    ensures DailySurahNumber(elapsedMs + SurahCount * DayMs) == DailySurahNumber(elapsedMs)
  {
    var d := elapsedMs / DayMs;
    assert (elapsedMs + SurahCount * DayMs) / DayMs == d + SurahCount;
  }

  /** Before 2020-01-01 the truncating `%` yields numbers in [-112, 1]: the
      number is 1 exactly on the days a multiple of 114 days before the start
      (where `%` gives -0), and names no surah on every other day. */
  lemma DailyBeforeStart(elapsedMs: int)
    requires elapsedMs < 0
    ensures -SurahCount + 2 <= DailySurahNumber(elapsedMs) <= 1
    ensures DailySurahNumber(elapsedMs) == 1 <==> (elapsedMs / DayMs) % SurahCount == 0
  {
    var d := elapsedMs / DayMs;
    assert d < 0;
    assert (-d) % SurahCount == 0 <==> d % SurahCount == 0 by {
      assert d == -(-d);
      var q := (-d) / SurahCount;
      if (-d) % SurahCount == 0 {
        assert d == (-q) * SurahCount;
      }
      if d % SurahCount == 0 {
        assert -d == (-(d / SurahCount)) * SurahCount;
      }
    }
  }

  /** One millisecond before the start date gives 0, 113 days before gives
      -112, and 114 days before (2019-09-09) gives 1 again. */
  lemma DailyBeforeStartExamples()
    ensures DailySurahNumber(-1) == 0
    ensures DailySurahNumber(-113 * DayMs) == -112
    ensures DailySurahNumber(-114 * DayMs) == 1
  {
  }

  /** Across the start date the cycle breaks: the day before 2020-01-01
      gives 0 but 114 days later gives 114, and 114 days before the start
      gives 1 while the next day gives -112 instead of 2. */
  lemma DailyAcrossStart()
    ensures DailySurahNumber(-DayMs) == 0
    ensures DailySurahNumber(-DayMs + SurahCount * DayMs) == SurahCount
    ensures DailySurahNumber(-114 * DayMs + DayMs) == -112
  {
  }
}
