/** The month-progress card (src/components/app/progress-card.tsx): the day of
    the month, clamped to a 30-day window, becomes a day count, a percentage
    for the progress bar and a rounded percentage for the caption. */
module ProgressCard {

  /** The length of the window, in days. */
  const TOTAL_DAYS: int := 30

  /** What `Date.prototype.getDate()` returns. */
  type DayOfMonth = d: int | 1 <= d <= 31 witness 1

  /** The card's two pieces of state. */
  datatype CardState = CardState(days: int, progress: real)

  /** The state before the effect has run: both zero. */
  const INITIAL: CardState := CardState(0, 0.0)

  /** `Math.min(today, totalDays)`. */
  function ElapsedDays(today: DayOfMonth): (days: int)
    ensures 1 <= days <= TOTAL_DAYS
    ensures days <= today && (days == today || days == TOTAL_DAYS)
  {
    if today <= TOTAL_DAYS then today else TOTAL_DAYS
  }

  /** `(calculatedDays / totalDays) * 100`, exactly: ten thirds of the
      day count. */
  function Percent(days: int): (p: real)
    ensures p == (10 * days) as real / 3.0
  {
    (days as real / TOTAL_DAYS as real) * 100.0
  }

  /** The state after the effect has run on day `today`. */
  function AfterEffect(today: DayOfMonth): (s: CardState)
    ensures s.days == ElapsedDays(today)
    ensures 3.0 * s.progress == (10 * s.days) as real
  {
    var days := ElapsedDays(today);
    CardState(days, Percent(days))
  }

  /** `Math.round`: the integer nearest `x`, halves rounded up. */
  function Round(x: real): (r: int)
    ensures r as real <= x + 0.5 < r as real + 1.0
  {
    (x + 0.5).Floor
  }

  /** The number in the caption "You are N% through the month". */
  function DisplayedPercent(s: CardState): (n: int)
    ensures s.progress - 0.5 < n as real <= s.progress + 0.5
  {
    Round(s.progress)
  }

  /** Before the effect the card shows 0 days and 0%. */
  lemma InitialShowsZero()
    ensures INITIAL.days == 0 && INITIAL.progress == 0.0 && DisplayedPercent(INITIAL) == 0
  {
  }

  /** The progress bar is strictly positive, at most 100, and full exactly
      from day 30 on (days 30 and 31 look the same). */
  lemma ProgressBounds(today: DayOfMonth)
    ensures 0.0 < AfterEffect(today).progress <= 100.0
    ensures AfterEffect(today).progress == 100.0 <==> today >= 30
    ensures today >= 30 ==> AfterEffect(today) == AfterEffect(30)
  {
  }

  /** The caption's percentage in integers: `(10 * days + 1) div 3`. */
  lemma DisplayedPercentClosedForm(today: DayOfMonth)
    ensures DisplayedPercent(AfterEffect(today)) == (10 * ElapsedDays(today) + 1) / 3
  {
  }

  /** `Round` is the only integer within the half-open interval. */
  lemma RoundUnique(x: real, k: int)
    requires k as real <= x + 0.5 < k as real + 1.0
    ensures Round(x) == k
  {
  }

  /** The caption reads between 3% and 100%, and 100% exactly from day 30 on. */
  lemma DisplayedPercentBounds(today: DayOfMonth)
    ensures 3 <= DisplayedPercent(AfterEffect(today)) <= 100
    ensures DisplayedPercent(AfterEffect(today)) == 100 <==> today >= 30
  {
  }

  /** A later day never shows fewer days, less progress or a smaller
      percentage. */
  lemma Monotone(a: DayOfMonth, b: DayOfMonth)
    requires a <= b
    ensures ElapsedDays(a) <= ElapsedDays(b)
    ensures AfterEffect(a).progress <= AfterEffect(b).progress
    ensures DisplayedPercent(AfterEffect(a)) <= DisplayedPercent(AfterEffect(b))
  {
  }
}
