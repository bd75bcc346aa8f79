/** Calendar dates as Python's `datetime.date` holds them, and the age in completed years. */
module Dates {

  /** A calendar date: proleptic Gregorian year, month and day of month. */
  datatype Date = Date(year: int, month: int, day: int)

  predicate IsLeapYear(y: int)
  {
    y % 4 == 0 && (y % 100 != 0 || y % 400 == 0)
  }

  /** Day-of-month limit per month and year, as in section 5.7 of RFC 3339. */
  function DaysInMonth(y: int, m: int): (days: int)
    requires 1 <= m <= 12
  {
    if m == 2 then (if IsLeapYear(y) then 29 else 28)
    else if m == 4 || m == 6 || m == 9 || m == 11 then 30
    else 31
  }

  /** A date Python's `date` constructor accepts: years 1 to 9999, real months and days. */
  predicate ValidDate(d: Date)
  {
    1 <= d.year <= 9999 && 1 <= d.month <= 12 && 1 <= d.day <= DaysInMonth(d.year, d.month)
  }

  /** `a < b` on `date` values: (year, month, day) compared lexicographically. */
  predicate Before(a: Date, b: Date)
  {
    a.year < b.year || (a.year == b.year && (a.month < b.month || (a.month == b.month && a.day < b.day)))
  }

  lemma BeforeIsStrictTotalOrder(a: Date, b: Date, c: Date)
    ensures !Before(a, a)
    ensures Before(a, b) && Before(b, c) ==> Before(a, c)
    ensures a == b || Before(a, b) || Before(b, a)
  {
  }

  /** The `k`-th anniversary of `birth` (its month and day in year `birth.year + k`) is not
      after `today`.  For a 29 February birthday the anniversary of a common year is taken
      as falling after 28 February, as the tuple comparison of the source does. */
  predicate AnniversaryReached(birth: Date, today: Date, k: int)
  {
    !Before(today, Date(birth.year + k, birth.month, birth.day))
  }

  /** Once an anniversary is reached, every earlier one is too. */
  lemma AnniversaryMonotone(birth: Date, today: Date, j: int, k: int)
    requires j <= k && AnniversaryReached(birth, today, k)
    ensures AnniversaryReached(birth, today, j)
  {
  }

  /** `age_calculation`: the number of completed years between `birth` and `today`, i.e. the
      last anniversary reached.  `today` stands for `date.today()`. */
  function Age(birth: Date, today: Date): (years: int)
    ensures AnniversaryReached(birth, today, years)
    ensures !AnniversaryReached(birth, today, years + 1)
    ensures !Before(today, birth) ==> years >= 0
    ensures Before(today, birth) ==> years < 0
  {
    var years := today.year - birth.year;
    if today.month < birth.month || (today.month == birth.month && today.day < birth.day) then
      years - 1
    else
      years
  }

  /** The age is the unique count of completed years: any `k` whose anniversary is reached
      while the next one is not is the age. */
  lemma {:induction false} AgeUnique(birth: Date, today: Date, k: int)
    requires AnniversaryReached(birth, today, k) && !AnniversaryReached(birth, today, k + 1)
    ensures Age(birth, today) == k
  {
    var a := Age(birth, today);
    if a < k {
      AnniversaryMonotone(birth, today, a + 1, k);
    } else if a > k {
      AnniversaryMonotone(birth, today, k + 1, a);
    }
  }

  /** The age goes up on the birthday itself: on the `k`-th anniversary it is `k`, and on a
      day of that year before the anniversary it is `k - 1`. */
  lemma AgeIncrementsOnBirthday(birth: Date, k: int, today: Date)
    requires today.year == birth.year + k
    ensures (today.month, today.day) == (birth.month, birth.day) ==> Age(birth, today) == k
    ensures Before(today, Date(today.year, birth.month, birth.day)) ==> Age(birth, today) == k - 1
  {
  }

  /** A later today never gives a smaller age. */
  lemma {:induction false} AgeMonotone(birth: Date, today1: Date, today2: Date)
    requires !Before(today2, today1)
    ensures Age(birth, today1) <= Age(birth, today2)
  {
    var a := Age(birth, today1);
    assert AnniversaryReached(birth, today1, a);
    assert AnniversaryReached(birth, today2, a);
    if Age(birth, today2) < a {
      AnniversaryMonotone(birth, today2, Age(birth, today2) + 1, a);
    }
  }
}
