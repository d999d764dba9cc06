/** The proleptic Gregorian calendar of Python's `datetime`, which every timestamp in the repository goes through.
    Months are numbered from January of year 1, days from 0001-01-01, and instants are microseconds from that midnight. */
module Calendar {

  const MS_PER_DAY := 86_400_000
  const US_PER_DAY := 86_400_000_000
  const EPOCH_MONTH := 23_628      // January 1970
  const END_MONTH := 119_988       // the month after December 9999
  const EPOCH_DAY := 719_162
  const END_DAY := 3_652_059

  predicate IsLeap(year: int) {
    year % 4 == 0 && (year % 100 != 0 || year % 400 == 0)
  }

  function MonthLength(k: nat): (r: nat)
    ensures 28 <= r <= 31
  {
    var month := k % 12 + 1;
    if month == 2 then (if IsLeap(k / 12 + 1) then 29 else 28)
    else if month in {4, 6, 9, 11} then 30
    else 31
  }

  function DaysBeforeYear(elapsed: nat): nat {
    365 * elapsed + elapsed / 4 - elapsed / 100 + elapsed / 400
  }

  function DaysBeforeMonth(m: nat, leap: bool): nat
    requires m < 12
  {
    [0, 31, 59, 90, 120, 151, 181, 212, 243, 273, 304, 334][m] + if leap && m >= 2 then 1 else 0
  }

  /** Day number of the first day of month `k`. */
  function StartDay(k: nat): nat {
    DaysBeforeYear(k / 12) + DaysBeforeMonth(k % 12, IsLeap(k / 12 + 1))
  }

  lemma FourthYear(e: nat)
    ensures (e + 1) / 4 == e / 4 + if (e + 1) % 4 == 0 then 1 else 0
  {
  }

  lemma HundredthYear(e: nat)
    ensures (e + 1) / 100 == e / 100 + if (e + 1) % 100 == 0 then 1 else 0
    ensures (e + 1) % 100 == 0 ==> (e + 1) % 4 == 0
  {
  }

  lemma FourHundredthYear(e: nat)
    ensures (e + 1) / 400 == e / 400 + if (e + 1) % 400 == 0 then 1 else 0
    ensures (e + 1) % 400 == 0 ==> (e + 1) % 100 == 0
  {
  }

  lemma YearStep(e: nat)
    ensures DaysBeforeYear(e + 1) == DaysBeforeYear(e) + if IsLeap(e + 1) then 366 else 365
  {
    FourthYear(e);
    HundredthYear(e);
    FourHundredthYear(e);
  }

  /** The closed formula for month starts and the month-length table describe the same calendar. */
  lemma MonthStep(k: nat)
    ensures StartDay(k + 1) == StartDay(k) + MonthLength(k)
  {
    YearStep(k / 12);
    if k % 12 == 11 {
      assert (k + 1) / 12 == k / 12 + 1 && (k + 1) % 12 == 0;
    } else {
      assert (k + 1) / 12 == k / 12 && (k + 1) % 12 == k % 12 + 1;
    }
  }

  lemma {:induction false} MonthSpan(j: nat, k: nat)
    requires j <= k
    ensures StartDay(j) + 28 * (k - j) <= StartDay(k) <= StartDay(j) + 31 * (k - j)
    decreases k
  {
    hide *;
    if j < k {
      MonthSpan(j, k - 1);
      MonthStep(k - 1);
    }
  }

  /** Walk from month `k` over `n` days: the month reached and the day inside it, counted from 0. */
  function Locate(k: nat, n: nat): (r: (nat, nat))
    ensures r.0 >= k && r.1 < MonthLength(r.0)
    ensures StartDay(r.0) + r.1 == StartDay(k) + n
    decreases n
  {
    if n < MonthLength(k) then (k, n)
    else
      MonthStep(k);
      Locate(k + 1, n - MonthLength(k))
  }

  /** A day number lies in exactly one month. */
  lemma DayDeterminesMonth(j: nat, d: nat, k: nat, e: nat)
    requires d < MonthLength(j) && e < MonthLength(k)
    requires StartDay(j) + d == StartDay(k) + e
    ensures j == k && d == e
  {
    hide StartDay;
    hide MonthLength;
    if j < k {
      MonthStep(j);
      MonthSpan(j + 1, k);
    } else if k < j {
      MonthStep(k);
      MonthSpan(k + 1, j);
    }
  }

  /** An aware UTC `datetime`; `clock` is the microsecond of the day. */
  datatype DateTime = DateTime(year: int, month: int, day: int, clock: int) {
    predicate Valid() {
      && 1 <= year <= 9999 && 1 <= month <= 12
      && 1 <= day <= MonthLength(12 * (year - 1) + month - 1)
      && 0 <= clock < US_PER_DAY
    }

    function MonthIndex(): nat
      requires Valid()
    {
      12 * (year - 1) + month - 1
    }

    function Hour(): int { clock / 3_600_000_000 }
    function Minute(): int { clock / 60_000_000 % 60 }
    function Second(): int { clock / 1_000_000 % 60 }
    function Microsecond(): int { clock % 1_000_000 }

    function Instant(): int
      requires Valid()
    {
      (StartDay(MonthIndex()) + day - 1) * US_PER_DAY + clock
    }
  }

  const END_INSTANT := END_DAY * US_PER_DAY
  const EPOCH_INSTANT := EPOCH_DAY * US_PER_DAY

  lemma Landmarks()
    ensures StartDay(EPOCH_MONTH) == EPOCH_DAY
    ensures StartDay(END_MONTH) == END_DAY
  {
  }

  const EPOCH := DateTime(1970, 1, 1, 0)

  lemma EpochStart()
    ensures EPOCH.Valid() && EPOCH.Instant() == EPOCH_INSTANT
  {
    Landmarks();
    hide StartDay;
  }

  /** The `datetime` at an instant; instants from the end of year 9999 on have none. */
  function AtInstant(t: int): (r: DateTime)
    requires 0 <= t < END_INSTANT
    ensures r.Valid() && r.Instant() == t
  {
    var (k, d) := Locate(0, t / US_PER_DAY);
    assert k < END_MONTH by {
      Landmarks();
      if k >= END_MONTH { MonthSpan(END_MONTH, k); }
    }
    DateOf(k, d, t % US_PER_DAY);
    DateTime(k / 12 + 1, k % 12 + 1, d + 1, t % US_PER_DAY)
  }

  lemma DateOf(k: nat, d: nat, clock: int)
    requires k < END_MONTH && d < MonthLength(k) && 0 <= clock < US_PER_DAY
    ensures var r := DateTime(k / 12 + 1, k % 12 + 1, d + 1, clock);
            r.Valid() && r.MonthIndex() == k && r.Instant() == (StartDay(k) + d) * US_PER_DAY + clock
  {
    hide StartDay, MonthLength;
    var r := DateTime(k / 12 + 1, k % 12 + 1, d + 1, clock);
    assert 12 * (r.year - 1) + r.month - 1 == k;
  }

  /** `datetime` values and instants correspond one to one. */
  lemma InstantInjective(a: DateTime, b: DateTime)
    requires a.Valid() && b.Valid() && a.Instant() == b.Instant()
    ensures a == b
  {
    var x, y := StartDay(a.MonthIndex()) + a.day - 1, StartDay(b.MonthIndex()) + b.day - 1;
    assert x == y;
    DayDeterminesMonth(a.MonthIndex(), a.day - 1, b.MonthIndex(), b.day - 1);
  }

  /** Calendar order, field by field, is time order. */
  lemma InstantOrder(a: DateTime, b: DateTime)
    requires a.Valid() && b.Valid()
    requires a.MonthIndex() < b.MonthIndex()
          || (a.MonthIndex() == b.MonthIndex() && (a.day < b.day || (a.day == b.day && a.clock < b.clock)))
    ensures a.Instant() < b.Instant()
  {
    hide StartDay;
    hide MonthLength;
    if a.MonthIndex() < b.MonthIndex() {
      MonthStep(a.MonthIndex());
      MonthSpan(a.MonthIndex() + 1, b.MonthIndex());
    }
  }
}
