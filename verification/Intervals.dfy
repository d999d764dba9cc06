/** Candle intervals: the exclusive end of the interval that starts at an instant. The rule is written three times in the
    repository (timeframe.py, events.py and binance_normalizer.py); all three are modelled and compared here. */
module Intervals {
  import opened Wrappers
  import opened Calendar
  import Decimals

  const MONTHLY := "1M"

  function FixedDuration(interval: string): Option<int> {
    match interval
    case "1m" => Some(60_000)
    case "3m" => Some(180_000)
    case "5m" => Some(300_000)
    case "15m" => Some(900_000)
    case "30m" => Some(1_800_000)
    case "1h" => Some(3_600_000)
    case "2h" => Some(7_200_000)
    case "4h" => Some(14_400_000)
    case "6h" => Some(21_600_000)
    case "8h" => Some(28_800_000)
    case "12h" => Some(43_200_000)
    case "1d" => Some(86_400_000)
    case "3d" => Some(259_200_000)
    case "1w" => Some(604_800_000)
    case _ => None
  }

  predicate Supported(interval: string) {
    FixedDuration(interval).Some? || interval == MONTHLY
  }

  /** No supported interval is shorter than this; for a calendar month it is 28 days. */
  /** The intervals that the downloader knows. */
  lemma SupportedExactly(interval: string)
    ensures Supported(interval) <==>
            interval in {"1m", "3m", "5m", "15m", "30m", "1h", "2h", "4h", "6h", "8h", "12h", "1d", "3d", "1w", "1M"}
  {
  }

  function MinDuration(interval: string): (d: int)
    requires Supported(interval)
    ensures d >= 60_000
  {
    if interval == MONTHLY then 28 * MS_PER_DAY else FixedDuration(interval).value
  }

  predicate Representable(ms: int) {
    0 <= ms && EPOCH_INSTANT + 1000 * ms < END_INSTANT
  }

  function AtEpochMs(ms: int): (r: DateTime)
    requires Representable(ms)
    ensures r.Valid() && r.Instant() == EPOCH_INSTANT + 1000 * ms
  {
    AtInstant(EPOCH_INSTANT + 1000 * ms)
  }

  datatype BoundaryError = NegativeOpen | UnsupportedInterval | InvalidAmount | Misaligned | OutOfRange

  function ReplaceMonth(t: DateTime, year: int, month: int): (r: Result<DateTime, BoundaryError>)
    requires t.Valid() && t.day == 1 && 1 <= month <= 12
    ensures r.Ok? ==> r.value.Valid()
  {
    if 1 <= year <= 9999 then Ok(t.(year := year, month := month)) else Err(OutOfRange)
  }

  function NextMonthStart(t: DateTime): (r: Result<DateTime, BoundaryError>)
    requires t.Valid()
    ensures r.Ok? ==> r.value.Valid()
  {
    if !(t.day == 1 && t.Hour() == 0 && t.Minute() == 0 && t.Second() == 0 && t.Microsecond() == 0) then Err(Misaligned)
    else if t.month == 12 then ReplaceMonth(t, t.year + 1, 1)
    else ReplaceMonth(t, t.year, t.month + 1)
  }

  /** Only the start of a month passes the alignment test. */
  lemma AlignmentTest(t: DateTime)
    requires t.Valid()
    ensures NextMonthStart(t) != Err(Misaligned) <==> t.day == 1 && t.clock == 0
  {
    hide StartDay;
    hide MonthLength;
    assert t.clock == t.Hour() * 3_600_000_000 + t.clock % 3_600_000_000;
  }

  /** timeframe.py: the exclusive end, in epoch milliseconds, of the interval that opens at `openMs`. */
  function BoundaryAfter(openMs: int, interval: string): Result<int, BoundaryError> {
    if openMs < 0 then Err(NegativeOpen)
    else if !Supported(interval) then Err(UnsupportedInterval)
    else if FixedDuration(interval).Some? then Ok(openMs + FixedDuration(interval).value)
    else if !Representable(openMs) then Err(OutOfRange)
    else
      var next :- NextMonthStart(AtEpochMs(openMs));
      Ok((next.Instant() - EPOCH_INSTANT) / 1000)
  }

  function MonthStartMs(k: nat): int {
    (StartDay(k) - EPOCH_DAY) * MS_PER_DAY
  }

  /** The month that starts at a given millisecond has index `k`. */
  predicate IsMonthStart(k: nat, ms: int) {
    EPOCH_MONTH <= k < END_MONTH && ms == MonthStartMs(k)
  }

  function MonthDate(k: nat): (r: DateTime)
    requires k < END_MONTH
    ensures r.Valid() && r.MonthIndex() == k
  {
    var r := DateTime(k / 12 + 1, k % 12 + 1, 1, 0);
    assert 12 * (r.year - 1) + r.month - 1 == k;
    r
  }

  lemma MonthStartRange(k: nat)
    requires EPOCH_MONTH <= k < END_MONTH
    ensures Representable(MonthStartMs(k))
    ensures AtEpochMs(MonthStartMs(k)) == MonthDate(k)
  {
    hide StartDay;
    hide MonthLength;
    Landmarks();
    MonthSpan(EPOCH_MONTH, k);
    MonthSpan(k, END_MONTH);
    InstantInjective(MonthDate(k), AtEpochMs(MonthStartMs(k)));
  }

  lemma NextMonthDate(k: nat)
    requires k < END_MONTH
    ensures NextMonthStart(MonthDate(k)) == if k + 1 < END_MONTH then Ok(MonthDate(k + 1)) else Err(OutOfRange)
  {
    hide StartDay, MonthLength, MonthDate;
    MonthDateStep(k);
    AlignmentTest(MonthDate(k));
  }

  lemma MonthDateStep(k: nat)
    requires k < END_MONTH
    ensures var t := MonthDate(k);
            && t.clock == 0 && t.day == 1 && t.month == k % 12 + 1 && t.year == k / 12 + 1
            && (k + 1 < END_MONTH ==>
                  MonthDate(k + 1) == if t.month == 12 then t.(year := t.year + 1, month := 1) else t.(month := t.month + 1))
            && (k + 1 == END_MONTH ==> t.year == 9999 && t.month == 12)
  {
    hide StartDay, MonthLength;
    MonthSuccessor(k);
  }

  lemma MonthSuccessor(k: nat)
    ensures k % 12 == 11 ==> (k + 1) / 12 == k / 12 + 1 && (k + 1) % 12 == 0
    ensures k % 12 != 11 ==> (k + 1) / 12 == k / 12 && (k + 1) % 12 == k % 12 + 1
  {
  }

  /** A month start is accepted, and answered with the next month start, 28 to 31 days later; the one exception is
      December 9999, whose end no `datetime` can represent. */
  lemma MonthStartAccepted(k: nat)
    requires EPOCH_MONTH <= k < END_MONTH
    ensures BoundaryAfter(MonthStartMs(k), MONTHLY) == if k + 1 < END_MONTH then Ok(MonthStartMs(k + 1)) else Err(OutOfRange)
    ensures 28 * MS_PER_DAY <= MonthStartMs(k + 1) - MonthStartMs(k) <= 31 * MS_PER_DAY
  {
    MonthStep(k);
    hide StartDay;
    hide MonthLength;
    hide MonthDate;
    hide NextMonthStart;
    MonthStartRange(k);
    NextMonthDate(k);
    assert MonthDate(k).Instant() == EPOCH_INSTANT + 1000 * MonthStartMs(k);
    if k + 1 < END_MONTH {
      MonthStartRange(k + 1);
      assert MonthDate(k + 1).Instant() == EPOCH_INSTANT + 1000 * MonthStartMs(k + 1);
    }
    hide DateTime.Instant;
  }

  /** Nothing but a month start is accepted. */
  lemma OnlyMonthStartsAccepted(openMs: int) returns (k: nat)
    requires BoundaryAfter(openMs, MONTHLY).Ok?
    ensures IsMonthStart(k, openMs) && k + 1 < END_MONTH
  {
    hide StartDay;
    hide MonthLength;
    hide NextMonthStart;
    var t := AtEpochMs(openMs);
    k := t.MonthIndex();
    AlignmentTest(t);
    assert (StartDay(k) - EPOCH_DAY) * US_PER_DAY == 1000 * openMs;
    Landmarks();
    if k < EPOCH_MONTH {
      MonthSpan(k, EPOCH_MONTH);
      assert false;
    }
    hide BoundaryAfter;
    MonthStartAccepted(k);
  }

  function IterateBoundary(openMs: int, interval: string, n: nat): Result<int, BoundaryError> {
    if n == 0 then Ok(openMs)
    else
      var earlier :- IterateBoundary(openMs, interval, n - 1);
      BoundaryAfter(earlier, interval)
  }

  /** Iterating the monthly boundary visits the later month starts one by one, each once and none skipped. */
  lemma {:induction false} IterationVisitsEveryMonth(k: nat, n: nat)
    requires EPOCH_MONTH <= k && k + n < END_MONTH
    ensures IterateBoundary(MonthStartMs(k), MONTHLY, n) == Ok(MonthStartMs(k + n))
    ensures forall m: nat :: m < k + n ==> MonthStartMs(m) < MonthStartMs(k + n)
  {
    hide StartDay;
    hide BoundaryAfter;
    if n > 0 {
      IterationVisitsEveryMonth(k, n - 1);
      MonthStartAccepted(k + n - 1);
    }
    forall m: nat | m < k + n ensures MonthStartMs(m) < MonthStartMs(k + n) {
      MonthSpan(m, k + n);
    }
  }

  /** What the pagers rely on: a boundary lies at least the shortest duration ahead, and boundaries keep the order of
      the opens. Calendar months moreover never overlap. */
  lemma BoundaryAhead(openMs: int, interval: string)
    requires BoundaryAfter(openMs, interval).Ok?
    ensures Supported(interval) && openMs >= 0
    ensures BoundaryAfter(openMs, interval).value >= openMs + MinDuration(interval)
  {
    if interval == MONTHLY {
      var k := OnlyMonthStartsAccepted(openMs);
      MonthStartAccepted(k);
    }
  }

  lemma BoundaryMonotone(a: int, b: int, interval: string)
    requires BoundaryAfter(a, interval).Ok? && BoundaryAfter(b, interval).Ok? && a < b
    ensures BoundaryAfter(a, interval).value < BoundaryAfter(b, interval).value
    ensures interval == MONTHLY ==> BoundaryAfter(a, interval).value <= b
  {
    hide StartDay;
    hide NextMonthStart;
    hide AtEpochMs;
    if interval == MONTHLY {
      var j := OnlyMonthStartsAccepted(a);
      var k := OnlyMonthStartsAccepted(b);
      MonthStartAccepted(j);
      MonthStartAccepted(k);
      if k <= j {
        MonthSpan(k, j);
        assert false;
      }
      MonthSpan(j + 1, k);
      MonthSpan(k, k + 1);
    }
  }

  // ---------------------------------------------------------------- events.py and binance_normalizer.py

  const MAX_INT_DIGITS := 4_300

  function DigitCount(s: string): nat {
    if s == "" then 0 else DigitCount(s[..|s| - 1]) + if Decimals.IsDigit(s[|s| - 1]) then 1 else 0
  }

  /** Digits, with single underscores between them. */
  function ParseDigits(s: string): Option<nat> {
    if s == "" || !Decimals.IsDigit(s[|s| - 1]) then None
    else
      var digit := Decimals.DigitValue(s[|s| - 1]);
      if |s| == 1 then Some(digit)
      else match ParseDigits(s[..|s| - if s[|s| - 2] == '_' then 2 else 1])
        case None => None
        case Some(n) => Some(10 * n + digit)
  }

  predicate IsSpace(c: char) { c == ' ' || '\t' <= c <= '\r' || '\U{1c}' <= c <= '\U{1f}' }

  function Stripped(s: string): string {
    if s == "" then s
    else if IsSpace(s[0]) then Stripped(s[1..])
    else if IsSpace(s[|s| - 1]) then Stripped(s[..|s| - 1])
    else s
  }

  /** Python's `int` on a text: surrounding white space, a sign, digits with underscores between them, and not too many digits. */
  function PythonInt(s: string): Option<int> {
    var text := Stripped(s);
    var signed := text != "" && (text[0] == '+' || text[0] == '-');
    match ParseDigits(if signed then text[1..] else text)
    case None => None
    case Some(n) =>
      if DigitCount(text) > MAX_INT_DIGITS then None
      else Some(if signed && text[0] == '-' then 0 - n else n)
  }

  lemma {:induction false} DigitsRead(s: string)
    requires s != "" && Decimals.AllDigits(s)
    ensures ParseDigits(s) == Some(Decimals.NatOf(s)) && DigitCount(s) == |s|
  {
    var init := s[..|s| - 1];
    if init == "" {
      assert Decimals.NatOf(init) == 0;
    } else {
      DigitsRead(init);
    }
  }

  lemma {:induction false} GroupsRead(s: string, t: string)
    requires s != "" && t != "" && Decimals.AllDigits(s) && Decimals.AllDigits(t)
    ensures ParseDigits(s + ("_" + t)) == Some(Decimals.NatOf(s + t)) && DigitCount(s + ("_" + t)) == |s| + |t|
  {
    var text, init := s + ("_" + t), t[..|t| - 1];
    if init == "" {
      DigitsRead(s);
      assert text[..|text| - 1] == s + "_" && text[..|text| - 2] == s && (s + "_")[..|s|] == s;
      assert (s + t)[..|s| + |t| - 1] == s;
    } else {
      GroupsRead(s, init);
      assert text[..|text| - 1] == s + ("_" + init) && (s + t)[..|s + t| - 1] == s + init;
    }
  }

  /** What amounts mean: their digits, also in two groups; a minus sign negates, a plus sign and white space do nothing. */
  lemma AmountsRead(s: string, t: string)
    requires s != "" && t != "" && Decimals.AllDigits(s) && Decimals.AllDigits(t) && |s| + |t| <= 4_300
    ensures PythonInt(s) == Some(Decimals.NatOf(s)) == PythonInt("+" + s)
    ensures forall c: char :: 9 <= c as int <= 13 || 28 <= c as int <= 32 ==> PythonInt([c] + s) == PythonInt(s) == PythonInt(s + [c])
    ensures PythonInt("-" + s) == Some(0 - Decimals.NatOf(s))
    ensures PythonInt(s + ("_" + t)) == Some(Decimals.NatOf(s + t))
  {
    hide PythonInt, Stripped, ParseDigits, DigitCount, Decimals.NatOf;
    DigitsRead(s);
    GroupsRead(s, t);
    Unsigned(s);
    Unsigned(s + ("_" + t));
    SignRead('+', s);
    SignRead('-', s);
    forall c: char | 9 <= c as int <= 13 || 28 <= c as int <= 32 { SpaceRead(c, s); }
  }

  lemma SpaceRead(c: char, s: string)
    requires (9 <= c as int <= 13 || 28 <= c as int <= 32) && s != "" && Decimals.AllDigits(s)
    ensures PythonInt([c] + s) == PythonInt(s) == PythonInt(s + [c])
  {
    hide ParseDigits, DigitCount;
    assert ([c] + s)[1..] == s && (s + [c])[..|s|] == s && !IsSpace(s[0]);
  }

  lemma Unsigned(s: string)
    requires s != "" && Decimals.IsDigit(s[0]) && Decimals.IsDigit(s[|s| - 1]) && DigitCount(s) <= 4_300
    ensures PythonInt(s) == ParseDigits(s)
  {
    hide ParseDigits, DigitCount, Stripped;
    NotStripped(s);
  }

  lemma NotStripped(s: string)
    requires s != "" && !IsSpace(s[0]) && !IsSpace(s[|s| - 1])
    ensures Stripped(s) == s
  {
  }

  lemma SignRead(sign: char, s: string)
    requires (sign == '+' || sign == '-') && s != "" && Decimals.IsDigit(s[|s| - 1]) && DigitCount(s) <= 4_300 && ParseDigits(s).Some?
    ensures PythonInt([sign] + s) == Some(if sign == '-' then 0 - ParseDigits(s).value else ParseDigits(s).value)
  {
    hide ParseDigits, DigitCount, Stripped;
    SignCount(sign, s);
    var text := [sign] + s;
    assert text[|text| - 1] == s[|s| - 1] && text[1..] == s;
    NotStripped(text);
  }

  lemma {:induction false} SignCount(sign: char, s: string)
    requires !Decimals.IsDigit(sign)
    ensures DigitCount([sign] + s) == DigitCount(s)
  {
    var text := [sign] + s;
    if s == "" {
      assert text[..0] == "";
    } else {
      assert text[..|text| - 1] == [sign] + s[..|s| - 1];
      SignCount(sign, s[..|s| - 1]);
    }
  }

  function UnitSeconds(unit: char): Option<int> {
    match unit
    case 's' => Some(1)
    case 'm' => Some(60)
    case 'h' => Some(3_600)
    case 'd' => Some(86_400)
    case 'w' => Some(604_800)
    case _ => None
  }

  function AddSeconds(t: DateTime, seconds: int): Result<DateTime, BoundaryError>
    requires t.Valid()
  {
    var later := t.Instant() + 1_000_000 * seconds;
    if 0 <= later < END_INSTANT then Ok(AtInstant(later)) else Err(OutOfRange)
  }

  function AddMonths(t: DateTime, amount: int): Result<DateTime, BoundaryError>
    requires t.Valid() && t.day == 1
  {
    var next := t.month + amount;
    ReplaceMonth(t, t.year + (next - 1) / 12, (next - 1) % 12 + 1)
  }

  /** events.py: the exclusive close of the candle that opens at `t`. */
  function NextCandleBoundary(t: DateTime, interval: string): (r: Result<DateTime, BoundaryError>)
    requires t.Valid()
    ensures r.Ok? ==> r.value.Valid()
  {
    if |interval| < 2 then Err(UnsupportedInterval)
    else match PythonInt(interval[..|interval| - 1])
      case None => Err(InvalidAmount)
      case Some(amount) =>
        if amount < 1 then Err(InvalidAmount)
        else match UnitSeconds(interval[|interval| - 1])
          case Some(seconds) => AddSeconds(t, amount * seconds)
          case None =>
            if interval[|interval| - 1] != 'M' || t.day != 1 || t.clock != 0 then Err(Misaligned)
            else AddMonths(t, amount)
  }

  /** binance_normalizer.py: the same rule, except that the microsecond of a month open is not looked at. */
  function NextCandleOpen(t: DateTime, interval: string): (r: Result<DateTime, BoundaryError>)
    requires t.Valid()
    ensures r.Ok? ==> r.value.Valid()
  {
    if |interval| < 2 then Err(UnsupportedInterval)
    else match PythonInt(interval[..|interval| - 1])
      case None => Err(InvalidAmount)
      case Some(amount) =>
        if amount < 1 then Err(InvalidAmount)
        else match UnitSeconds(interval[|interval| - 1])
          case Some(seconds) => AddSeconds(t, amount * seconds)
          case None =>
            if interval[|interval| - 1] != 'M' || t.day != 1 || t.Hour() != 0 || t.Minute() != 0 || t.Second() != 0 then
              Err(Misaligned)
            else AddMonths(t, amount)
  }

  /** The two event-side copies part exactly on a month open with a residue below one second. */
  lemma EventCopiesAgree(t: DateTime, interval: string)
    requires t.Valid()
    ensures NextCandleOpen(t, interval) == NextCandleBoundary(t, interval) <==>
            !(&& |interval| >= 2 && interval[|interval| - 1] == 'M' && PythonInt(interval[..|interval| - 1]).Some?
              && PythonInt(interval[..|interval| - 1]).value >= 1 && t.day == 1 && 0 < t.clock < 1_000_000)
  {
    hide AddSeconds;
    hide StartDay;
    hide MonthLength;
    hide DateTime.Instant;
    assert t.clock == t.Hour() * 3_600_000_000 + t.clock % 3_600_000_000;
    assert t.Hour() == 0 && t.Minute() == 0 && t.Second() == 0 <==> t.clock < 1_000_000;
  }

  lemma SupportedAmounts(interval: string)
    requires Supported(interval)
    ensures |interval| >= 2 && PythonInt(interval[..|interval| - 1]).Some?
    ensures var amount := PythonInt(interval[..|interval| - 1]).value;
            var unit := interval[|interval| - 1];
            amount >= 1 && (
            if interval == MONTHLY then amount == 1 && unit == 'M' && UnitSeconds(unit).None?
            else UnitSeconds(unit).Some? && FixedDuration(interval) == Some(1000 * (amount * UnitSeconds(unit).value)))
  {
    PlainDigits(interval[..|interval| - 1]);
    hide PythonInt;
  }

  /** One or two digits are what they say. */
  lemma PlainDigits(digits: string)
    requires 1 <= |digits| <= 2 && Decimals.AllDigits(digits)
    ensures PythonInt(digits) ==
              Some(if |digits| == 1 then Decimals.DigitValue(digits[0])
                   else 10 * Decimals.DigitValue(digits[0]) + Decimals.DigitValue(digits[1]))
  {
    assert Stripped(digits) == digits;
    if |digits| == 2 {
      assert digits[..1] == [digits[0]] && digits[..1][..0] == "" && digits[..1][0] == digits[0];
      assert ParseDigits(digits[..1]) == Some(Decimals.DigitValue(digits[0]));
      assert DigitCount(digits[..1]) == 1;
    }
  }

  lemma SameMonthStep(t: DateTime)
    requires t.Valid()
    ensures NextCandleBoundary(t, MONTHLY) == NextMonthStart(t)
  {
    SupportedAmounts(MONTHLY);
    hide StartDay;
    hide MonthLength;
    hide PythonInt;
    hide AddSeconds;
    AlignmentTest(t);
    assert t.month == 12 ==> t.month / 12 == 1 && t.month % 12 == 0;
    assert t.month < 12 ==> t.month / 12 == 0 && t.month % 12 == t.month;
  }

  lemma AgreeOnMonths(openMs: int)
    requires BoundaryAfter(openMs, MONTHLY).Ok?
    ensures Representable(openMs) && Representable(BoundaryAfter(openMs, MONTHLY).value)
    ensures NextMonthStart(AtEpochMs(openMs)) == Ok(AtEpochMs(BoundaryAfter(openMs, MONTHLY).value))
  {
    hide StartDay;
    hide MonthLength;
    var k := OnlyMonthStartsAccepted(openMs);
    hide BoundaryAfter;
    MonthStartAccepted(k);
    MonthStartRange(k);
    MonthStartRange(k + 1);
    NextMonthDate(k);
  }

  /** The epoch-millisecond rule and the event rule compute the same instant for every supported interval; they part only
      where the end of a fixed interval lies past year 9999, which an integer can express and a `datetime` cannot. */
  lemma BoundariesAgree(openMs: int, interval: string)
    requires Supported(interval) && Representable(openMs)
    ensures var ms := BoundaryAfter(openMs, interval);
            var t := NextCandleBoundary(AtEpochMs(openMs), interval);
            && (t.Ok? <==> ms.Ok? && Representable(ms.value))
            && (t.Ok? ==> t.value.Instant() == EPOCH_INSTANT + 1000 * ms.value)
  {
    hide StartDay;
    hide MonthLength;
    SupportedAmounts(interval);
    if interval == MONTHLY {
      SameMonthStep(AtEpochMs(openMs));
      if BoundaryAfter(openMs, MONTHLY).Ok? {
        AgreeOnMonths(openMs);
      }
    }
  }

  function IterateEventBoundary(t: DateTime, interval: string, n: nat): (r: Result<DateTime, BoundaryError>)
    requires t.Valid()
    ensures r.Ok? ==> r.value.Valid()
  {
    if n == 0 then Ok(t)
    else
      var earlier :- IterateEventBoundary(t, interval, n - 1);
      NextCandleBoundary(earlier, interval)
  }

  lemma MonthsAdd(t: DateTime, j: nat)
    requires t.Valid() && t.day == 1
    ensures AddMonths(t, j + 1) == if AddMonths(t, j).Ok? then AddMonths(AddMonths(t, j).value, 1) else Err(OutOfRange)
  {
    hide DateTime.Instant;
    var a := t.month + j - 1;
    assert (a + 1) / 12 == a / 12 + if a % 12 == 11 then 1 else 0;
    assert (a + 1) % 12 == if a % 12 == 11 then 0 else a % 12 + 1;
  }

  /** A step of `k` months is `k` steps of one month, errors included. */
  lemma {:induction false} MonthsAreIteratedMonths(t: DateTime, k: nat)
    requires t.Valid() && t.day == 1 && t.clock == 0
    ensures IterateEventBoundary(t, MONTHLY, k) == AddMonths(t, k)
  {
    if k > 0 {
      MonthsAreIteratedMonths(t, k - 1);
      MonthsAdd(t, k - 1);
      SupportedAmounts(MONTHLY);
    }
  }

  /** For every interval text `<amount>M` that means: one call equals as many calls with "1M" as the amount says. */
  lemma MultiMonthInterval(t: DateTime, amount: string)
    requires t.Valid() && PythonInt(amount).Some? && PythonInt(amount).value >= 1
    ensures NextCandleBoundary(t, amount + "M") == IterateEventBoundary(t, MONTHLY, PythonInt(amount).value)
  {
    hide PythonInt;
    var k := PythonInt(amount).value;
    assert amount != "" by { AmountNotEmpty(amount); }
    assert (amount + "M")[..|amount + "M"| - 1] == amount;
    SupportedAmounts(MONTHLY);
    if t.day == 1 && t.clock == 0 {
      MonthsAreIteratedMonths(t, k);
    } else {
      MisalignedIteration(t, k);
    }
  }

  lemma AmountNotEmpty(amount: string)
    requires PythonInt(amount).Some?
    ensures amount != ""
  {
  }

  // ---------------------------------------------------------------- where the three copies part

  /** Half a second into December 2023: the normalizer gives an end, the event rule refuses. */
  lemma ResidueWitness()
    ensures var t := DateTime(2023, 12, 1, 500_000);
            && t.Valid() && NextCandleOpen(t, MONTHLY) == Ok(DateTime(2024, 1, 1, 500_000)) && NextCandleBoundary(t, MONTHLY) == Err(Misaligned)
  {
    SupportedAmounts(MONTHLY);
    hide PythonInt;
  }

  /** The last minute of year 9999: its end is an integer, but no `datetime`. */
  lemma LastMinuteWitness()
    ensures var openMs := (END_INSTANT - EPOCH_INSTANT) / 1000 - 60_000;
            && Representable(openMs) && BoundaryAfter(openMs, "1m") == Ok(openMs + 60_000) && !Representable(openMs + 60_000)
            && NextCandleBoundary(AtEpochMs(openMs), "1m") == Err(OutOfRange)
  {
    SupportedAmounts("1m");
    hide PythonInt, StartDay, MonthLength;
  }

  lemma {:induction false} MisalignedIteration(t: DateTime, k: nat)
    requires t.Valid() && k >= 1 && !(t.day == 1 && t.clock == 0)
    ensures IterateEventBoundary(t, MONTHLY, k) == Err(Misaligned)
  {
    SupportedAmounts(MONTHLY);
    if k > 1 {
      MisalignedIteration(t, k - 1);
    } else {
      assert IterateEventBoundary(t, MONTHLY, 0) == Ok(t);
    }
  }
}
