/** Aware timestamps as Python keeps them, a local time and an offset from UTC, and their ISO-8601 text. */
module Timestamps {
  import opened Calendar
  import opened TextOrder
  import Decimals

  /** `local` is what a clock in that zone shows; `offset` is in microseconds and less than a day. */
  datatype Zoned = Stamp(local: DateTime, offset: int) {
    predicate Valid() { local.Valid() && -US_PER_DAY < offset < US_PER_DAY }

    /** The instant in UTC. Python compares aware timestamps by it. */
    function Instant(): int
      requires Valid()
    {
      local.Instant() - offset
    }

    function Text(): string
      requires Valid()
    {
      ZonedText(local, ZoneText(offset))
    }
  }

  type Stamp = t: Zoned | t.Valid() witness Stamp(DateTime(1, 1, 1, 0), 0)

  predicate Before(a: Stamp, b: Stamp) { a.Instant() < b.Instant() }

  /** Hours and minutes; seconds and microseconds only if there are any. */
  function ZoneText(offset: int): string
    requires -US_PER_DAY < offset < US_PER_DAY
  {
    if offset < 0 then "-" + SpanText(0 - offset) else "+" + SpanText(offset)
  }

  function SpanText(span: nat): string {
    Padded(span / 3_600_000_000, 2) + (":" + (Padded(span / 60_000_000 % 60, 2) + SecondsText(span % 60_000_000)))
  }

  function SecondsText(rest: nat): string {
    if rest == 0 then ""
    else ":" + (Padded(rest / 1_000_000, 2) + if rest % 1_000_000 == 0 then "" else "." + Padded(rest % 1_000_000, 6))
  }

  /** Concretely: UTC, and half past five on either side of it. */
  lemma ZoneExamples()
    ensures ZoneText(0) == UTC_ZONE && ZoneText(19_800_000_000) == "+05:30" && ZoneText(-19_800_000_000) == "-05:30"
  {
    hide Padded;
    TwoDigits();
    assert SpanText(0) == "00:00" && SpanText(19_800_000_000) == "05:30";
    hide SpanText;
  }

  lemma TwoDigits()
    ensures Padded(0, 2) == "00" && Padded(5, 2) == "05" && Padded(30, 2) == "30"
  {
  }

  lemma {:induction false} PaddedInjective(m: nat, n: nat, width: nat)
    requires m < Decimals.Pow10(width) && n < Decimals.Pow10(width) && Padded(m, width) == Padded(n, width)
    ensures m == n
  {
    if m < n {
      PaddedOrder(m, n, width, "", "");
      LexIrreflexive(Padded(m, width) + "");
    } else if n < m {
      PaddedOrder(n, m, width, "", "");
      LexIrreflexive(Padded(m, width) + "");
    }
  }

  /** Two texts that start with fields of one width. */
  lemma SameField(m: nat, n: nat, width: nat, x: string, y: string)
    requires m < Decimals.Pow10(width) && n < Decimals.Pow10(width) && Padded(m, width) + x == Padded(n, width) + y
    ensures m == n && x == y
  {
    var s, t := Padded(m, width) + x, Padded(n, width) + y;
    assert Padded(m, width) == s[..width] == t[..width] == Padded(n, width) && x == s[width..] == t[width..] == y;
    PaddedInjective(m, n, width);
  }

  lemma SameTail(c: string, x: string, y: string)
    requires c + x == c + y
    ensures x == y
  {
    assert x == (c + x)[|c|..] == (c + y)[|c|..] == y;
  }

  lemma SecondsInjective(m: nat, n: nat)
    requires m < 60_000_000 && n < 60_000_000 && SecondsText(m) == SecondsText(n)
    ensures m == n
  {
    hide Padded;
    assert Decimals.Pow10(2) == 100 && Decimals.Pow10(6) == 1_000_000;
    if m != 0 && n != 0 {
      var x, y := if m % 1_000_000 == 0 then "" else "." + Padded(m % 1_000_000, 6), if n % 1_000_000 == 0 then "" else "." + Padded(n % 1_000_000, 6);
      SameTail(":", Padded(m / 1_000_000, 2) + x, Padded(n / 1_000_000, 2) + y);
      SameField(m / 1_000_000, n / 1_000_000, 2, x, y);
      if x != "" {
        SameTail(".", Padded(m % 1_000_000, 6), Padded(n % 1_000_000, 6));
        PaddedInjective(m % 1_000_000, n % 1_000_000, 6);
      }
    }
  }

  lemma SpanInjective(m: nat, n: nat)
    requires m < US_PER_DAY && n < US_PER_DAY && SpanText(m) == SpanText(n)
    ensures m == n
  {
    hide Padded, SecondsText;
    assert Decimals.Pow10(2) == 100;
    var (h, i, s) := (m / 3_600_000_000, m / 60_000_000 % 60, m % 60_000_000);
    var (h', i', s') := (n / 3_600_000_000, n / 60_000_000 % 60, n % 60_000_000);
    SameField(h, h', 2, ":" + (Padded(i, 2) + SecondsText(s)), ":" + (Padded(i', 2) + SecondsText(s')));
    SameTail(":", Padded(i, 2) + SecondsText(s), Padded(i', 2) + SecondsText(s'));
    SameField(i, i', 2, SecondsText(s), SecondsText(s'));
    SecondsInjective(s, s');
    SpanParts(m);
    SpanParts(n);
  }

  lemma SpanParts(m: nat)
    ensures m == m / 3_600_000_000 * 3_600_000_000 + m / 60_000_000 % 60 * 60_000_000 + m % 60_000_000
  {
    assert m / 60_000_000 / 60 == m / 3_600_000_000;
  }

  lemma ZoneInjective(m: int, n: int)
    requires -US_PER_DAY < m < US_PER_DAY && -US_PER_DAY < n < US_PER_DAY
    ensures Zone(ZoneText(m)) && (ZoneText(m) == ZoneText(n) <==> m == n)
  {
    hide SpanText;
    if ZoneText(m) == ZoneText(n) {
      assert ZoneText(m)[0] == ZoneText(n)[0];
      if m < 0 {
        SameTail("-", SpanText(0 - m), SpanText(0 - n));
        SpanInjective(0 - m, 0 - n);
      } else {
        SameTail("+", SpanText(m), SpanText(n));
        SpanInjective(m, n);
      }
    }
  }

  /** The text tells the timestamp, its zone included. */
  lemma TextIdentifies(a: Stamp, b: Stamp)
    ensures a.Text() == b.Text() <==> a == b
  {
    ZoneInjective(a.offset, b.offset);
    ZoneInjective(b.offset, a.offset);
    ZonedOrder(a.local, ZoneText(a.offset), b.local, ZoneText(b.offset));
  }

  /** Of timestamps in one zone, text order is time order. */
  lemma OneZoneOrder(a: Stamp, b: Stamp)
    requires a.offset == b.offset
    ensures LexLess(a.Text(), b.Text()) <==> Before(a, b)
  {
    ZoneInjective(a.offset, b.offset);
    ZonedOrder(a.local, ZoneText(a.offset), b.local, ZoneText(b.offset));
    LexIrreflexive(ZoneText(a.offset));
    hide ZonedText, LexLess, DateTime.Instant, ZoneText;
  }

  ghost predicate OrderedAlike(a: Stamp, b: Stamp) { LexLess(a.Text(), b.Text()) <==> Before(a, b) }

  /** Two different offsets: some later local time is the earlier instant, or the same one. */
  lemma ZonesDisagree(m: int, n: int) returns (a: Stamp, b: Stamp)
    requires -US_PER_DAY < n < m < US_PER_DAY
    ensures a.offset in {m, n} && b.offset in {m, n} && !OrderedAlike(a, b)
  {
    hide ZonedText, LexLess, ZoneText, DateTime.Instant, DateTime.Valid;
    var first, second := NewYear();
    a, b := Stamp(first, n), Stamp(second, m);
    ZoneInjective(m, n);
    ZoneInjective(n, m);
    ZonedOrder(first, ZoneText(n), second, ZoneText(m));
  }

  lemma NewYear() returns (first: DateTime, second: DateTime)
    ensures first.Valid() && second.Valid() && second.Instant() == first.Instant() + 1
  {
    first, second := DateTime(2024, 1, 1, 0), DateTime(2024, 1, 1, 1);
    hide StartDay;
  }

  /** Text order is time order on all timestamps of some zones exactly when there is one zone only. */
  lemma OrderedAlikeExactly(offsets: set<int>)
    requires forall o :: o in offsets ==> -US_PER_DAY < o < US_PER_DAY
    ensures (forall a: Stamp, b: Stamp :: a.offset in offsets && b.offset in offsets ==> OrderedAlike(a, b))
       <==> forall m, n :: m in offsets && n in offsets ==> m == n
  {
    if forall m, n :: m in offsets && n in offsets ==> m == n {
      forall a: Stamp, b: Stamp | a.offset in offsets && b.offset in offsets ensures OrderedAlike(a, b) {
        OneZoneOrder(a, b);
      }
    } else {
      var m, n :| m in offsets && n in offsets && m != n;
      var a, b := ZonesDisagree(if m > n then m else n, if m > n then n else m);
    }
  }

  const HALF_PAST_FIVE := Stamp(DateTime(2024, 1, 1, 19_800_000_000), 19_800_000_000)
  const HALF_PAST_MIDNIGHT := Stamp(DateTime(2024, 1, 1, 1_800_000_000), 0)

  /** Concretely: 05:30+05:30 is midnight in UTC, half an hour before 00:30+00:00, but its text sorts behind. */
  lemma OffsetWitness()
    ensures HALF_PAST_FIVE.Valid() && HALF_PAST_MIDNIGHT.Valid()
    ensures Before(HALF_PAST_FIVE, HALF_PAST_MIDNIGHT) && LexLess(HALF_PAST_MIDNIGHT.Text(), HALF_PAST_FIVE.Text())
  {
    var a, b := HALF_PAST_FIVE, HALF_PAST_MIDNIGHT;
    ZoneInjective(a.offset, b.offset);
    ZoneInjective(b.offset, a.offset);
    ZonedOrder(b.local, ZoneText(b.offset), a.local, ZoneText(a.offset));
    hide ZonedText, LexLess, ZoneText;
  }
}
