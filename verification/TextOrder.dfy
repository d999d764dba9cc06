/** Text order (Python `str` comparison, SQLite binary collation) and the two texts that stand in for real order: file names
    and ISO-8601 timestamps. */
module TextOrder {
  import opened Calendar
  import Decimals

  predicate LexLess(a: string, b: string) {
    if b == "" then false
    else if a == "" then true
    else a[0] < b[0] || (a[0] == b[0] && LexLess(a[1..], b[1..]))
  }

  lemma {:induction false} LexIrreflexive(a: string)
    ensures !LexLess(a, a)
  {
    if a != "" { LexIrreflexive(a[1..]); }
  }

  lemma {:induction false} LexTotal(a: string, b: string)
    ensures a == b || LexLess(a, b) || LexLess(b, a)
  {
    if a != "" && b != "" && a[0] == b[0] {
      LexTotal(a[1..], b[1..]);
      assert a == [a[0]] + a[1..] && b == [b[0]] + b[1..];
    }
  }

  lemma {:induction false} LexAsymmetric(a: string, b: string)
    requires LexLess(a, b)
    ensures !LexLess(b, a)
  {
    if a != "" && a[0] == b[0] { LexAsymmetric(a[1..], b[1..]); }
  }

  lemma {:induction false} LexTransitive(a: string, b: string, c: string)
    requires LexLess(a, b) && LexLess(b, c)
    ensures LexLess(a, c)
  {
    if a != "" && a[0] == b[0] == c[0] { LexTransitive(a[1..], b[1..], c[1..]); }
  }

  lemma {:induction false} LexPrefix(p: string, a: string, b: string)
    ensures LexLess(p + a, p + b) <==> LexLess(a, b)
  {
    if p == "" {
      assert p + a == a && p + b == b;
    } else {
      LexPrefix(p[1..], a, b);
      assert (p + a)[1..] == p[1..] + a && (p + b)[1..] == p[1..] + b;
    }
  }

  predicate Above(w: string, c: char) {
    forall i :: 0 <= i < |w| ==> w[i] > c
  }

  /** Words over characters above a separator: comparing `word separator rest` compares the words first. */
  lemma {:induction false} LexWords(v: string, w: string, c: char, x: string, y: string)
    requires Above(v, c) && Above(w, c)
    ensures LexLess(v + ([c] + x), w + ([c] + y)) <==> LexLess(v, w) || (v == w && LexLess(x, y))
    ensures v + ([c] + x) == w + ([c] + y) <==> v == w && x == y
  {
    var s, t := v + ([c] + x), w + ([c] + y);
    if v == "" || w == "" {
      assert v == "" ==> s[0] == c && s[1..] == x;
      assert w == "" ==> t[0] == c && t[1..] == y;
    } else {
      assert s[1..] == v[1..] + ([c] + x) && t[1..] == w[1..] + ([c] + y);
      LexWords(v[1..], w[1..], c, x, y);
      assert v == [v[0]] + v[1..] && w == [w[0]] + w[1..];
      assert s == [s[0]] + s[1..] && t == [t[0]] + t[1..];
    }
  }

  // ---------------------------------------------------------------- sorting by text

  /** Python's `sorted` over a set, by a text key; equal keys come in any order. */
  ghost predicate SortedBy<T(!new)>(list: seq<T>, items: set<T>, key: T -> string) {
    && (forall sub :: sub in list <==> sub in items)
    && (forall i, j :: 0 <= i < j < |list| ==> list[i] != list[j] && !LexLess(key(list[j]), key(list[i])))
  }

  ghost predicate NotBefore<T(!new)>(list: seq<T>, sub: T, key: T -> string) {
    forall other :: other in list ==> !LexLess(key(sub), key(other))
  }

  method Ordered<T(!new,==)>(items: set<T>, key: T -> string) returns (list: seq<T>)
    ensures SortedBy(list, items, key) && (list == [] <==> items == {})
  {
    hide LexLess;
    list := [];
    assert SortedBy(list, {}, key) && forall sub :: NotBefore(list, sub, key);
    hide SortedBy, NotBefore;
    var rest := items;
    ghost var done := {};
    while rest != {}
      invariant done + rest == items && done !! rest && SortedBy(list, done, key)
      invariant forall sub :: sub in rest ==> NotBefore(list, sub, key)
    {
      var first := Earliest(rest, key);
      SortedOneMore(list, done, first, key);
      forall sub | sub in rest - {first} ensures NotBefore(list + [first], sub, key) {
        NotBeforeOneMore(list, first, sub, key);
      }
      list := list + [first];
      rest, done := rest - {first}, done + {first};
    }
    assert done == items;
    SortedEmpty(list, items, key);
  }

  lemma SortedTail<T(!new)>(list: seq<T>, items: set<T>, key: T -> string)
    requires SortedBy(list, items, key) && list != []
    ensures list[0] in items && SortedBy(list[1..], items - {list[0]}, key)
  {
    hide LexLess;
    assert list == [list[0]] + list[1..];
  }

  lemma {:induction false} SortedSize<T(!new)>(list: seq<T>, items: set<T>, key: T -> string)
    requires SortedBy(list, items, key)
    ensures |list| == |items|
  {
    SortedEmpty(list, items, key);
    if list != [] {
      SortedTail(list, items, key);
      SortedSize(list[1..], items - {list[0]}, key);
    }
  }

  lemma SortedEmpty<T(!new)>(list: seq<T>, items: set<T>, key: T -> string)
    requires SortedBy(list, items, key)
    ensures list == [] <==> items == {}
  {
    assert list != [] ==> list[0] in items;
  }

  lemma NotBeforeOneMore<T(!new)>(list: seq<T>, next: T, sub: T, key: T -> string)
    requires NotBefore(list, sub, key) && !LexLess(key(sub), key(next))
    ensures NotBefore(list + [next], sub, key)
  {
    hide LexLess;
  }

  lemma SortedOneMore<T(!new)>(list: seq<T>, items: set<T>, next: T, key: T -> string)
    requires SortedBy(list, items, key) && next !in items && NotBefore(list, next, key)
    ensures SortedBy(list + [next], items + {next}, key)
  {
    hide LexLess;
  }

  method Earliest<T(!new,==)>(items: set<T>, key: T -> string) returns (first: T)
    requires items != {}
    ensures first in items && forall sub :: sub in items ==> !LexLess(key(sub), key(first))
  {
    hide LexLess;
    first :| first in items;
    LexIrreflexive(key(first));
    var rest := items - {first};
    while rest != {}
      invariant rest <= items && first in items
      invariant forall sub :: sub in items - rest ==> !LexLess(key(sub), key(first))
    {
      var next :| next in rest;
      if LexLess(key(next), key(first)) {
        forall sub | sub in items - rest ensures !LexLess(key(sub), key(next)) {
          if LexLess(key(sub), key(next)) {
            LexTransitive(key(sub), key(next), key(first));
          }
        }
        LexIrreflexive(key(next));
        first := next;
      }
      rest := rest - {next};
    }
  }

  // ---------------------------------------------------------------- file names

  /** A canonical symbol: upper-case alphanumeric base and quote. Only the order of the characters matters here. */
  datatype MarketSymbol = MarketSymbol(base: string, quote: string) {
    predicate Canonical() {
      base != "" && quote != "" && Above(base, '/') && Above(quote, '/')
    }

    function Text(): string { base + ("/" + quote) }
  }

  /** `symbol.replace("/", "-")`. */
  function Dashed(s: string): string {
    if s == "" then "" else [if s[0] == '/' then '-' else s[0]] + Dashed(s[1..])
  }

  function RawOutputName(symbol: string, interval: string): string {
    Dashed(symbol) + "-" + interval + ".jsonl"
  }

  function FailureOutputName(symbol: string, interval: string): string {
    Dashed(symbol) + "-" + interval + ".failures.jsonl"
  }

  predicate IntervalWord(interval: string) { Above(interval, '.') }

  predicate PairLess(s: MarketSymbol, i: string, t: MarketSymbol, j: string) {
    LexLess(s.Text(), t.Text()) || (s == t && LexLess(i, j))
  }

  lemma {:induction false} DashedWord(w: string, rest: string)
    requires Above(w, '/')
    ensures Dashed(w + rest) == w + Dashed(rest)
  {
    if w == "" {
      assert w + rest == rest;
    } else {
      assert (w + rest)[1..] == w[1..] + rest;
      DashedWord(w[1..], rest);
      assert w == [w[0]] + w[1..];
    }
  }

  lemma DashedSymbol(s: MarketSymbol)
    requires s.Canonical()
    ensures Dashed(s.Text()) == s.base + ("-" + s.quote)
  {
    DashedWord(s.base, "/" + s.quote);
    assert ("/" + s.quote)[1..] == s.quote;
    DashedWord(s.quote, "");
    assert s.quote + "" == s.quote;
  }

  /** Both names, spelled out. */
  lemma NameTexts(s: MarketSymbol, interval: string)
    requires s.Canonical()
    ensures s.Text() == s.base + ("/" + s.quote)
    ensures RawOutputName(s.Text(), interval) == s.base + ("-" + s.quote) + "-" + interval + ".jsonl"
    ensures FailureOutputName(s.Text(), interval) == s.base + ("-" + s.quote) + "-" + interval + ".failures.jsonl"
  {
    DashedSymbol(s);
  }

  lemma SymbolOrder(s: MarketSymbol, t: MarketSymbol)
    requires s.Canonical() && t.Canonical()
    ensures LexLess(s.Text(), t.Text()) <==> LexLess(s.base, t.base) || (s.base == t.base && LexLess(s.quote, t.quote))
    ensures s.Text() == t.Text() <==> s == t
  {
    LexWords(s.base, t.base, '/', s.quote, t.quote);
  }

  lemma NameParts(s: MarketSymbol, interval: string, suffix: string)
    requires s.Canonical()
    ensures Dashed(s.Text()) + "-" + interval + suffix == s.base + ("-" + (s.quote + ("-" + (interval + suffix))))
  {
    DashedSymbol(s);
  }

  lemma NameOrder(s: MarketSymbol, i: string, t: MarketSymbol, j: string, rest: string)
    requires s.Canonical() && t.Canonical() && IntervalWord(i) && IntervalWord(j)
    ensures var m := Dashed(s.Text()) + "-" + i + ("." + rest);
            var n := Dashed(t.Text()) + "-" + j + ("." + rest);
            && (LexLess(m, n) <==> PairLess(s, i, t, j))
            && (m == n <==> s == t && i == j)
  {
    NameParts(s, i, "." + rest);
    NameParts(t, j, "." + rest);
    SymbolOrder(s, t);
    LexIrreflexive(rest);
    LexIrreflexive(s.base);
    LexIrreflexive(s.quote);
    hide Dashed;
    hide LexLess;
    assert Above(s.base, '-') && Above(t.base, '-') && Above(s.quote, '-') && Above(t.quote, '-');
    LexWords(s.base, t.base, '-', s.quote + ("-" + (i + ("." + rest))), t.quote + ("-" + (j + ("." + rest))));
    LexWords(s.quote, t.quote, '-', i + ("." + rest), j + ("." + rest));
    LexWords(i, j, '.', rest, rest);
  }

  /** The raw file name identifies the pair and sorts like it, so files listed by (symbol, interval) are listed by name;
      the failure file name identifies the pair as well. */
  lemma RawNameOrder(s: MarketSymbol, i: string, t: MarketSymbol, j: string)
    requires s.Canonical() && t.Canonical() && IntervalWord(i) && IntervalWord(j)
    ensures LexLess(RawOutputName(s.Text(), i), RawOutputName(t.Text(), j)) <==> PairLess(s, i, t, j)
    ensures RawOutputName(s.Text(), i) == RawOutputName(t.Text(), j) <==> s == t && i == j
    ensures FailureOutputName(s.Text(), i) == FailureOutputName(t.Text(), j) <==> s == t && i == j
  {
    assert "." + "jsonl" == ".jsonl" && "." + "failures.jsonl" == ".failures.jsonl";
    hide *;
    NameOrder(s, i, t, j, "jsonl");
    NameOrder(s, i, t, j, "failures.jsonl");
    NamesUnfold(s.Text(), i);
    NamesUnfold(t.Text(), j);
  }

  lemma NamesUnfold(symbol: string, interval: string)
    ensures RawOutputName(symbol, interval) == Dashed(symbol) + "-" + interval + ("." + "jsonl")
    ensures FailureOutputName(symbol, interval) == Dashed(symbol) + "-" + interval + ("." + "failures.jsonl")
  {
    assert "." + "jsonl" == ".jsonl" && "." + "failures.jsonl" == ".failures.jsonl";
  }

  // ---------------------------------------------------------------- ISO-8601 text

  function DigitChar(d: int): (c: char)
    requires 0 <= d < 10
    ensures '0' <= c <= '9'
  {
    '0' + d as char
  }

  /** Exactly `width` decimal digits. */
  function Padded(n: nat, width: nat): (s: string)
    ensures |s| == width
  {
    if width == 0 then "" else Padded(n / 10, width - 1) + [DigitChar(n % 10)]
  }

  const UTC_ZONE := "+00:00"

  /** `isoformat()` of an aware timestamp: its local time, then the text of its zone. */
  function ZonedText(t: DateTime, zone: string): string
    requires t.Valid()
  {
    Padded(t.year, 4) + ("-" + (Padded(t.month, 2) + ("-" + (Padded(t.day, 2) + ("T" + ClockText(t.clock, zone))))))
  }

  function ClockText(clock: nat, zone: string): string {
    Padded(clock / 3_600_000_000, 2) + (":" + (Padded(clock / 60_000_000 % 60, 2) + (":" +
      (Padded(clock / 1_000_000 % 60, 2) + FractionText(clock % 1_000_000, zone)))))
  }

  function FractionText(micros: nat, zone: string): string {
    if micros == 0 then zone else "." + (Padded(micros, 6) + zone)
  }

  /** Of a UTC timestamp. */
  function IsoText(t: DateTime): string
    requires t.Valid()
  {
    ZonedText(t, UTC_ZONE)
  }

  const LEAP_DAY := DateTime(2024, 2, 29, 18_367_000_008)

  /** Concretely, piece by piece: 2024-02-29T05:06:07.000008+00:00. */
  lemma IsoExample()
    ensures LEAP_DAY.Valid()
    ensures IsoText(LEAP_DAY) ==
              "2024" + ("-" + ("02" + ("-" + ("29" + ("T" + ("05" + (":" + ("06" + (":" + ("07" + ("." + ("000008" + "+00:00"))))))))))))
  {
    hide Padded, ZonedText, IsoText, MonthLength;
    LeapParts();
    PaddedYear();
    PaddedPairs();
    PaddedMicros();
  }

  lemma LeapParts()
    ensures LEAP_DAY.Valid()
    ensures IsoText(LEAP_DAY) ==
              Padded(2024, 4) + ("-" + (Padded(2, 2) + ("-" + (Padded(29, 2) + ("T" + (Padded(5, 2) + (":" + (Padded(6, 2) + (":" +
                (Padded(7, 2) + ("." + (Padded(8, 6) + "+00:00"))))))))))))
  {
    hide Padded;
    assert LEAP_DAY.Valid();
    hide MonthLength;
    var clock := LEAP_DAY.clock;
    assert clock / 3_600_000_000 == 5 && clock / 60_000_000 % 60 == 6 && clock / 1_000_000 % 60 == 7 && clock % 1_000_000 == 8;
  }

  lemma PaddedYear()
    ensures Padded(2024, 4) == "2024"
  {
    assert Padded(202, 3) == "202";
  }

  lemma PaddedPairs()
    ensures Padded(2, 2) == "02" && Padded(29, 2) == "29" && Padded(5, 2) == "05" && Padded(6, 2) == "06" && Padded(7, 2) == "07"
  {
  }

  lemma PaddedMicros()
    ensures Padded(8, 6) == "000008"
  {
    assert Padded(0, 3) == "000";
    assert Padded(0, 5) == "00000";
  }

  /** The text of a zone starts with its sign; both signs sort before the point of a fraction. */
  predicate Zone(zone: string) { zone != "" && (zone[0] == '+' || zone[0] == '-') }

  /** Strictly earlier local time, field by field. */
  predicate EarlierLocal(a: DateTime, b: DateTime)
    requires a.Valid() && b.Valid()
  {
    a.MonthIndex() < b.MonthIndex() || (a.MonthIndex() == b.MonthIndex() && (a.day < b.day || (a.day == b.day && a.clock < b.clock)))
  }

  lemma {:induction false} PaddedOrder(m: nat, n: nat, width: nat, x: string, y: string)
    requires m < n < Decimals.Pow10(width)
    ensures LexLess(Padded(m, width) + x, Padded(n, width) + y)
  {
    assert width > 0;
    var u, v := [DigitChar(m % 10)] + x, [DigitChar(n % 10)] + y;
    assert Padded(m, width) + x == Padded(m / 10, width - 1) + u;
    assert Padded(n, width) + y == Padded(n / 10, width - 1) + v;
    if m / 10 < n / 10 {
      PaddedOrder(m / 10, n / 10, width - 1, u, v);
    } else {
      LexPrefix(Padded(m / 10, width - 1), u, v);
    }
  }

  /** One field of a fixed-width text, compared before what follows it. */
  lemma FieldOrder(m: nat, n: nat, width: nat, x: string, y: string)
    requires m < Decimals.Pow10(width) && n < Decimals.Pow10(width)
    requires m < n || (m == n && LexLess(x, y))
    ensures LexLess(Padded(m, width) + x, Padded(n, width) + y)
  {
    if m < n {
      PaddedOrder(m, n, width, x, y);
    } else {
      LexPrefix(Padded(m, width), x, y);
    }
  }

  lemma FractionOrder(m: nat, n: nat, zone: string, zone': string)
    requires m < n < 1_000_000 && Zone(zone)
    ensures LexLess(FractionText(m, zone), FractionText(n, zone'))
  {
    assert Decimals.Pow10(6) == 1_000_000;
    if m > 0 {
      PaddedOrder(m, n, 6, zone, zone');
      hide Padded;
      LexPrefix(".", Padded(m, 6) + zone, Padded(n, 6) + zone');
    }
  }

  lemma SplitClock(a: nat, b: nat)
    requires a < b
    ensures var (h, i, s, f) := (a / 3_600_000_000, a / 60_000_000 % 60, a / 1_000_000 % 60, a % 1_000_000);
            var (h', i', s', f') := (b / 3_600_000_000, b / 60_000_000 % 60, b / 1_000_000 % 60, b % 1_000_000);
            h < h' || (h == h' && (i < i' || (i == i' && (s < s' || (s == s' && f < f')))))
  {
    ClockParts(a);
    ClockParts(b);
    var (q, q') := (a / 1_000_000, b / 1_000_000);
    assert q < q' || (q == q' && a % 1_000_000 < b % 1_000_000);
    assert q < q' ==> q / 60 < q' / 60 || (q / 60 == q' / 60 && q % 60 < q' % 60);
  }

  lemma ClockParts(a: nat)
    ensures a / 60_000_000 == a / 1_000_000 / 60 && a / 3_600_000_000 == a / 1_000_000 / 60 / 60
  {
  }

  lemma ClockOrder(a: nat, b: nat, zone: string, zone': string)
    requires a < b < US_PER_DAY && Zone(zone)
    ensures LexLess(ClockText(a, zone), ClockText(b, zone'))
  {
    SplitClock(a, b);
    assert Decimals.Pow10(2) == 100;
    var (h, i, s, f) := (a / 3_600_000_000, a / 60_000_000 % 60, a / 1_000_000 % 60, a % 1_000_000);
    var (h', i', s', f') := (b / 3_600_000_000, b / 60_000_000 % 60, b / 1_000_000 % 60, b % 1_000_000);
    hide Padded;
    hide FractionText;
    if f < f' { FractionOrder(f, f', zone, zone'); }
    var t, t' := FractionText(f, zone), FractionText(f', zone');
    var x, x' := Padded(s, 2) + t, Padded(s', 2) + t';
    if s < s' || (s == s' && f < f') { FieldOrder(s, s', 2, t, t'); LexPrefix(":", x, x'); }
    var y, y' := Padded(i, 2) + (":" + x), Padded(i', 2) + (":" + x');
    if i < i' || (i == i' && (s < s' || (s == s' && f < f'))) { FieldOrder(i, i', 2, ":" + x, ":" + x'); LexPrefix(":", y, y'); }
    FieldOrder(h, h', 2, ":" + y, ":" + y');
  }

  lemma EarlierText(a: DateTime, zone: string, b: DateTime, zone': string)
    requires a.Valid() && b.Valid() && EarlierLocal(a, b) && Zone(zone)
    ensures LexLess(ZonedText(a, zone), ZonedText(b, zone'))
  {
    assert Decimals.Pow10(2) == 100 && Decimals.Pow10(4) == 10_000;
    hide Padded;
    hide ClockText;
    hide StartDay;
    hide MonthLength;
    var c, c' := ClockText(a.clock, zone), ClockText(b.clock, zone');
    var x, x' := "T" + c, "T" + c';
    if a.clock < b.clock { ClockOrder(a.clock, b.clock, zone, zone'); LexPrefix("T", c, c'); }
    var y, y' := Padded(a.day, 2) + x, Padded(b.day, 2) + x';
    if a.day < b.day || (a.day == b.day && a.clock < b.clock) { FieldOrder(a.day, b.day, 2, x, x'); LexPrefix("-", y, y'); }
    var z, z' := Padded(a.month, 2) + ("-" + y), Padded(b.month, 2) + ("-" + y');
    if a.month < b.month || (a.month == b.month && (a.day < b.day || (a.day == b.day && a.clock < b.clock))) {
      FieldOrder(a.month, b.month, 2, "-" + y, "-" + y');
      LexPrefix("-", z, z');
    }
    FieldOrder(a.year, b.year, 4, "-" + z, "-" + z');
  }

  /** The zone comes last. */
  lemma ZoneLast(t: DateTime, zone: string)
    requires t.Valid()
    ensures ZonedText(t, zone) == ZonedText(t, "") + zone
  {
    hide Padded;
    hide MonthLength;
    ClockZoneLast(t.clock, zone);
    hide ClockText;
    var c := ClockText(t.clock, "");
    assert ZonedText(t, zone) ==
           Padded(t.year, 4) + ("-" + (Padded(t.month, 2) + ("-" + (Padded(t.day, 2) + ("T" + (c + zone))))));
    Together(Padded(t.year, 4), "-" + (Padded(t.month, 2) + ("-" + (Padded(t.day, 2) + ("T" + c)))), zone);
    Together("-", Padded(t.month, 2) + ("-" + (Padded(t.day, 2) + ("T" + c))), zone);
    Together(Padded(t.month, 2), "-" + (Padded(t.day, 2) + ("T" + c)), zone);
    Together("-", Padded(t.day, 2) + ("T" + c), zone);
    Together(Padded(t.day, 2), "T" + c, zone);
    Together("T", c, zone);
  }

  lemma ClockZoneLast(clock: nat, zone: string)
    ensures ClockText(clock, zone) == ClockText(clock, "") + zone
  {
    hide Padded;
    var f := FractionText(clock % 1_000_000, "");
    assert FractionText(clock % 1_000_000, zone) == f + zone by {
      if clock % 1_000_000 == 0 {
        assert f + zone == zone;
      } else {
        assert Padded(clock % 1_000_000, 6) + "" == Padded(clock % 1_000_000, 6);
        Together(".", Padded(clock % 1_000_000, 6), zone);
      }
    }
    hide FractionText;
    var (h, i, s) := (Padded(clock / 3_600_000_000, 2), Padded(clock / 60_000_000 % 60, 2), Padded(clock / 1_000_000 % 60, 2));
    Together(h, ":" + (i + (":" + (s + f))), zone);
    Together(":", i + (":" + (s + f)), zone);
    Together(i, ":" + (s + f), zone);
    Together(":", s + f, zone);
    Together(s, f, zone);
  }

  lemma Together(x: string, y: string, z: string)
    ensures (x + y) + z == x + (y + z)
  {
  }

  lemma LocalTrichotomy(a: DateTime, b: DateTime)
    requires a.Valid() && b.Valid()
    ensures a == b || EarlierLocal(a, b) || EarlierLocal(b, a)
    ensures EarlierLocal(a, b) ==> a.Instant() < b.Instant()
    ensures EarlierLocal(b, a) ==> b.Instant() < a.Instant()
  {
    hide StartDay;
    hide MonthLength;
    if EarlierLocal(a, b) { InstantOrder(a, b); }
    if EarlierLocal(b, a) { InstantOrder(b, a); }
    hide DateTime.Instant;
  }

  /** Texts with zones compare by local time, and then by the text of the zone. */
  lemma ZonedOrder(a: DateTime, zone: string, b: DateTime, zone': string)
    requires a.Valid() && b.Valid() && Zone(zone) && Zone(zone')
    ensures LexLess(ZonedText(a, zone), ZonedText(b, zone')) <==> a.Instant() < b.Instant() || (a == b && LexLess(zone, zone'))
    ensures ZonedText(a, zone) == ZonedText(b, zone') <==> a == b && zone == zone'
  {
    LocalTrichotomy(a, b);
    hide ZonedText, LexLess, DateTime.Instant, EarlierLocal;
    if a == b {
      ZoneLast(a, zone);
      ZoneLast(a, zone');
      LexPrefix(ZonedText(a, ""), zone, zone');
      if ZonedText(a, "") + zone == ZonedText(a, "") + zone' {
        assert zone == (ZonedText(a, "") + zone)[|ZonedText(a, "")|..] == zone';
      }
    } else if EarlierLocal(a, b) {
      EarlierText(a, zone, b, zone');
      LexIrreflexive(ZonedText(a, zone));
    } else {
      EarlierText(b, zone', a, zone);
      LexAsymmetric(ZonedText(b, zone'), ZonedText(a, zone));
      LexIrreflexive(ZonedText(a, zone));
    }
  }

  /** For UTC timestamps, with or without a fraction, text order is time order, and equal texts are equal instants. */
  lemma IsoOrder(a: DateTime, b: DateTime)
    requires a.Valid() && b.Valid()
    ensures LexLess(IsoText(a), IsoText(b)) <==> a.Instant() < b.Instant()
    ensures IsoText(a) == IsoText(b) <==> a.Instant() == b.Instant()
  {
    ZonedOrder(a, UTC_ZONE, b, UTC_ZONE);
    LexIrreflexive(UTC_ZONE);
    hide ZonedText, LexLess, DateTime.Instant;
    if a.Instant() == b.Instant() { InstantInjective(a, b); }
  }
}
