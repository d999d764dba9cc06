/** `canonical_decimal` of packages/market_data/datasets/research_format.py: parsing a decimal literal, printing it in fixed
    point, and the normal form that results. */
module Decimals {
  import opened Wrappers

  const MAX_CANONICAL_CHARS := 4_096

  predicate IsDigit(c: char) { '0' <= c <= '9' }

  predicate AllDigits(s: string) { forall i :: 0 <= i < |s| ==> IsDigit(s[i]) }

  function Zeros(k: nat): (s: string)
    ensures |s| == k && AllDigits(s)
  {
    seq(k, _ => '0')
  }

  // ---------------------------------------------------------------- the accepted literals

  datatype ExponentPart = ExponentPart(mark: char, sign: string, digits: string)

  /** The groups of the accepted pattern: optional sign, digits with an optional point, optional exponent. */
  datatype Literal = Literal(sign: string, whole: string, point: bool, fraction: string, exponent: Option<ExponentPart>)

  predicate IsSign(s: string) { s == "" || s == "+" || s == "-" }

  predicate WellFormed(l: Literal) {
    && IsSign(l.sign) && AllDigits(l.whole) && AllDigits(l.fraction)
    && (!l.point ==> l.fraction == "")
    && (l.whole == "" ==> l.fraction != "")
    && (l.exponent.Some? ==>
          var e := l.exponent.value;
          (e.mark == 'e' || e.mark == 'E') && IsSign(e.sign) && e.digits != "" && AllDigits(e.digits))
  }

  function ExponentText(e: Option<ExponentPart>): string {
    match e
    case None => ""
    case Some(part) => [part.mark] + part.sign + part.digits
  }

  function Spell(l: Literal): string {
    l.sign + (l.whole + ((if l.point then "." else "") + (l.fraction + ExponentText(l.exponent))))
  }

  function SignRun(s: string): nat {
    if s != "" && (s[0] == '+' || s[0] == '-') then 1 else 0
  }

  function DigitRun(s: string): (n: nat)
    ensures n <= |s| && AllDigits(s[..n])
    ensures n < |s| ==> !IsDigit(s[n])
  {
    if s == "" || !IsDigit(s[0]) then 0 else 1 + DigitRun(s[1..])
  }

  lemma {:induction false} DigitRunUnique(digits: string, rest: string)
    requires AllDigits(digits) && (rest == "" || !IsDigit(rest[0]))
    ensures DigitRun(digits + rest) == |digits|
    ensures (digits + rest)[..|digits|] == digits && (digits + rest)[|digits|..] == rest
  {
    if digits != "" {
      DigitRunUnique(digits[1..], rest);
      assert (digits + rest)[0] == digits[0] && IsDigit(digits[0]);
      assert (digits + rest)[1..] == digits[1..] + rest;
    } else {
      assert digits + rest == rest;
    }
  }

  function ParseExponent(s: string): Option<Option<ExponentPart>> {
    if s == "" then Some(None)
    else if s[0] != 'e' && s[0] != 'E' then None
    else
      var k := 1 + SignRun(s[1..]);
      if k < |s| && DigitRun(s[k..]) == |s| - k then Some(Some(ExponentPart(s[0], s[1..k], s[k..]))) else None
  }

  /** The digits and the point at the front of a text, and what follows them. */
  datatype Mantissa = Mantissa(whole: string, point: bool, fraction: string, rest: string)

  function MantissaText(m: Mantissa): string {
    m.whole + ((if m.point then "." else "") + (m.fraction + m.rest))
  }

  function ParseMantissa(s: string): Mantissa {
    var a := DigitRun(s);
    if a < |s| && s[a] == '.' then
      var tail := s[a + 1..];
      Mantissa(s[..a], true, tail[..DigitRun(tail)], tail[DigitRun(tail)..])
    else Mantissa(s[..a], false, "", s[a..])
  }

  /** Full match of the accepted pattern, read from left to right. */
  function Parse(s: string): Option<Literal> {
    var k := SignRun(s);
    var m := ParseMantissa(s[k..]);
    if m.whole == "" && m.fraction == "" then None
    else match ParseExponent(m.rest)
      case None => None
      case Some(exponent) => Some(Literal(s[..k], m.whole, m.point, m.fraction, exponent))
  }

  lemma MantissaSound(s: string)
    ensures var m := ParseMantissa(s);
            MantissaText(m) == s && AllDigits(m.whole) && AllDigits(m.fraction) && (!m.point ==> m.fraction == "")
  {
    var m := ParseMantissa(s);
    var a := DigitRun(s);
    if m.point {
      SplitRun(s[a + 1..]);
      assert "." + s[a + 1..] == s[a..];
    } else {
      assert "" + ("" + m.rest) == m.rest;
    }
    SplitRun(s);
  }

  lemma SplitRun(s: string)
    ensures s[..DigitRun(s)] + s[DigitRun(s)..] == s
  {
  }

  lemma MantissaComplete(m: Mantissa)
    requires AllDigits(m.whole) && AllDigits(m.fraction) && (!m.point ==> m.fraction == "")
    requires m.rest == "" || (!IsDigit(m.rest[0]) && m.rest[0] != '.')
    ensures ParseMantissa(MantissaText(m)) == m
  {
    var s := MantissaText(m);
    var after := (if m.point then "." else "") + (m.fraction + m.rest);
    DigitRunUnique(m.whole, after);
    if m.point {
      assert after[1..] == m.fraction + m.rest;
      assert s[|m.whole| + 1..] == after[1..];
      assert s[|m.whole|] == '.';
      DigitRunUnique(m.fraction, m.rest);
    } else {
      assert after == m.rest;
      assert |m.whole| < |s| ==> s[|m.whole|] == m.rest[0];
    }
  }

  lemma ParseExponentSound(s: string)
    requires ParseExponent(s).Some?
    ensures ExponentText(ParseExponent(s).value) == s
    ensures WellFormed(Literal("", "0", false, "", ParseExponent(s).value))
  {
    if s != "" {
      var k := 1 + SignRun(s[1..]);
      assert s == [s[0]] + s[1..k] + s[k..];
      assert s[k..][..DigitRun(s[k..])] == s[k..];
      assert k == 2 ==> s[1..k] == [s[1]];
    }
  }

  lemma ParseExponentComplete(e: Option<ExponentPart>)
    requires WellFormed(Literal("", "0", false, "", e))
    ensures ParseExponent(ExponentText(e)) == Some(e)
  {
    if e.Some? {
      var s, k := ExponentText(e), 1 + |e.value.sign|;
      assert s[1..] == e.value.sign + e.value.digits;
      assert s[k..] == e.value.digits;
      DigitRunUnique(e.value.digits, "");
      assert e.value.digits + "" == e.value.digits;
      assert s[1..k] == e.value.sign;
    }
  }

  /** Parsing inverts spelling, both ways: the pattern is unambiguous, and exactly the well-formed literals match it. */
  lemma ParseSound(s: string)
    requires Parse(s).Some?
    ensures WellFormed(Parse(s).value) && Spell(Parse(s).value) == s
  {
    hide ParseMantissa;
    hide ParseExponent;
    var k := SignRun(s);
    var m := ParseMantissa(s[k..]);
    MantissaSound(s[k..]);
    ParseExponentSound(m.rest);
    assert s[..k] + s[k..] == s;
    assert k == 1 ==> s[..k] == [s[0]];
  }

  lemma ParseComplete(l: Literal)
    requires WellFormed(l)
    ensures Parse(Spell(l)) == Some(l)
  {
    hide ParseMantissa;
    hide ParseExponent;
    hide ExponentText;
    var m := Mantissa(l.whole, l.point, l.fraction, ExponentText(l.exponent));
    ExponentStart(l.exponent);
    MantissaComplete(m);
    ParseExponentComplete(l.exponent);
    MantissaStart(m);
    assert Spell(l) == l.sign + MantissaText(m);
    hide MantissaText;
    SignSplit(l.sign, MantissaText(m));
  }

  lemma SignSplit(sign: string, t: string)
    requires IsSign(sign) && t != "" && t[0] != '+' && t[0] != '-'
    ensures SignRun(sign + t) == |sign|
    ensures (sign + t)[|sign|..] == t && (sign + t)[..|sign|] == sign
  {
    assert sign == "" ==> sign + t == t;
  }

  lemma ExponentStart(e: Option<ExponentPart>)
    requires e.Some? ==> e.value.mark == 'e' || e.value.mark == 'E'
    ensures var t := ExponentText(e); t == "" || t[0] == 'e' || t[0] == 'E'
  {
  }

  lemma MantissaStart(m: Mantissa)
    requires AllDigits(m.whole) && (m.whole == "" ==> m.point)
    ensures var t := MantissaText(m); t != "" && t[0] != '+' && t[0] != '-'
  {
    var t := MantissaText(m);
    assert m.whole != "" ==> t[0] == m.whole[0];
    assert m.whole == "" ==> t[0] == '.';
  }

  // ---------------------------------------------------------------- numbers

  function DigitValue(c: char): nat
    requires IsDigit(c)
  {
    (c - '0') as nat
  }

  function NatOf(s: string): nat
    requires AllDigits(s)
  {
    if s == "" then 0 else 10 * NatOf(s[..|s| - 1]) + DigitValue(s[|s| - 1])
  }

  function Pow10(k: nat): nat {
    if k == 0 then 1 else 10 * Pow10(k - 1)
  }

  lemma {:induction false} Pow10Positive(k: nat)
    ensures Pow10(k) > 0
  {
    if k > 0 { Pow10Positive(k - 1); }
  }

  /** The real number ten to the power `e`. */
  function Scale(e: int): real {
    if e >= 0 then Pow10(e) as real else (Pow10Positive(-e); 1.0 / (Pow10(-e) as real))
  }

  /** What Python's `Decimal` stores: sign, coefficient digits and exponent. */
  datatype Decimal = Decimal(negative: bool, digits: string, exponent: int)

  /** The coefficient of a `Decimal` has no superfluous leading zeros. */
  predicate Normal(d: Decimal) {
    d.digits != "" && AllDigits(d.digits) && (|d.digits| > 1 ==> d.digits[0] != '0')
  }

  function Value(d: Decimal): real
    requires AllDigits(d.digits)
  {
    var m := (NatOf(d.digits) as real) * Scale(d.exponent);
    if d.negative then -m else m
  }

  function StripLeading(s: string): (r: string)
    requires s != "" && AllDigits(s)
    ensures r != "" && AllDigits(r) && (|r| > 1 ==> r[0] != '0')
    ensures |r| <= |s| && s == Zeros(|s| - |r|) + r
  {
    if |s| > 1 && s[0] == '0' then StripLeading(s[1..]) else s
  }

  function ExponentValue(e: Option<ExponentPart>): int
    requires e.Some? ==> AllDigits(e.value.digits)
  {
    match e
    case None => 0
    case Some(part) => if part.sign == "-" then 0 - NatOf(part.digits) else NatOf(part.digits)
  }

  function ToDecimal(l: Literal): (d: Decimal)
    requires WellFormed(l)
    ensures Normal(d)
  {
    Decimal(l.sign == "-", StripLeading(l.whole + l.fraction), ExponentValue(l.exponent) - |l.fraction|)
  }

  /** The number a text denotes. */
  function NumberOf(s: string): real
    requires Parse(s).Some?
  {
    ParseSound(s);
    Value(ToDecimal(Parse(s).value))
  }

  // ---------------------------------------------------------------- printing

  predicate IsZero(d: Decimal) { forall i :: 0 <= i < |d.digits| ==> d.digits[i] == '0' }

  /** `format(d, "f")`. */
  function FixedPoint(d: Decimal): string
    requires Normal(d)
  {
    var n := |d.digits|;
    (if d.negative then "-" else "") +
    if d.exponent >= 0 then (if IsZero(d) then "0" else d.digits + Zeros(d.exponent))
    else if n + d.exponent > 0 then d.digits[..n + d.exponent] + "." + d.digits[n + d.exponent..]
    else "0." + Zeros(-(n + d.exponent)) + d.digits
  }

  function FixedPointLength(d: Decimal): int {
    var sign := if d.negative then 1 else 0;
    var n := |d.digits|;
    if IsZero(d) && d.exponent >= 0 then sign + 1
    else if d.exponent >= 0 then sign + n + d.exponent
    else if n + d.exponent > 0 then sign + n + 1
    else sign + 2 - d.exponent
  }

  function StripRight(s: string, c: char): string {
    if s != "" && s[|s| - 1] == c then StripRight(s[..|s| - 1], c) else s
  }

  datatype DecimalError = DecimalInvalid

  function CanonicalDecimal(s: string): Result<string, DecimalError> {
    match Parse(s)
    case None => Err(DecimalInvalid)
    case Some(literal) =>
      ParseSound(s);
      var d := ToDecimal(literal);
      if FixedPointLength(d) > MAX_CANONICAL_CHARS then Err(DecimalInvalid)
      else
        var text := FixedPoint(d);
        var stripped := if '.' in text then StripRight(StripRight(text, '0'), '.') else text;
        Ok(if stripped == "-0" then "0" else stripped)
  }

  /** The closed formula is the exact length of the printed text, for every sign, coefficient and exponent. */
  lemma LengthFormulaExact(d: Decimal)
    requires Normal(d)
    ensures |FixedPoint(d)| == FixedPointLength(d)
  {
  }

  // ---------------------------------------------------------------- the normal form

  /** A number written without exponent. */
  datatype Plain = Plain(negative: bool, whole: string, fraction: string)

  predicate PlainDigits(p: Plain) {
    && p.whole != "" && AllDigits(p.whole) && AllDigits(p.fraction)
    && (|p.whole| > 1 ==> p.whole[0] != '0')
  }

  /** No superfluous zero on either side, and zero has no sign. */
  predicate Canonical(p: Plain) {
    && PlainDigits(p)
    && (p.fraction != "" ==> p.fraction[|p.fraction| - 1] != '0')
    && !(p.negative && p.whole == "0" && p.fraction == "")
  }

  function Show(p: Plain): string {
    (if p.negative then "-" else "") + (p.whole + if p.fraction == "" then "" else "." + p.fraction)
  }

  function PlainValue(p: Plain): real
    requires PlainDigits(p)
  {
    Value(Decimal(p.negative, p.whole + p.fraction, -|p.fraction|))
  }

  lemma {:induction false} NatOfZeros(k: nat, s: string)
    requires AllDigits(s)
    ensures NatOf(Zeros(k) + s) == NatOf(s)
    decreases |s|, k
  {
    var t := Zeros(k) + s;
    if s != "" {
      assert t[..|t| - 1] == Zeros(k) + s[..|s| - 1];
      NatOfZeros(k, s[..|s| - 1]);
    } else if k > 0 {
      assert t[..|t| - 1] == Zeros(k - 1) + s;
      NatOfZeros(k - 1, s);
    }
  }

  lemma {:induction false} NatOfShift(s: string, k: nat)
    requires AllDigits(s)
    ensures NatOf(s + Zeros(k)) == NatOf(s) * Pow10(k)
  {
    var t := s + Zeros(k);
    if k == 0 {
      assert t == s;
    } else {
      assert t[..|t| - 1] == s + Zeros(k - 1);
      NatOfShift(s, k - 1);
      Pow10Step(k - 1);
      TimesTen(NatOf(s), Pow10(k - 1));
    }
  }

  lemma {:induction false} NatOfBound(s: string)
    requires AllDigits(s)
    ensures NatOf(s) < Pow10(|s|)
    ensures s != "" && s[0] != '0' ==> NatOf(s) >= Pow10(|s| - 1)
  {
    if s != "" {
      var init := s[..|s| - 1];
      NatOfBound(init);
      if init != "" { assert init[0] == s[0]; }
    }
  }

  lemma {:induction false} NatOfInjective(s: string, t: string)
    requires AllDigits(s) && AllDigits(t) && |s| == |t| && NatOf(s) == NatOf(t)
    ensures s == t
  {
    if s != "" {
      var m := |s| - 1;
      NatOfStep(s);
      NatOfStep(t);
      hide NatOf;
      NatOfInjective(s[..m], t[..m]);
      assert s == s[..m] + [s[m]] && t == t[..m] + [t[m]];
    }
  }

  lemma ScaleStep(e: int)
    ensures Scale(e) * 10.0 == Scale(e + 1)
  {
    if e < 0 {
      Pow10Positive(-e);
      Pow10Positive(-e - 1);
      var p := Pow10(-e - 1) as real;
      assert Pow10(-e) as real == 10.0 * p;
      assert 1.0 / (10.0 * p) * 10.0 == 1.0 / p;
    }
  }

  lemma Regroup(x: real, y: real, z: real)
    ensures (x * y) * z == x * (y * z)
  {
  }

  lemma Pow10Step(k: nat)
    ensures Pow10(k + 1) == 10 * Pow10(k)
    ensures Pow10(k + 1) as real == 10.0 * (Pow10(k) as real)
  {
  }

  lemma {:induction false} ScaleShift(e: int, k: nat)
    ensures (Pow10(k) as real) * Scale(e) == Scale(e + k)
  {
    hide *;
    if k == 0 {
      Pow10Zero();
    } else {
      ScaleShift(e, k - 1);
      ScaleStep(e + k - 1);
      Pow10Step(k - 1);
      ShiftAlgebra(Pow10(k - 1) as real, Scale(e), Scale(e + k - 1));
    }
  }

  lemma Pow10Zero()
    ensures Pow10(0) == 1
  {
  }

  lemma ScaleOfNat(k: nat)
    ensures Scale(k) == Pow10(k) as real
  {
  }

  lemma ShiftAlgebra(p: real, x: real, y: real)
    requires p * x == y
    ensures (10.0 * p) * x == y * 10.0
  {
    Regroup(10.0, p, x);
  }

  /** Zeros appended to the coefficient are paid for by the exponent. */
  lemma ShiftKeepsValue(negative: bool, s: string, e: int, k: nat)
    requires AllDigits(s)
    ensures Value(Decimal(negative, s + Zeros(k), e)) == Value(Decimal(negative, s, e + k))
  {
    hide NatOf;
    hide Pow10;
    hide Scale;
    NatOfShift(s, k);
    ScaleShift(e, k);
    IntProduct(NatOf(s), Pow10(k));
    Regroup(NatOf(s) as real, Pow10(k) as real, Scale(e));
  }

  lemma IntProduct(x: int, y: int)
    ensures (x * y) as real == (x as real) * (y as real)
  {
  }

  /** The printed number before trailing zeros are dropped. */
  function Unstripped(d: Decimal): (p: Plain)
    requires Normal(d)
    ensures PlainDigits(p) && p.negative == d.negative
    ensures p.fraction == "" <==> d.exponent >= 0
  {
    var n := |d.digits|;
    if d.exponent >= 0 then
      if IsZero(d) then Plain(d.negative, "0", "")
      else Plain(d.negative, d.digits + Zeros(d.exponent), "")
    else if n + d.exponent > 0 then Plain(d.negative, d.digits[..n + d.exponent], d.digits[n + d.exponent..])
    else Plain(d.negative, "0", Zeros(-(n + d.exponent)) + d.digits)
  }

  lemma UnstrippedShows(d: Decimal)
    requires Normal(d)
    ensures FixedPoint(d) == Show(Unstripped(d))
  {
    var p, n := Unstripped(d), |d.digits|;
    assert p.whole + "" == p.whole;
    assert "0" + ("." + p.fraction) == "0." + p.fraction;
    if d.exponent < 0 && n + d.exponent <= 0 {
      assert "0." + Zeros(-(n + d.exponent)) + d.digits == "0" + ("." + p.fraction);
    }
  }

  lemma UnstrippedValue(d: Decimal)
    requires Normal(d)
    ensures PlainValue(Unstripped(d)) == Value(d)
  {
    hide NatOf;
    hide Scale;
    var p, n := Unstripped(d), |d.digits|;
    assert p.whole + "" == p.whole;
    if d.exponent >= 0 {
      if IsZero(d) {
        assert d.digits[0] == '0';
        assert d.digits == "0" == p.whole + p.fraction;
        ZeroValue(d.negative, d.exponent);
        ZeroValue(d.negative, -|p.fraction|);
      } else {
        ShiftKeepsValue(d.negative, d.digits, 0, d.exponent);
      }
    } else if n + d.exponent > 0 {
      assert d.digits[..n + d.exponent] + d.digits[n + d.exponent..] == d.digits;
    } else {
      assert p.whole + p.fraction == Zeros(1 - n - d.exponent) + d.digits;
      NatOfZeros(1 - n - d.exponent, d.digits);
    }
  }

  lemma ZeroValue(negative: bool, e: int)
    ensures AllDigits("0") && NatOf("0") == 0
    ensures Value(Decimal(negative, "0", e)) == 0.0
  {
    assert "0"[..0] == "";
  }

  lemma {:induction false} StripRightSplit(s: string, c: char) returns (k: nat)
    ensures s == StripRight(s, c) + seq(k, _ => c)
    ensures StripRight(s, c) == "" || StripRight(s, c)[|StripRight(s, c)| - 1] != c
  {
    if s != "" && s[|s| - 1] == c {
      k := StripRightSplit(s[..|s| - 1], c);
      assert s == s[..|s| - 1] + [c];
      k := k + 1;
    } else {
      k := 0;
    }
  }

  lemma {:induction false} StripRightAppend(head: string, tail: string, c: char)
    requires head == "" || head[|head| - 1] != c
    ensures StripRight(head + tail, c) == head + StripRight(tail, c)
  {
    var t := head + tail;
    if tail != "" {
      if tail[|tail| - 1] == c {
        assert t[..|t| - 1] == head + tail[..|tail| - 1];
        StripRightAppend(head, tail[..|tail| - 1], c);
      }
    } else {
      assert t == head;
    }
  }

  /** Dropping trailing zeros, then a trailing point, leaves the number with its fraction stripped. */
  lemma StripText(p: Plain)
    requires PlainDigits(p) && p.fraction != ""
    ensures StripRight(StripRight(Show(p), '0'), '.') == Show(p.(fraction := StripRight(p.fraction, '0')))
  {
    var signed := (if p.negative then "-" else "") + p.whole;
    var f := StripRight(p.fraction, '0');
    assert Show(p) == signed + "." + p.fraction;
    assert Show(p.(fraction := f)) == if f == "" then signed else signed + "." + f;
    assert signed != "" && IsDigit(signed[|signed| - 1]);
    hide Show;
    StripRightAppend(signed + ".", p.fraction, '0');
    StripPoint(signed, p.fraction);
  }

  lemma StripPoint(signed: string, fraction: string)
    requires signed != "" && IsDigit(signed[|signed| - 1]) && AllDigits(fraction)
    ensures var f := StripRight(fraction, '0');
            StripRight(signed + "." + f, '.') == if f == "" then signed else signed + "." + f
  {
    var f := StripRight(fraction, '0');
    var k := StripRightSplit(fraction, '0');
    hide StripRight;
    if f == "" {
      StripRightAppend(signed, ".", '.');
      StripOne('.');
      assert signed + "" == signed;
      assert signed + "." + "" == signed + ".";
    } else {
      assert IsDigit(fraction[|f| - 1]) && f[|f| - 1] == fraction[|f| - 1];
      StripNothing(signed + "." + f, '.');
    }
  }

  lemma StripOne(c: char)
    ensures StripRight([c], c) == ""
  {
    assert [c][..0] == "";
  }

  lemma StripNothing(s: string, c: char)
    requires s != "" && s[|s| - 1] != c
    ensures StripRight(s, c) == s
  {
  }

  /** The number `canonical_decimal` prints. */
  function Reduced(d: Decimal): (p: Plain)
    requires Normal(d)
  {
    var p := Unstripped(d);
    var f := StripRight(p.fraction, '0');
    Plain(p.negative && !(p.whole == "0" && f == ""), p.whole, f)
  }

  lemma StrippedFraction(p: Plain)
    requires PlainDigits(p)
    ensures var f := StripRight(p.fraction, '0');
            PlainDigits(p.(fraction := f)) && PlainValue(p.(fraction := f)) == PlainValue(p)
  {
    hide NatOf;
    hide Scale;
    hide Value;
    var f := StripRight(p.fraction, '0');
    var k := StripRightSplit(p.fraction, '0');
    hide StripRight;
    assert forall i :: 0 <= i < |f| ==> f[i] == p.fraction[i];
    assert p.whole + p.fraction == (p.whole + f) + Zeros(k);
    ShiftKeepsValue(p.negative, p.whole + f, -|p.fraction|, k);
  }

  lemma ReducedIsCanonical(d: Decimal)
    requires Normal(d)
    ensures Canonical(Reduced(d)) && PlainValue(Reduced(d)) == Value(d)
  {
    hide NatOf;
    hide Scale;
    hide Value;
    UnstrippedValue(d);
    hide Unstripped;
    var p := Unstripped(d);
    StrippedFraction(p);
    var k := StripRightSplit(p.fraction, '0');
    hide StripRight;
    var f := StripRight(p.fraction, '0');
    SignOfZero(p.negative, p.whole, f);
  }

  lemma SignOfZero(negative: bool, whole: string, fraction: string)
    requires AllDigits(whole + fraction) && whole != ""
    ensures whole == "0" && fraction == "" ==> PlainValue(Plain(negative, whole, fraction)) == PlainValue(Plain(false, whole, fraction))
  {
    hide NatOf, Scale, Value;
    if whole == "0" && fraction == "" {
      assert whole + fraction == "0";
      ZeroValue(true, 0);
      ZeroValue(false, 0);
    }
  }

  lemma CanonicalDecimalShows(s: string)
    requires CanonicalDecimal(s).Ok?
    ensures Parse(s).Some? && WellFormed(Parse(s).value)
    ensures CanonicalDecimal(s).value == Show(Reduced(ToDecimal(Parse(s).value)))
  {
    ParseSound(s);
    var d := ToDecimal(Parse(s).value);
    UnstrippedShows(d);
    var p := Unstripped(d);
    hide FixedPoint;
    hide Unstripped;
    hide Parse;
    hide ToDecimal;
    var text := Show(p);
    var sign := if p.negative then "-" else "";
    if p.fraction != "" {
      StripText(p);
      assert text[|sign| + |p.whole|] == '.';
    } else {
      assert text == sign + p.whole;
      assert forall i :: 0 <= i < |text| ==> text[i] != '.';
    }
    var q := p.(fraction := StripRight(p.fraction, '0'));
    MinusZero(q);
  }

  lemma MinusZero(q: Plain)
    requires q.whole != "" && AllDigits(q.whole)
    ensures Show(q) == "-0" <==> q.negative && q.whole == "0" && q.fraction == ""
    ensures Show(Plain(false, "0", "")) == "0"
  {
    if Show(q) == "-0" {
      assert IsDigit(q.whole[0]);
      assert Show(q)[if q.negative then 1 else 0] == q.whole[0];
      assert |Show(q)| >= |q.whole| + |q.fraction|;
    }
  }

  lemma ShowParses(p: Plain)
    requires PlainDigits(p)
    ensures var l := Literal(if p.negative then "-" else "", p.whole, p.fraction != "", p.fraction, None);
            WellFormed(l) && Show(p) == Spell(l) && Parse(Show(p)) == Some(l)
  {
    var l := Literal(if p.negative then "-" else "", p.whole, p.fraction != "", p.fraction, None);
    assert p.fraction + "" == p.fraction;
    ParseComplete(l);
  }

  /** The `Decimal` that a plain number is read as. */
  function ReadPlain(p: Plain): (d: Decimal)
    requires PlainDigits(p)
    ensures Normal(d)
  {
    Decimal(p.negative, StripLeading(p.whole + p.fraction), -|p.fraction|)
  }

  /** Reading a plain number and padding it again restores it. */
  lemma UnstrippedReadPlain(p: Plain)
    requires PlainDigits(p)
    ensures Unstripped(ReadPlain(p)) == p
  {
    var all := p.whole + p.fraction;
    var digits := StripLeading(all);
    if p.whole[0] != '0' || |all| == 1 {
      assert digits == all;
      hide StripLeading;
      assert all[..|p.whole|] == p.whole && all[|p.whole|..] == p.fraction;
      if p.fraction == "" {
        assert all == p.whole && all + Zeros(0) == all;
      }
    } else {
      assert p.whole == "0" && all[1..] == p.fraction;
      assert digits == StripLeading(p.fraction);
      hide StripLeading;
      assert p.fraction == Zeros(|p.fraction| - |digits|) + digits;
    }
  }

  lemma ReadsBack(p: Plain)
    requires PlainDigits(p)
    ensures Parse(Show(p)).Some? && WellFormed(Parse(Show(p)).value)
    ensures ToDecimal(Parse(Show(p)).value) == ReadPlain(p)
    ensures NumberOf(Show(p)) == PlainValue(p)
    ensures FixedPoint(ReadPlain(p)) == Show(p)
  {
    hide Parse;
    hide Show;
    hide FixedPoint;
    hide Value;
    hide Unstripped;
    ShowParses(p);
    UnstrippedReadPlain(p);
    UnstrippedValue(ReadPlain(p));
    UnstrippedShows(ReadPlain(p));
  }

  /** Exactly the literals whose fixed-point text fits the bound are accepted. */
  lemma Accepted(s: string)
    ensures CanonicalDecimal(s).Ok? <==>
            Parse(s).Some? && WellFormed(Parse(s).value) && |FixedPoint(ToDecimal(Parse(s).value))| <= 4_096
  {
    hide Parse;
    hide ToDecimal;
    hide FixedPoint;
    hide FixedPointLength;
    if Parse(s).Some? {
      ParseSound(s);
      LengthFormulaExact(ToDecimal(Parse(s).value));
    }
  }

  lemma ReducedReadPlain(p: Plain)
    requires Canonical(p)
    ensures Reduced(ReadPlain(p)) == p
  {
    hide Unstripped;
    hide ReadPlain;
    UnstrippedReadPlain(p);
    var k := StripRightSplit(p.fraction, '0');
    assert StripRight(p.fraction, '0') == p.fraction;
  }

  /** A canonical text that fits the bound is returned unchanged; in particular the bound never rejects an output. */
  lemma CanonicalTextIsFixed(p: Plain)
    requires Canonical(p) && |Show(p)| <= MAX_CANONICAL_CHARS
    ensures CanonicalDecimal(Show(p)) == Ok(Show(p))
    ensures Parse(Show(p)).Some? && NumberOf(Show(p)) == PlainValue(p)
  {
    assert PlainDigits(p);
    hide *;
    ReadsBack(p);
    Accepted(Show(p));
    CanonicalDecimalShows(Show(p));
    ReducedReadPlain(p);
  }

  /** Two canonical forms of the same number are the same. */
  lemma CanonicalUnique(p: Plain, q: Plain)
    requires Canonical(p) && Canonical(q) && PlainValue(p) == PlainValue(q)
    ensures p == q
  {
    if |p.fraction| <= |q.fraction| {
      SameMagnitude(p, q);
    } else {
      SameMagnitude(q, p);
    }
  }

  lemma ScaledMagnitude(s: string, f: int, k: int)
    requires AllDigits(s) && 0 <= f <= k
    ensures ((NatOf(s) as real) * Scale(-f)) * (Pow10(k) as real) == (NatOf(s) * Pow10(k - f)) as real
  {
    hide *;
    ScaleOfNat(k - f);
    ScaleShift(-f, k);
    IntProduct(NatOf(s), Pow10(k - f));
    MagnitudeAlgebra(NatOf(s) as real, Scale(-f), Pow10(k) as real, Scale(k - f));
  }

  lemma MagnitudeAlgebra(n: real, x: real, t: real, y: real)
    requires t * x == y
    ensures (n * x) * t == n * y
  {
    Regroup(n, x, t);
  }

  /** The value times a power of ten that clears both fractions is an integer. */
  lemma ScaledValue(p: Plain, k: int)
    requires PlainDigits(p) && |p.fraction| <= k
    ensures var x := NatOf(p.whole + p.fraction) * Pow10(k - |p.fraction|);
            PlainValue(p) * (Pow10(k) as real) == (if p.negative then 0 - x else x) as real
  {
    hide NatOf;
    hide Pow10;
    hide Scale;
    var f: int := |p.fraction|;
    ScaledMagnitude(p.whole + p.fraction, f, k);
    Negation((NatOf(p.whole + p.fraction) as real) * Scale(-f), Pow10(k) as real);
  }

  lemma Negation(x: real, y: real)
    ensures (-x) * y == -(x * y)
  {
  }

  lemma SameMagnitude(p: Plain, q: Plain)
    requires Canonical(p) && Canonical(q) && PlainValue(p) == PlainValue(q)
    requires |p.fraction| <= |q.fraction|
    ensures p == q
  {
    hide NatOf;
    hide Pow10;
    hide Value;
    var k: int := |q.fraction|;
    ScaledValue(p, k);
    ScaledValue(q, k);
    SameScaled(p, q);
  }

  lemma SameScaled(p: Plain, q: Plain)
    requires Canonical(p) && Canonical(q) && |p.fraction| <= |q.fraction|
    requires var x, y := NatOf(p.whole + p.fraction) * Pow10(|q.fraction| - |p.fraction|), NatOf(q.whole + q.fraction) * Pow10(0);
             (if p.negative then 0 - x else x) == (if q.negative then 0 - y else y)
    ensures p == q
  {
    hide NatOf;
    var a, b := p.whole + p.fraction, q.whole + q.fraction;
    var f, k := |p.fraction|, |q.fraction|;
    Pow10Positive(k - f);
    MulZero(NatOf(a), Pow10(k - f));
    if NatOf(a) == 0 || NatOf(b) == 0 {
      assert NatOf(a) == 0 && NatOf(b) == 0;
      MagnitudeZero(p);
      MagnitudeZero(q);
    } else if f < k {
      LastDigit(a, k - f, b);
      LastOf(q.whole, q.fraction);
    } else {
      WholeLength(p, q);
      NatOfInjective(a, b);
      assert p.whole == a[..|p.whole|] == q.whole && p.fraction == a[|p.whole|..] == q.fraction;
    }
  }

  lemma LastDigit(a: string, k: nat, b: string)
    requires AllDigits(a) && AllDigits(b) && k > 0 && b != ""
    requires NatOf(a) * Pow10(k) == NatOf(b)
    ensures b[|b| - 1] == '0'
  {
    NatOfStep(b);
    hide *;
    Pow10Step(k - 1);
    TimesTen(NatOf(a), Pow10(k - 1));
    ZeroDigit(b[|b| - 1], NatOf(b[..|b| - 1]), NatOf(a) * Pow10(k - 1));
  }

  lemma NatOfStep(s: string)
    requires AllDigits(s) && s != ""
    ensures IsDigit(s[|s| - 1]) && AllDigits(s[..|s| - 1])
    ensures NatOf(s) == 10 * NatOf(s[..|s| - 1]) + DigitValue(s[|s| - 1])
  {
  }

  lemma ZeroDigit(c: char, x: int, y: int)
    requires IsDigit(c) && 10 * x + DigitValue(c) == 10 * y
    ensures c == '0'
  {
  }

  lemma TimesTen(x: int, y: int)
    ensures x * (10 * y) == 10 * (x * y)
  {
  }

  lemma LastOf(head: string, tail: string)
    requires tail != ""
    ensures (head + tail)[|head + tail| - 1] == tail[|tail| - 1]
  {
  }

  lemma MulZero(x: nat, y: nat)
    requires y > 0
    ensures x * y == 0 <==> x == 0
  {
  }

  lemma MagnitudeZero(p: Plain)
    requires Canonical(p) && NatOf(p.whole + p.fraction) == 0
    ensures p == Plain(false, "0", "")
  {
    var a := p.whole + p.fraction;
    NatOfBound(a);
    Pow10Positive(|a| - 1);
    assert a[0] == p.whole[0] == '0';
    assert a[|a| - 1] == '0';
    if p.fraction != "" {
      LastOf(p.whole, p.fraction);
    }
  }

  lemma WholeLength(p: Plain, q: Plain)
    requires Canonical(p) && Canonical(q) && |p.fraction| == |q.fraction|
    requires NatOf(p.whole + p.fraction) == NatOf(q.whole + q.fraction)
    ensures |p.whole| == |q.whole|
  {
    if |p.whole| < |q.whole| {
      LongerIsLarger(p, q);
    } else if |q.whole| < |p.whole| {
      LongerIsLarger(q, p);
    }
  }

  lemma LongerIsLarger(p: Plain, q: Plain)
    requires PlainDigits(p) && PlainDigits(q) && |p.fraction| == |q.fraction| && |p.whole| < |q.whole|
    ensures NatOf(p.whole + p.fraction) < NatOf(q.whole + q.fraction)
  {
    var a, b := p.whole + p.fraction, q.whole + q.fraction;
    NatOfBound(a);
    NatOfBound(b);
    assert b[0] == q.whole[0];
    Pow10Monotone(|a|, |b| - 1);
  }

  lemma {:induction false} Pow10Monotone(j: nat, k: nat)
    requires j <= k
    ensures Pow10(j) <= Pow10(k)
  {
    if j < k {
      Pow10Monotone(j, k - 1);
    }
  }

  // ---------------------------------------------------------------- main results

  /** Digits have their positional value, read from the other end as well. */
  lemma {:induction false} PositionalValue(c: char, s: string)
    requires IsDigit(c) && AllDigits(s)
    ensures NatOf("") == 0
    ensures NatOf([c] + s) == (c as int - '0' as int) * Pow10(|s|) + NatOf(s)
  {
    var t := [c] + s;
    if s == "" {
      assert t == [c] && t[..0] == "";
    } else {
      PositionalValue(c, s[..|s| - 1]);
      assert t[..|t| - 1] == [c] + s[..|s| - 1];
      Pow10Step(|s| - 1);
      TimesTen(c as int - '0' as int, Pow10(|s| - 1));
    }
  }

  lemma {:induction false} StrippedValue(s: string)
    requires s != "" && AllDigits(s)
    ensures NatOf(StripLeading(s)) == NatOf(s)
  {
    NatOfZeros(|s| - |StripLeading(s)|, StripLeading(s));
  }

  function Signed(negative: bool, x: real): real { if negative then -x else x }

  function Magnitude(n: nat, e: int): real { (n as real) * Scale(e) }

  /** The number of a literal without exponent: its digits, divided by a power of ten for every digit behind the point; "-"
      negates it, "+" does not. */
  lemma PlainLiteral(l: Literal)
    requires WellFormed(l) && l.exponent == None
    ensures Parse(Spell(l)) == Some(l)
    ensures NumberOf(Spell(l)) * (Pow10(|l.fraction|) as real) == Signed(l.sign == "-", NatOf(l.whole + l.fraction) as real)
  {
    hide Parse, Spell, Scale, NatOf, Pow10, NumberOf, Magnitude;
    SpelledValue(l);
    Shifted(l.sign == "-", NatOf(l.whole + l.fraction), 0 - |l.fraction|, |l.fraction|);
    Unscaled(NatOf(l.whole + l.fraction));
  }

  /** An exponent multiplies the number by that power of ten, or divides by it if it has the sign "-". */
  lemma ExponentLiteral(l: Literal)
    requires WellFormed(l) && l.exponent.Some?
    ensures var plain, n := l.(exponent := None), NatOf(l.exponent.value.digits);
            && WellFormed(plain) && Parse(Spell(l)) == Some(l) && Parse(Spell(plain)) == Some(plain)
            && if l.exponent.value.sign == "-" then NumberOf(Spell(l)) * (Pow10(n) as real) == NumberOf(Spell(plain))
               else NumberOf(Spell(l)) == NumberOf(Spell(plain)) * (Pow10(n) as real)
  {
    hide Parse, Spell, Scale, NatOf, Pow10, NumberOf, Magnitude, Signed;
    var plain, n := l.(exponent := None), NatOf(l.exponent.value.digits);
    SpelledValue(l);
    SpelledValue(plain);
    var e := if l.exponent.value.sign == "-" then 0 - n - |l.fraction| else 0 - |l.fraction|;
    Shifted(l.sign == "-", NatOf(l.whole + l.fraction), e, n);
  }

  lemma SpelledValue(l: Literal)
    requires WellFormed(l)
    ensures Parse(Spell(l)) == Some(l)
    ensures NumberOf(Spell(l)) == Signed(l.sign == "-", Magnitude(NatOf(l.whole + l.fraction), ExponentValue(l.exponent) - |l.fraction|))
  {
    hide Parse, Spell, Scale, NatOf, Pow10, StripLeading, Magnitude;
    ParseComplete(l);
    StrippedValue(l.whole + l.fraction);
    ValueSigned(ToDecimal(l));
    hide Value, Signed;
  }

  lemma ValueSigned(d: Decimal)
    requires Normal(d)
    ensures Value(d) == Signed(d.negative, Magnitude(NatOf(d.digits), d.exponent))
  {
  }

  lemma Unscaled(n: nat)
    ensures Magnitude(n, 0) == n as real
  {
  }

  lemma Shifted(negative: bool, n: nat, e: int, k: nat)
    ensures Signed(negative, Magnitude(n, e)) * (Pow10(k) as real) == Signed(negative, Magnitude(n, e + k))
  {
    hide Scale, Pow10;
    var power := Pow10(k) as real;
    ScaleShift(e, k);
    Regroup(n as real, Scale(e), power);
    assert Scale(e) * power == power * Scale(e);
    Negation(Magnitude(n, e), power);
  }

  const SMALL := Literal("", "1", false, "", Some(ExponentPart('E', "-", "8")))

  /** Concretely: a negative exponent puts zeros behind the point. */
  lemma Spelled()
    ensures CanonicalDecimal("1E-8") == Ok("0.00000001")
  {
    hide ToDecimal, Parse, FixedPoint, Unstripped, CanonicalDecimal;
    SmallSpells();
    hide Spell, ExponentText;
    SmallDecimal();
    PrintsAs(SMALL, Plain(false, "0", "00000001"));
    assert Show(Plain(false, "0", "00000001")) == "0.00000001";
  }

  lemma SmallSpells()
    ensures WellFormed(SMALL) && Spell(SMALL) == "1E-8"
  {
    assert ExponentText(SMALL.exponent) == "E-8";
  }

  lemma SmallDecimal()
    ensures WellFormed(SMALL) && ToDecimal(SMALL) == Decimal(false, "1", -8)
    ensures Unstripped(ToDecimal(SMALL)) == Plain(false, "0", "00000001") && |FixedPoint(ToDecimal(SMALL))| == 10
  {
    OneDigit("8");
    hide NatOf;
    assert SMALL.whole + SMALL.fraction == "1";
    assert ToDecimal(SMALL) == Decimal(false, "1", -8);
    hide ToDecimal;
    assert Zeros(7) + "1" == "00000001";
  }

  lemma OneDigit(s: string)
    requires |s| == 1 && AllDigits(s)
    ensures NatOf(s) == DigitValue(s[0])
  {
    assert s[..0] == "";
  }

  lemma PrintsAs(l: Literal, p: Plain)
    requires WellFormed(l) && |FixedPoint(ToDecimal(l))| <= MAX_CANONICAL_CHARS && Canonical(p) && Unstripped(ToDecimal(l)) == p
    ensures CanonicalDecimal(Spell(l)) == Ok(Show(p))
  {
    hide Spell, Parse, ToDecimal, FixedPoint, Unstripped;
    ParseComplete(l);
    Accepted(Spell(l));
    CanonicalDecimalShows(Spell(l));
    ReducedStays(ToDecimal(l), p);
  }

  lemma ReducedStays(d: Decimal, p: Plain)
    requires Normal(d) && Unstripped(d) == p && Canonical(p)
    ensures Reduced(d) == p
  {
    hide Unstripped;
  }

  /** The number is preserved, and the output is in the normal form. */
  lemma PreservesNumber(s: string)
    requires CanonicalDecimal(s).Ok?
    ensures Parse(s).Some? && Parse(CanonicalDecimal(s).value).Some?
    ensures NumberOf(CanonicalDecimal(s).value) == NumberOf(s)
    ensures exists p :: Canonical(p) && Show(p) == CanonicalDecimal(s).value
  {
    CanonicalDecimalShows(s);
    var d := ToDecimal(Parse(s).value);
    ReducedIsCanonical(d);
    OutputLength(s);
    CanonicalTextIsFixed(Reduced(d));
  }

  /** The output is never longer than the printed text whose length was checked. */
  lemma OutputLength(s: string)
    requires CanonicalDecimal(s).Ok?
    ensures |CanonicalDecimal(s).value| <= MAX_CANONICAL_CHARS
  {
    CanonicalDecimalShows(s);
    var d := ToDecimal(Parse(s).value);
    LengthFormulaExact(d);
    UnstrippedShows(d);
    hide FixedPointLength;
    hide FixedPoint;
    hide Unstripped;
    hide Parse;
    hide ToDecimal;
    var k := StripRightSplit(Unstripped(d).fraction, '0');
  }

  /** Canonical text is a fixed point. */
  lemma Idempotent(s: string)
    requires CanonicalDecimal(s).Ok?
    ensures CanonicalDecimal(CanonicalDecimal(s).value) == CanonicalDecimal(s)
  {
    CanonicalDecimalShows(s);
    var d := ToDecimal(Parse(s).value);
    ReducedIsCanonical(d);
    OutputLength(s);
    CanonicalTextIsFixed(Reduced(d));
  }

  /** A true normal form: two accepted texts get the same output exactly when they denote the same number. */
  lemma NormalForm(s: string, t: string)
    requires CanonicalDecimal(s).Ok? && CanonicalDecimal(t).Ok?
    ensures Parse(s).Some? && Parse(t).Some?
    ensures CanonicalDecimal(s).value == CanonicalDecimal(t).value <==> NumberOf(s) == NumberOf(t)
  {
    PreservesNumber(s);
    PreservesNumber(t);
    CanonicalDecimalShows(s);
    CanonicalDecimalShows(t);
    var p, q := Reduced(ToDecimal(Parse(s).value)), Reduced(ToDecimal(Parse(t).value));
    ReducedIsCanonical(ToDecimal(Parse(s).value));
    ReducedIsCanonical(ToDecimal(Parse(t).value));
    if NumberOf(s) == NumberOf(t) {
      CanonicalUnique(p, q);
    }
  }

  /** The output has no exponent and no plus sign, is not "-0", and ends neither in a point nor in a zero after a point. */
  lemma OutputShape(s: string)
    requires CanonicalDecimal(s).Ok?
    ensures var t := CanonicalDecimal(s).value;
            && t != "" && t != "-0"
            && (forall i :: 0 <= i < |t| ==> IsDigit(t[i]) || t[i] == '.' || (t[i] == '-' && i == 0))
            && ('.' in t ==> t[|t| - 1] != '0' && t[|t| - 1] != '.')
  {
    hide *;
    CanonicalDecimalShows(s);
    var d := ToDecimal(Parse(s).value);
    ReducedIsCanonical(d);
    ShownShape(Reduced(d));
  }

  lemma ShownShape(p: Plain)
    requires Canonical(p)
    ensures var t := Show(p);
            && t != "" && t != "-0"
            && (forall i :: 0 <= i < |t| ==> IsDigit(t[i]) || t[i] == '.' || (t[i] == '-' && i == 0))
            && ('.' in t ==> t[|t| - 1] != '0' && t[|t| - 1] != '.')
  {
    MinusZero(p);
    var t := Show(p);
    if p.fraction != "" {
      assert t[|t| - 1] == p.fraction[|p.fraction| - 1];
      assert IsDigit(p.fraction[|p.fraction| - 1]);
    } else {
      assert forall i :: 0 <= i < |t| ==> t[i] != '.';
    }
  }
}
