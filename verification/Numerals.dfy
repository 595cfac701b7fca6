/** Decimal numerals: what Go's strconv reads and what Python prints, digit by digit. Values are exact. */
module Numerals {
  import opened Api

  predicate IsDigit(c: char) { '0' <= c <= '9' }

  ghost predicate AllDigits(s: string) { forall i :: 0 <= i < |s| ==> IsDigit(s[i]) }

  function NatOf(ds: string): nat {
    if ds == "" then 0
    else
      var n := |ds| - 1;
      10 * NatOf(ds[..n]) + (if IsDigit(ds[n]) then ds[n] as int - '0' as int else 0)
  }

  /** The digits of `n`, most significant first, without a leading zero except for zero itself. */
  function Digits(n: nat): (ds: string)
    ensures ds != "" && AllDigits(ds) && NatOf(ds) == n
    ensures ds[0] == '0' ==> n == 0 && ds == "0"
  {
    if n < 10 then [('0' as int + n) as char]
    else
      var init := Digits(n / 10);
      var ds := init + [('0' as int + n % 10) as char];
      assert ds[..|ds| - 1] == init;
      ds
  }

  /** A text cut in two. */
  datatype Cut = Cut(taken: string, rest: string)

  /** Takes the longest prefix of digits. */
  function CutDigits(s: string): (c: Cut)
    ensures s == c.taken + c.rest && AllDigits(c.taken)
    ensures c.rest != "" ==> !IsDigit(c.rest[0])
  {
    if s == "" || !IsDigit(s[0]) then Cut("", s)
    else
      var c := CutDigits(s[1..]);
      Cut([s[0]] + c.taken, c.rest)
  }

  lemma {:induction false} CutDigitsOf(ds: string, rest: string)
    requires AllDigits(ds) && (rest != "" ==> !IsDigit(rest[0]))
    ensures CutDigits(ds + rest) == Cut(ds, rest)
  {
    if ds == "" {
      assert ds + rest == rest;
    } else {
      assert (ds + rest)[0] == ds[0] && (ds + rest)[1..] == ds[1..] + rest;
      CutDigitsOf(ds[1..], rest);
      assert [ds[0]] + ds[1..] == ds;
    }
  }

  function CutSign(s: string): (c: Cut)
    ensures s == c.taken + c.rest && IsSign(c.taken)
  {
    if s != "" && s[0] == '+' then Cut("+", s[1..])
    else if s != "" && s[0] == '-' then Cut("-", s[1..])
    else Cut("", s)
  }

  lemma CutSignOf(sign: string, rest: string)
    requires IsSign(sign) && (rest != "" ==> rest[0] != '+' && rest[0] != '-')
    ensures CutSign(sign + rest) == Cut(sign, rest)
  {
    if sign == "" {
      assert sign + rest == rest;
    } else {
      assert (sign + rest)[0] == sign[0] && (sign + rest)[1..] == rest;
    }
  }

  predicate IsSign(s: string) { s == "" || s == "+" || s == "-" }

  function Signed(sign: string, n: int): int { if sign == "-" then -n else n }

  // ---------- Integers ----------

  const INT64_MIN := -0x8000_0000_0000_0000
  const INT64_MAX := 0x7FFF_FFFF_FFFF_FFFF

  /** The sign and digits of an integer numeral. */
  function ScanInt(s: string): Option<(string, string)> {
    var c := CutSign(s);
    var d := CutDigits(c.rest);
    if d.taken == "" || d.rest != "" then None else Some((c.taken, d.taken))
  }

  /** strconv.Atoi where int has 64 bits: an optional sign and digits, in range. */
  function Atoi(s: string): Option<int> {
    var parts := ScanInt(s);
    if parts.None? then None
    else
      var v := Signed(parts.value.0, NatOf(parts.value.1));
      if INT64_MIN <= v <= INT64_MAX then Some(v) else None
  }

  /** Python's str of an int. */
  function IntText(n: int): (s: string)
    ensures s != ""
  {
    if n < 0 then "-" + Digits(-n) else Digits(n)
  }

  /** A numeral splits into sign and digits exactly when it is a sign followed by digits, in that one way. */
  lemma ScanIntIff(s: string, sign: string, ds: string)
    ensures ScanInt(s) == Some((sign, ds)) <==> IsSign(sign) && ds != "" && AllDigits(ds) && s == sign + ds
  {
    if IsSign(sign) && ds != "" && AllDigits(ds) && s == sign + ds {
      assert IsDigit(ds[0]);
      CutSignOf(sign, ds);
      CutDigitsOf(ds, "");
      assert ds + "" == ds;
    } else {
      var d := CutDigits(CutSign(s).rest);
      assert d.rest == "" ==> d.taken + d.rest == d.taken;
    }
  }

  /** Printing then parsing an int gives it back exactly when it fits in 64 bits, and fails otherwise. */
  lemma IntRoundTrip(n: int)
    ensures Atoi(IntText(n)) == if INT64_MIN <= n <= INT64_MAX then Some(n) else None
  {
    var sign := if n < 0 then "-" else "";
    var ds := Digits(if n < 0 then -n else n);
    assert IntText(n) == sign + ds;
    ScanIntIff(IntText(n), sign, ds);
    assert ScanInt(IntText(n)) == Some((sign, ds)) && Signed(sign, NatOf(ds)) == n;
  }

  // ---------- Decimals ----------

  /** m * 10^e. */
  function Shift(m: real, e: int): real
    decreases if e < 0 then -e else e
  {
    if e == 0 then m else if e > 0 then Shift(m * 10.0, e - 1) else Shift(m / 10.0, e + 1)
  }

  lemma ShiftTrade(m: real, e: int)
    ensures Shift(m * 10.0, e - 1) == Shift(m, e)
  {
    if e <= 0 {
      assert (m * 10.0) / 10.0 == m;
    }
  }

  function TwoTo(n: nat): real { if n == 0 then 1.0 else 2.0 * TwoTo(n - 1) }

  lemma {:induction false} TwoToGrows(a: nat, b: nat)
    requires a <= b
    ensures 1.0 <= TwoTo(a) <= TwoTo(b)
    decreases a + b
  {
    if a < b {
      TwoToGrows(a, b - 1);
    } else if a > 0 {
      TwoToGrows(a - 1, a - 1);
    }
  }

  /** strconv.ParseFloat's range error: decimals this large in magnitude round beyond the largest float64. */
  const FLOAT64_LIMIT := TwoTo(1024) - TwoTo(970)

  predicate InFloatRange(v: real) { -FLOAT64_LIMIT < v < FLOAT64_LIMIT }

  lemma {:induction false} TwoToOfSum(a: nat, b: nat)
    ensures TwoTo(a + b) == TwoTo(a) * TwoTo(b)
  {
    if a > 0 {
      TwoToOfSum(a - 1, b);
      assert 2.0 * (TwoTo(a - 1) * TwoTo(b)) == (2.0 * TwoTo(a - 1)) * TwoTo(b);
    }
  }

  /** The limit is halfway between the largest float64, 2^53 - 1 times 2^971, and the next power of two. */
  lemma LimitIsHalfway()
    ensures 2.0 * FLOAT64_LIMIT == (TwoTo(53) - 1.0) * TwoTo(971) + TwoTo(1024)
  {
    TwoToOfSum(53, 971);
    assert TwoTo(971) == 2.0 * TwoTo(970);
  }

  lemma UnitIsInFloatRange(v: real)
    requires -1.0 <= v <= 1.0
    ensures InFloatRange(v)
  {
    TwoToGrows(970, 1022);
    assert TwoTo(1024) == 2.0 * TwoTo(1023) && TwoTo(1023) == 2.0 * TwoTo(1022);
  }

  datatype Exponent = NoExponent | Exponent(letter: char, sign: string, digits: string) {
    ghost predicate WellFormed() {
      Exponent? ==> (letter == 'e' || letter == 'E') && IsSign(sign) && AllDigits(digits) && digits != ""
    }

    function Text(): string { if NoExponent? then "" else [letter] + (sign + digits) }

    function Value(): int { if NoExponent? then 0 else Signed(sign, NatOf(digits)) }
  }

  /** The parts of a decimal floating-point literal. */
  datatype Literal = Literal(sign: string, whole: string, point: bool, fraction: string, exponent: Exponent) {
    ghost predicate WellFormed() {
      && IsSign(sign) && AllDigits(whole) && AllDigits(fraction)
      && whole + fraction != "" && (!point ==> fraction == "")
      && exponent.WellFormed()
    }

    function Text(): string { sign + (whole + (PointText(point, fraction) + exponent.Text())) }

    function Value(): real {
      var m := Shift(NatOf(whole + fraction) as real, exponent.Value() - |fraction|);
      if sign == "-" then -m else m
    }
  }

  function ScanExponent(s: string): (x: Option<Exponent>)
    ensures x.Some? ==> x.value.WellFormed() && x.value.Text() == s
  {
    if s == "" then Some(NoExponent)
    else if s[0] != 'e' && s[0] != 'E' then None
    else
      var c := CutSign(s[1..]);
      var d := CutDigits(c.rest);
      if d.taken == "" || d.rest != "" then None
      else
        assert d.taken + d.rest == d.taken && s == [s[0]] + s[1..];
        Some(Exponent(s[0], c.taken, d.taken))
  }

  function PointText(point: bool, fraction: string): string { if point then "." + fraction else "" }

  datatype FractionCut = FractionCut(point: bool, fraction: string, rest: string)

  /** Takes a point and the digits after it, if there is one. */
  function CutFraction(s: string): (c: FractionCut)
    ensures s == PointText(c.point, c.fraction) + c.rest
    ensures AllDigits(c.fraction) && (!c.point ==> c.fraction == "")
  {
    if s == "" || s[0] != '.' then FractionCut(false, "", s)
    else
      var d := CutDigits(s[1..]);
      assert s == "." + (d.taken + d.rest) == ("." + d.taken) + d.rest;
      FractionCut(true, d.taken, d.rest)
  }

  /** strconv.ParseFloat on decimal literals, before rounding to a float64. */
  function ScanFloat(s: string): Option<Literal> {
    var c := CutSign(s);
    var d := CutDigits(c.rest);
    var f := CutFraction(d.rest);
    var x := ScanExponent(f.rest);
    if d.taken + f.fraction == "" || x.None? then None
    else Some(Literal(c.taken, d.taken, f.point, f.fraction, x.value))
  }

  /** What the scanner accepts is well formed and is the text it was given. */
  lemma ScanFloatSound(s: string)
    requires ScanFloat(s).Some?
    ensures ScanFloat(s).value.WellFormed() && ScanFloat(s).value.Text() == s
  {}

  lemma ScanExponentComplete(x: Exponent)
    requires x.WellFormed()
    ensures ScanExponent(x.Text()) == Some(x)
  {
    if x.Exponent? {
      assert IsDigit(x.digits[0]);
      CutSignOf(x.sign, x.digits);
      CutDigitsOf(x.digits, "");
      assert x.digits + "" == x.digits;
      assert x.Text()[1..] == x.sign + x.digits;
    }
  }

  lemma CutFractionOf(point: bool, fraction: string, rest: string)
    requires AllDigits(fraction) && (!point ==> fraction == "")
    requires rest != "" ==> !IsDigit(rest[0]) && rest[0] != '.'
    ensures CutFraction(PointText(point, fraction) + rest) == FractionCut(point, fraction, rest)
  {
    var s := PointText(point, fraction) + rest;
    if point {
      assert s[0] == '.' && s[1..] == fraction + rest;
      CutDigitsOf(fraction, rest);
    } else {
      assert s == rest;
    }
  }

  /** And every well-formed literal is accepted, with exactly its parts. */
  lemma ScanFloatComplete(l: Literal)
    requires l.WellFormed()
    ensures ScanFloat(l.Text()) == Some(l)
  {
    var s3 := l.exponent.Text();
    var s2 := PointText(l.point, l.fraction) + s3;
    var s1 := l.whole + s2;
    ScanExponentComplete(l.exponent);
    CutFractionOf(l.point, l.fraction, s3);
    assert s2 != "" ==> s2[0] == '.' || s2[0] == 'e' || s2[0] == 'E';
    CutDigitsOf(l.whole, s2);
    assert s1 != "" ==> s1[0] == '.' || s1[0] == 'e' || s1[0] == 'E' || IsDigit(s1[0]) by {
      assert l.whole != "" ==> s1[0] == l.whole[0];
      assert l.whole == "" ==> s1 == s2;
    }
    CutSignOf(l.sign, s1);
  }

  // ---------- Printing ----------

  /** A finite decimal: +-mantissa * 10^exponent. */
  datatype Decimal = Decimal(negative: bool, mantissa: nat, exponent: int) {
    function Value(): real {
      var m := Shift(mantissa as real, exponent);
      if negative then -m else m
    }
  }

  function Zeros(n: nat): (s: string)
    ensures |s| == n && AllDigits(s)
  {
    if n == 0 then "" else Zeros(n - 1) + "0"
  }

  /** Digits with a point after the first `point` of them, padded with zeros on either side. */
  function Positional(sign: string, ds: string, point: int): Literal {
    if point <= 0 then Literal(sign, "0", true, Zeros(-point) + ds, NoExponent)
    else if point < |ds| then Literal(sign, ds[..point], true, ds[point..], NoExponent)
    else Literal(sign, ds + Zeros(point - |ds|), true, "0", NoExponent)
  }

  /** One digit, the others after a point, and a signed exponent of at least two digits. */
  function Scientific(sign: string, ds: string, e: int): Literal
    requires ds != ""
  {
    Literal(sign, ds[..1], |ds| > 1, ds[1..], PaddedExponent(e))
  }

  function PaddedExponent(e: int): Exponent {
    var es := Digits(if e < 0 then -e else e);
    Exponent('e', if e < 0 then "-" else "+", if |es| == 1 then "0" + es else es)
  }

  /** Python's repr of a float with these digits: positional for magnitudes from 1e-4 up to 1e16, otherwise
      scientific. */
  function Repr(d: Decimal): Literal {
    var sign := if d.negative then "-" else "";
    var ds := Digits(d.mantissa);
    var point := |ds| + (if d.mantissa == 0 then 0 else d.exponent);
    if -4 < point <= 16 then Positional(sign, ds, point) else Scientific(sign, ds, point - 1)
  }

  lemma {:induction false} NatOfLeadingZeros(n: nat, ds: string)
    ensures NatOf(Zeros(n) + ds) == NatOf(ds)
    decreases |ds|, n
  {
    var s := Zeros(n) + ds;
    if ds != "" {
      assert s[..|s| - 1] == Zeros(n) + ds[..|ds| - 1];
      NatOfLeadingZeros(n, ds[..|ds| - 1]);
    } else {
      assert s == Zeros(n);
      if n > 0 {
        assert s[..n - 1] == Zeros(n - 1) + "";
        NatOfLeadingZeros(n - 1, "");
      }
    }
  }

  /** Appending zeros and moving the point back is no change of value. */
  lemma {:induction false} TrailingZeros(ds: string, n: nat, e: int)
    ensures Shift(NatOf(ds + Zeros(n)) as real, e - n) == Shift(NatOf(ds) as real, e)
  {
    if n == 0 {
      assert ds + Zeros(0) == ds;
    } else {
      var s := ds + Zeros(n);
      assert s[..|s| - 1] == ds + Zeros(n - 1);
      assert NatOf(s) == 10 * NatOf(ds + Zeros(n - 1));
      ShiftTrade(NatOf(ds + Zeros(n - 1)) as real, e - n + 1);
      TrailingZeros(ds, n - 1, e);
    }
  }

  lemma {:induction false} ShiftZero(e: int)
    ensures Shift(0.0, e) == 0.0
    decreases if e < 0 then -e else e
  {
    if e > 0 {
      ShiftZero(e - 1);
    } else if e < 0 {
      ShiftZero(e + 1);
    }
  }

  /** The literal's digits are `ds` with zeros around them, and its scale is `e` less the `n` appended. */
  ghost predicate Padded(l: Literal, ds: string, z: nat, n: nat, e: int) {
    l.whole + l.fraction == Zeros(z) + (ds + Zeros(n)) && l.exponent.Value() - |l.fraction| == e - n
  }

  lemma PositionalIsWellFormed(sign: string, ds: string, point: int)
    requires IsSign(sign) && AllDigits(ds) && ds != ""
    ensures Positional(sign, ds, point).WellFormed()
  {}

  lemma PositionalIsPadded(sign: string, ds: string, e: int) returns (z: nat, n: nat)
    requires ds != ""
    ensures Padded(Positional(sign, ds, |ds| + e), ds, z, n, e)
  {
    var l := Positional(sign, ds, |ds| + e);
    z, n := 0, 0;
    if |ds| + e <= 0 {
      z := 1 - (|ds| + e);
      assert "0" + Zeros(z - 1) == Zeros(z) by {
        ZerosAreZeros(z - 1);
        ZerosAreZeros(z);
      }
      assert l.whole + l.fraction == ("0" + Zeros(z - 1)) + ds;
      assert ds + Zeros(n) == ds;
    } else if e < 0 {
      assert l.whole + l.fraction == ds == Zeros(z) + (ds + Zeros(n));
    } else {
      n := e + 1;
      assert l.whole + l.fraction == ds + (Zeros(e) + "0") == Zeros(z) + (ds + Zeros(n));
    }
  }

  lemma {:induction false} ZerosAreZeros(n: nat)
    ensures forall i :: 0 <= i < n ==> Zeros(n)[i] == '0'
  {
    if n > 0 {
      ZerosAreZeros(n - 1);
    }
  }

  lemma ScientificIsPadded(sign: string, ds: string, e: int)
    requires IsSign(sign) && AllDigits(ds) && ds != ""
    ensures Scientific(sign, ds, |ds| + e - 1).WellFormed()
    ensures Padded(Scientific(sign, ds, |ds| + e - 1), ds, 0, 0, e)
  {
    var l := Scientific(sign, ds, |ds| + e - 1);
    PaddedExponentIsExact(|ds| + e - 1);
    assert Zeros(0) + (ds + Zeros(0)) == ds;
    assert l.whole + l.fraction == ds && |l.fraction| == |ds| - 1;
  }

  lemma PaddedExponentIsExact(e: int)
    ensures PaddedExponent(e).WellFormed() && PaddedExponent(e).Value() == e
  {
    var es := Digits(if e < 0 then -e else e);
    assert "0" + es == Zeros(1) + es;
    NatOfLeadingZeros(1, es);
  }

  lemma PaddedIsExact(l: Literal, d: Decimal, z: nat, n: nat, e: int)
    requires Padded(l, Digits(d.mantissa), z, n, e) && l.sign == (if d.negative then "-" else "")
    requires e == d.exponent || (e == 0 && d.mantissa == 0)
    ensures l.Value() == d.Value()
  {
    NatOfLeadingZeros(z, Digits(d.mantissa) + Zeros(n));
    TrailingZeros(Digits(d.mantissa), n, e);
    if d.mantissa == 0 {
      ShiftZero(e);
      ShiftZero(d.exponent);
    }
  }

  /** What is printed is a well-formed literal of exactly the decimal's value. */
  lemma ReprIsExact(d: Decimal)
    ensures Repr(d).WellFormed() && Repr(d).Value() == d.Value()
  {
    var l := Repr(d);
    var ds := Digits(d.mantissa);
    var e := if d.mantissa == 0 then 0 else d.exponent;
    var z, n := 0, 0;
    if -4 < |ds| + e <= 16 {
      PositionalIsWellFormed(l.sign, ds, |ds| + e);
      z, n := PositionalIsPadded(l.sign, ds, e);
    } else {
      ScientificIsPadded(l.sign, ds, e);
    }
    PaddedIsExact(l, d, z, n, e);
  }

  // ---------- In figures ----------

  const FIGURES := "0123456789"

  /** Printing appends the figure of the last digit, and reading takes it off again. */
  lemma FiguresLaw(q: nat, d: nat, ds: string)
    requires d < 10
    ensures Digits(10 * q + d) == (if q == 0 then "" else Digits(q)) + [FIGURES[d]]
    ensures NatOf("") == 0 && NatOf(ds + [FIGURES[d]]) == 10 * NatOf(ds) + d
    ensures IntText(10 * q + d) == Digits(10 * q + d)
    ensures q + d > 0 ==> IntText(-(10 * q + d)) == "-" + Digits(10 * q + d)
  {
    assert FIGURES[d] == ('0' as int + d) as char;
    assert (ds + [FIGURES[d]])[..|ds|] == ds;
    assert (10 * q + d) / 10 == q && (10 * q + d) % 10 == d;
    if q == 0 {
      assert "" + [FIGURES[d]] == [FIGURES[d]];
    }
  }

  lemma ShiftPositive(m: real, e: int)
    requires m > 0.0
    ensures Shift(m, e) > 0.0
    decreases if e < 0 then -e else e
  {
    if e > 0 {
      ShiftPositive(m * 10.0, e - 1);
    } else if e < 0 {
      ShiftPositive(m / 10.0, e + 1);
    }
  }

  lemma {:induction false} ShiftMonotone(m: real, n: real, e: int)
    requires m <= n
    ensures Shift(m, e) <= Shift(n, e)
    ensures m < n ==> Shift(m, e) < Shift(n, e)
    decreases if e < 0 then -e else e
  {
    if e > 0 {
      ShiftMonotone(m * 10.0, n * 10.0, e - 1);
    } else if e < 0 {
      ShiftMonotone(m / 10.0, n / 10.0, e + 1);
    }
  }

  /** 10^n. */
  function TenTo(n: nat): nat { if n == 0 then 1 else 10 * TenTo(n - 1) }

  lemma {:induction false} DigitsMagnitude(n: nat)
    requires n > 0
    ensures TenTo(|Digits(n)| - 1) <= n < TenTo(|Digits(n)|)
  {
    if n >= 10 {
      DigitsMagnitude(n / 10);
      assert |Digits(n)| == |Digits(n / 10)| + 1;
    }
  }

  lemma {:induction false} ShiftOfTenTo(k: nat, e: int)
    ensures Shift(TenTo(k) as real, e) == Shift(1.0, e + k)
    decreases k
  {
    if k > 0 {
      assert TenTo(k) as real == TenTo(k - 1) as real * 10.0;
      ShiftTrade(TenTo(k - 1) as real, e + 1);
      ShiftOfTenTo(k - 1, e + 1);
    }
  }

  lemma {:induction false} UnitShiftMonotone(a: int, b: int)
    requires a <= b
    ensures Shift(1.0, a) <= Shift(1.0, b)
    decreases b - a
  {
    if a < b {
      UnitShiftMonotone(a, b - 1);
      ShiftTrade(1.0, b);
      ShiftMonotone(1.0, 10.0, b - 1);
      assert 1.0 * 10.0 == 10.0;
    }
  }

  /** Where the point falls among the digits says how large the value is. */
  lemma PointIsMagnitude(n: nat, e: int)
    requires n > 0
    ensures -4 < |Digits(n)| + e <= 16 <==> 0.0001 <= Shift(n as real, e) < 10_000_000_000_000_000.0
  {
    var (k, m) := (|Digits(n)|, Shift(n as real, e));
    DigitsMagnitude(n);
    ShiftMonotone(TenTo(k - 1) as real, n as real, e);
    ShiftMonotone(n as real, TenTo(k) as real, e);
    ShiftOfTenTo(k - 1, e);
    ShiftOfTenTo(k, e);
    assert Shift(1.0, k + e - 1) <= m < Shift(1.0, k + e);
    PowersOfTen();
    if k + e <= -4 {
      UnitShiftMonotone(k + e, -4);
    } else if k + e <= 16 {
      UnitShiftMonotone(-4, k + e - 1);
      UnitShiftMonotone(k + e, 16);
    } else {
      UnitShiftMonotone(16, k + e - 1);
    }
  }

  lemma PowersOfTen()
    ensures Shift(1.0, -4) == 0.0001 && Shift(1.0, 16) == 10_000_000_000_000_000.0
  {
    ShiftTrade(1.0, -3);
    assert TenTo(4) == 10_000 && TenTo(8) == 100_000_000 && TenTo(12) == 1_000_000_000_000;
    ShiftOfTenTo(16, 0);
  }

  /** Python's choice of layout: without an exponent exactly for zero and for magnitudes from 0.0001 up to 1e16.
      Then a point and at least one figure after it; otherwise one figure before the point and an exponent with a
      sign and at least two figures. */
  lemma ReprLayout(d: Decimal)
    ensures var (l, m) := (Repr(d), Shift(d.mantissa as real, d.exponent));
            && l.sign == (if d.negative then "-" else "")
            && (l.exponent.NoExponent? <==> d.mantissa == 0 || 0.0001 <= m < 10_000_000_000_000_000.0)
            && (if l.exponent.NoExponent? then l.whole != "" && l.point && l.fraction != ""
                else && |l.whole| == 1 && (l.point <==> l.fraction != "") && l.exponent.letter == 'e'
                     && l.exponent.sign in {"+", "-"} && |l.exponent.digits| >= 2)
  {
    if d.mantissa > 0 {
      PointIsMagnitude(d.mantissa, d.exponent);
    }
  }

  /** In figures: the stub's first usage, and one small enough for an exponent. */
  lemma ReprPositionalExample()
    ensures Repr(Decimal(false, 45, -2)).Text() == "0.45"
  {
    FiguresLaw(4, 5, "");
    FiguresLaw(0, 4, "");
    assert Digits(45) == "45";
    assert Repr(Decimal(false, 45, -2)) == Literal("", "0", true, "45", NoExponent);
    assert PointText(true, "45") == ".45" && "0" + (".45" + "") == "0.45";
  }

  /** In figures: what the scanners take and what they refuse. */
  lemma PlusExample()
    ensures Atoi("+7") == Some(7)
  {
    OneFigure("7", 7);
    assert "+7" == "+" + "7";
    ScanIntIff("+7", "+", "7");
  }

  lemma MinusExample()
    ensures Atoi("-7") == Some(-7)
  {
    OneFigure("7", 7);
    assert "-7" == "-" + "7";
    ScanIntIff("-7", "-", "7");
  }

  lemma RefusedInts()
    ensures Atoi("") == None && Atoi("-") == None && Atoi("7.") == None
  {
    assert "-"[1..] == "" && "7."[1..] == "." && CutDigits(".") == Cut("", ".");
  }

  lemma OneFigure(s: string, d: nat)
    requires d < 10 && s == [FIGURES[d]]
    ensures NatOf(s) == d && AllDigits(s)
  {
    FiguresLaw(0, d, "");
    assert "" + [FIGURES[d]] == s;
  }

  lemma ExponentExample()
    ensures ScanFloat("1E3").Some? && ScanFloat("1E3").value.Value() == 1000.0
  {
    var l := Literal("", "1", false, "", Exponent('E', "", "3"));
    ExponentExampleText(l);
    ExponentExampleValue(l);
    ScanFloatComplete(l);
  }

  lemma ExponentExampleValue(l: Literal)
    requires l == Literal("", "1", false, "", Exponent('E', "", "3"))
    ensures l.Value() == 1000.0
  {
    OneFigure("1", 1);
    OneFigure("3", 3);
    var (m, e) := (l.whole + l.fraction, l.exponent.Value() - |l.fraction|);
    assert m == "1";
    assert e == 3;
    Thousand();
  }

  lemma ExponentExampleText(l: Literal)
    requires l == Literal("", "1", false, "", Exponent('E', "", "3"))
    ensures l.WellFormed() && l.Text() == "1E3"
  {
    OneFigure("1", 1);
    OneFigure("3", 3);
    var e := l.exponent.Text();
    assert e == "E3";
    assert "1" + ("" + e) == "1E3";
  }

  lemma Thousand()
    ensures Shift(1.0, 3) == 1000.0
  {
    assert Shift(1.0, 3) == Shift(10.0, 2) && Shift(10.0, 2) == Shift(100.0, 1) && Shift(100.0, 1) == Shift(1000.0, 0);
  }

  lemma FractionExample()
    ensures ScanFloat("-.5").Some? && ScanFloat("-.5").value.Value() == -0.5
  {
    var l := Literal("-", "", true, "5", NoExponent);
    OneFigure("5", 5);
    assert "." + "5" == ".5" && ".5" + "" == ".5" && "" + ".5" == ".5" && "-" + ".5" == "-.5" && "" + "5" == "5";
    assert l.Text() == "-.5";
    ScanFloatComplete(l);
    assert Shift(5.0, -1) == Shift(0.5, 0);
  }

  lemma RefusedFloats()
    ensures ScanFloat("") == None && ScanFloat(".") == None && ScanFloat("e3") == None
  {
    assert CutDigits(".") == Cut("", ".") && "."[1..] == "";
    assert CutDigits("e3") == Cut("", "e3");
  }

  lemma RefusedExponent()
    ensures ScanFloat("1e") == None
  {
    assert "1e"[1..] == "e" && CutDigits("e") == Cut("", "e") && CutDigits("1e") == Cut("1", "e");
    assert "e"[1..] == "";
  }

  lemma ReprScientificExample()
    ensures Repr(Decimal(true, 1, -5)).Text() == "-1e-05"
  {
    assert Digits(1) == "1" && Digits(5) == "5" && "1"[..1] == "1" && "1"[1..] == "";
    assert PaddedExponent(-5) == Exponent('e', "-", "05");
    var l := Literal("-", "1", false, "", Exponent('e', "-", "05"));
    assert Repr(Decimal(true, 1, -5)) == l;
    assert l.exponent.Text() == ['e'] + ("-" + "05") == "e-05" && l.Text() == "-" + ("1" + ("" + "e-05"));
  }
}
