/**
 * The few JavaScript values and built-ins the calendar-date code relies on:
 * dynamically typed argument values, numbers that may be `undefined` or NaN,
 * `Math.trunc`, the `%` operator, `parseInt(s, 10)`, `Number(string)`,
 * `Number.prototype.toString` on integers and `String.prototype.padStart`
 * with the fill "0". Numbers are exact (`int`, `real`), not IEEE doubles.
 */
module JsValues {
  import opened Wrappers

  /** A dynamically typed argument: `undefined`, NaN, a finite number or a string. */
  datatype Value = UndefinedValue | NaNValue | Num(x: real) | Str(s: string)

  /** A numeric property that may hold `undefined`, NaN or an integer. */
  datatype JsNum = Undefined | NaN | Int(i: int)

  /** JavaScript truthiness of an argument value. */
  predicate Truthy(v: Value) {
    match v
    case UndefinedValue => false
    case NaNValue => false
    case Num(x) => x != 0.0
    case Str(s) => s != ""
  }

  /** Truthiness of a numeric property: only a non-zero integer is truthy. */
  predicate TruthyNum(n: JsNum) {
    n.Int? && n.i != 0
  }

  /** `a += k`: undefined and NaN both turn into NaN. */
  function Plus(a: JsNum, k: int): (r: JsNum)
    ensures r.Int? <==> a.Int?
    ensures a.Int? ==> r.i - a.i == k
  {
    if a.Int? then Int(a.i + k) else NaN
  }

  // ---------------------------------------------------------------------
  // Math.trunc and the % operator on exact reals

  /** `Math.trunc`: rounds toward zero. */
  function Trunc(x: real): (r: int)
    ensures x >= 0.0 ==> 0 <= r && r as real <= x < r as real + 1.0
    ensures x <= 0.0 ==> r <= 0 && r as real - 1.0 < x <= r as real
  {
    if x >= 0.0 then x.Floor else -((-x).Floor)
  }

  /** The `%` operator on finite numbers with a positive divisor: the result has the sign of `x`. */
  function Rem(x: real, m: real): (r: real)
    requires m > 0.0
    ensures x >= 0.0 ==> 0.0 <= r < m
    ensures x <= 0.0 ==> -m < r <= 0.0
    ensures x - r == m * (Trunc(x / m) as real)
  {
    TruncQuotientBounds(x, m);
    x - m * (Trunc(x / m) as real)
  }

  /** The truncated quotient times the divisor lies within one divisor of the dividend. */
  lemma TruncQuotientBounds(x: real, m: real)
    requires m > 0.0
    ensures x >= 0.0 ==> (Trunc(x / m) as real) * m <= x < (Trunc(x / m) as real + 1.0) * m
    ensures x <= 0.0 ==> (Trunc(x / m) as real - 1.0) * m < x <= (Trunc(x / m) as real) * m
  {
    var y := x / m;
    var q := Trunc(y) as real;
    QuotientTimesDivisor(x, m, y);
    if x >= 0.0 {
      assert y >= 0.0 by { QuotientSign(x, m, y); }
      ScaledBounds(q, y, m, x);
    } else {
      assert y <= 0.0 by { QuotientSign(x, m, y); }
      ScaledBounds(q - 1.0, y, m, x);
    }
  }

  lemma QuotientTimesDivisor(x: real, m: real, y: real)
    requires m > 0.0 && y == x / m
    ensures y * m == x
  {
  }

  lemma QuotientSign(x: real, m: real, y: real)
    requires m > 0.0 && y * m == x
    ensures x >= 0.0 ==> y >= 0.0
    ensures x <= 0.0 ==> y <= 0.0
  {
    if y < 0.0 {
      MulNonNeg(-y, m);
      assert (-y) * m == -(y * m);
    } else if y > 0.0 {
      MulNonNeg(y, m);
    }
  }

  /** Multiplying `q <= y <= q + 1` by a positive `m`. */
  lemma ScaledBounds(q: real, y: real, m: real, x: real)
    requires m > 0.0 && x == y * m
    requires q <= y <= q + 1.0
    ensures q * m <= x <= (q + 1.0) * m
    ensures q < y ==> q * m < x
    ensures y < q + 1.0 ==> x < (q + 1.0) * m
  {
    MulNonNeg(y - q, m);
    MulNonNeg(q + 1.0 - y, m);
  }

  lemma MulNonNeg(a: real, m: real)
    requires a >= 0.0 && m > 0.0
    ensures a * m >= 0.0
    ensures a > 0.0 ==> a * m > 0.0
  {
  }

  lemma TruncOfInt(k: int)
    ensures Trunc(k as real) == k
  {
  }

  /** Adding a whole number to a value of the same sign shifts its truncation by that number. */
  lemma TruncAddInt(k: int, f: real)
    requires (k >= 0 && f >= 0.0) || (k <= 0 && f <= 0.0)
    ensures Trunc(k as real + f) == k + Trunc(f)
  {
  }

  /**
   * Scaling splits at the truncation: trunc(r * m) = m * trunc(r) + trunc((r - trunc(r)) * m).
   * This is what lets a cascade of truncations compute one exact truncation.
   */
  lemma TruncSplit(r: real, m: int)
    requires m > 0
    ensures Trunc(r * m as real) == m * Trunc(r) + Trunc((r - Trunc(r) as real) * m as real)
  {
    var a := Trunc(r);
    Distribute(r, a, m);
    SplitSigns(r, a, m);
    TruncShift(r * m as real, m * a, (r - a as real) * m as real);
  }

  /** The whole part and the fraction of `r`, scaled by `m`, have the sign of `r`. */
  lemma SplitSigns(r: real, a: int, m: int)
    requires m > 0 && a == Trunc(r)
    ensures (m * a >= 0 && (r - a as real) * m as real >= 0.0) || (m * a <= 0 && (r - a as real) * m as real <= 0.0)
  {
    SameSignProduct(r - a as real, m as real);
    if r <= 0.0 {
      NonPosTimesPos(a, m);
    }
  }

  lemma Distribute(r: real, a: int, m: int)
    ensures r * m as real == (m * a) as real + (r - a as real) * m as real
  {
  }

  /** Adding a whole number to a value of the same sign shifts its truncation by that number. */
  lemma TruncShift(p: real, k: int, x: real)
    requires p == k as real + x
    requires (k >= 0 && x >= 0.0) || (k <= 0 && x <= 0.0)
    ensures Trunc(p) == k + Trunc(x)
  {
    TruncAddInt(k, x);
  }

  lemma SameSignProduct(f: real, M: real)
    requires M > 0.0
    ensures f >= 0.0 ==> f * M >= 0.0
    ensures f <= 0.0 ==> f * M <= 0.0
  {
    if f >= 0.0 {
      MulNonNeg(f, M);
    } else {
      MulNonNeg(-f, M);
      assert (-f) * M == -(f * M);
    }
  }

  lemma NonPosTimesPos(a: int, m: int)
    requires a <= 0 && m > 0
    ensures m * a <= 0
  {
  }

  // ---------------------------------------------------------------------
  // Characters and digit strings

  /** The WhiteSpace and LineTerminator code points that `parseInt` and `Number` skip. */
  predicate IsWhite(c: char) {
    c == '\t' || c == '\n' || c == '\U{000B}' || c == '\U{000C}' || c == '\r' || c == ' ' ||
    c == '\U{00A0}' || c == '\U{1680}' || ('\U{2000}' <= c <= '\U{200A}') ||
    c == '\U{2028}' || c == '\U{2029}' || c == '\U{202F}' || c == '\U{205F}' || c == '\U{3000}' ||
    c == '\U{FEFF}'
  }

  predicate IsDigit(c: char) {
    '0' <= c <= '9'
  }

  lemma DigitIsNotWhite(c: char)
    requires IsDigit(c)
    ensures !IsWhite(c) && c != '-' && c != '+'
  {
  }

  predicate AllDigits(s: string) {
    forall i :: 0 <= i < |s| ==> IsDigit(s[i])
  }

  /** The string with its leading white space removed. */
  function TrimStart(s: string): (r: string)
    ensures |r| <= |s| && r == s[|s| - |r|..]
    ensures r == [] || !IsWhite(r[0])
    decreases |s|
  {
    if s != [] && IsWhite(s[0]) then TrimStart(s[1..]) else s
  }

  /** The string with its trailing white space removed. */
  function TrimEnd(s: string): (r: string)
    ensures |r| <= |s| && r == s[..|r|]
    ensures r == [] || !IsWhite(r[|r| - 1])
    decreases |s|
  {
    if s != [] && IsWhite(s[|s| - 1]) then TrimEnd(s[..|s| - 1]) else s
  }

  /** The longest prefix made of decimal digits. */
  function DigitPrefix(s: string): (r: string)
    ensures |r| <= |s| && r == s[..|r|]
    ensures AllDigits(r)
    ensures |r| == |s| || !IsDigit(s[|r|])
    decreases |s|
  {
    if s != [] && IsDigit(s[0]) then [s[0]] + DigitPrefix(s[1..]) else []
  }

  function DigitValue(c: char): (r: nat)
    requires IsDigit(c)
    ensures r < 10
  {
    (c as int - '0' as int)
  }

  function DigitChar(d: nat): (c: char)
    requires d < 10
    ensures IsDigit(c) && DigitValue(c) == d
  {
    ('0' as int + d) as char
  }

  /** The number a digit string denotes, read most significant digit first. */
  function DigitsValue(s: string): nat
    requires AllDigits(s)
    decreases |s|
  {
    if s == [] then 0 else 10 * DigitsValue(s[..|s| - 1]) + DigitValue(s[|s| - 1])
  }

  /** `Number.prototype.toString()` of a natural number: its shortest decimal form. */
  function NatToString(n: nat): (r: string)
    ensures r != [] && AllDigits(r)
    ensures n > 0 ==> r[0] != '0'
    decreases n
  {
    if n < 10 then [DigitChar(n)] else NatToString(n / 10) + [DigitChar(n % 10)]
  }

  /** A natural number below 10^k, and not below 10^(k-1) unless it has one digit, is written with k digits. */
  lemma {:induction false} NatToStringLength(n: nat, k: nat)
    requires 1 <= k && n < Pow10(k)
    requires k == 1 || Pow10(k - 1) <= n
    ensures |NatToString(n)| == k
    decreases k
  {
    if k > 1 {
      var p := Pow10(k - 2);
      assert Pow10(k) == 100 * p && Pow10(k - 1) == 10 * p;
      assert n / 10 < 10 * p;
      assert k - 1 == 1 || p <= n / 10;
      NatToStringLength(n / 10, k - 1);
    }
  }

  /** `Number.prototype.toString()` of an integer, with a `-` for negatives. */
  function IntToString(i: int): (r: string)
    ensures r != []
    ensures i >= 0 <==> IsDigit(r[0])
    ensures i < 0 <==> r[0] == '-'
  {
    if i >= 0 then NatToString(i) else "-" + NatToString(-i)
  }

  function Zeros(k: nat): (r: string)
    ensures |r| == k && forall i :: 0 <= i < k ==> r[i] == '0'
  {
    seq(k, _ => '0')
  }

  /** `s.padStart(len, '0')`. */
  function PadStart(s: string, len: int): (r: string)
    ensures |r| == if len <= |s| then |s| else len
    ensures r[|r| - |s|..] == s
    ensures forall i :: 0 <= i < |r| - |s| ==> r[i] == '0'
  {
    if len <= |s| then s else Zeros(len - |s|) + s
  }

  /** What `padStart` adds is a run of zeros in front. */
  lemma PadStartIsZeros(s: string, len: int)
    ensures |PadStart(s, len)| >= |s|
    ensures PadStart(s, len) == Zeros(|PadStart(s, len)| - |s|) + s
  {
    if len <= |s| {
      assert Zeros(0) + s == s;
    }
  }

  // ---------------------------------------------------------------------
  // parseInt(s, 10)

  /** `parseInt(s, 10)`; `None` stands for NaN. */
  function ParseInt(s: string): Option<int> {
    ParseTrimmed(TrimStart(s))
  }

  /** `parseInt` after the leading white space: an optional sign, then the run of digits. */
  function ParseTrimmed(t: string): Option<int> {
    var signed := t != [] && (t[0] == '-' || t[0] == '+');
    var body := if signed then t[1..] else t;
    var digits := DigitPrefix(body);
    if digits == [] then None
    else if t[0] == '-' then Some(0 - DigitsValue(digits))
    else Some(DigitsValue(digits))
  }

  /**
   * `String(v)` followed by `parseInt(_, 10)`; a finite number yields its truncation, and
   * the texts "undefined" and "NaN" have no digits (ParseIntValueOfText).
   */
  function ParseIntValue(v: Value): Option<int> {
    match v
    case UndefinedValue => None
    case NaNValue => None
    case Num(x) => Some(Trunc(x))
    case Str(s) => ParseInt(s)
  }

  /** `undefined` and NaN are parsed as the texts they print as. */
  lemma ParseIntValueOfText()
    ensures ParseIntValue(UndefinedValue) == ParseInt("undefined")
    ensures ParseIntValue(NaNValue) == ParseInt("NaN")
  {
    ParseIntLeadingNonDigit("undefined");
    ParseIntLeadingNonDigit("NaN");
  }

  lemma {:induction false} DigitsValueNatToString(n: nat)
    ensures DigitsValue(NatToString(n)) == n
    decreases n
  {
    var r := NatToString(n);
    if n >= 10 {
      DigitsValueNatToString(n / 10);
      assert r[..|r| - 1] == NatToString(n / 10);
    }
  }

  /** Leading zeros do not change the value of a digit string. */
  lemma {:induction false} DigitsValueLeadingZeros(k: nat, s: string)
    requires AllDigits(s)
    ensures AllDigits(Zeros(k) + s)
    ensures DigitsValue(Zeros(k) + s) == DigitsValue(s)
    decreases |s|
  {
    var z := Zeros(k) + s;
    if s == [] {
      assert z == Zeros(k);
      ZerosValue(k);
    } else {
      assert z[..|z| - 1] == Zeros(k) + s[..|s| - 1];
      DigitsValueLeadingZeros(k, s[..|s| - 1]);
    }
  }

  lemma {:induction false} ZerosValue(k: nat)
    ensures DigitsValue(Zeros(k)) == 0
    decreases k
  {
    if k > 0 {
      assert Zeros(k)[..k - 1] == Zeros(k - 1);
      ZerosValue(k - 1);
    }
  }

  lemma {:induction false} DigitPrefixOfDigits(s: string, t: string)
    requires AllDigits(s)
    requires t == [] || !IsDigit(t[0])
    ensures DigitPrefix(s + t) == s
    decreases |s|
  {
    if s != [] {
      assert (s + t)[1..] == s[1..] + t;
      DigitPrefixOfDigits(s[1..], t);
    } else {
      assert s + t == t;
    }
  }

  /** A string that starts with digits parses to their value, whatever follows them. */
  lemma ParseIntDigitsThenRest(s: string, t: string)
    requires s != [] && AllDigits(s)
    requires t == [] || !IsDigit(t[0])
    ensures ParseInt(s + t) == Some(DigitsValue(s))
  {
    var u := s + t;
    assert u[0] == s[0];
    DigitIsNotWhite(u[0]);
    TrimStartUnchanged(u);
    DigitPrefixOfDigits(s, t);
    ParseIntUnsigned(u);
  }

  lemma TrimStartUnchanged(u: string)
    requires u != [] && !IsWhite(u[0])
    ensures TrimStart(u) == u
  {
  }

  /** A string that starts with neither white space nor a sign is parsed from its first character. */
  lemma ParseIntUnsigned(u: string)
    requires u != [] && !IsWhite(u[0]) && u[0] != '-' && u[0] != '+'
    ensures ParseInt(u) == if DigitPrefix(u) == [] then None else Some(DigitsValue(DigitPrefix(u)))
  {
    TrimStartUnchanged(u);
  }

  /** A leading `-` negates the digits that follow it. */
  lemma ParseIntMinus(u: string, d: string)
    requires u != [] && u[0] == '-'
    requires d != [] && DigitPrefix(u[1..]) == d
    ensures ParseInt(u) == Some(0 - DigitsValue(d))
  {
    TrimStartUnchanged(u);
  }

  /** `parseInt(String(i), 10) == i`, and anything after the digits that is not a digit is ignored. */
  lemma ParseIntIntToString(i: int, t: string)
    requires t == [] || !IsDigit(t[0])
    ensures ParseInt(IntToString(i) + t) == Some(i)
  {
    if i >= 0 {
      ParseIntNatToString(i, t);
    } else {
      ParseIntNegIntToString(i, t);
    }
  }

  lemma ParseIntNegIntToString(i: int, t: string)
    requires i < 0
    requires t == [] || !IsDigit(t[0])
    ensures ParseInt(IntToString(i) + t) == Some(i)
  {
    var d := NatToString(-i);
    var u := "-" + d + t;
    assert IntToString(i) + t == u;
    ParseIntMinusDigits(d, t);
    DigitsValueNatToString(-i);
    assert DigitsValue(d) == -i;
  }

  lemma ParseIntNatToString(n: nat, t: string)
    requires t == [] || !IsDigit(t[0])
    ensures ParseInt(NatToString(n) + t) == Some(n)
  {
    ParseIntDigitsThenRest(NatToString(n), t);
    DigitsValueNatToString(n);
  }

  lemma ParseIntMinusDigits(d: string, t: string)
    requires d != [] && AllDigits(d)
    requires t == [] || !IsDigit(t[0])
    ensures ParseInt("-" + d + t) == Some(0 - DigitsValue(d))
  {
    var u := "-" + d + t;
    assert u[1..] == d + t;
    DigitPrefixOfDigits(d, t);
    ParseIntMinus(u, d);
  }

  /** A leading `+` is skipped. */
  lemma ParseIntPlus(u: string, d: string)
    requires u != [] && u[0] == '+'
    requires d != [] && DigitPrefix(u[1..]) == d
    ensures ParseInt(u) == Some(DigitsValue(d))
  {
    TrimStartUnchanged(u);
  }

  /** A string that starts with a character that is neither white space, a sign nor a digit is NaN. */
  lemma ParseIntLeadingNonDigit(u: string)
    requires u != [] && !IsWhite(u[0]) && !IsDigit(u[0]) && u[0] != '-' && u[0] != '+'
    ensures ParseInt(u) == None
  {
    ParseIntUnsigned(u);
  }

  lemma ParseIntPlusDigits(d: string, t: string)
    requires d != [] && AllDigits(d)
    requires t == [] || !IsDigit(t[0])
    ensures ParseInt("+" + d + t) == Some(DigitsValue(d))
  {
    var u := "+" + d + t;
    assert u[1..] == d + t;
    DigitPrefixOfDigits(d, t);
    ParseIntPlus(u, d);
  }

  /** With no decimal digit anywhere in the string, `parseInt` yields NaN. */
  lemma ParseIntNoDigit(s: string)
    requires forall i :: 0 <= i < |s| ==> !IsDigit(s[i])
    ensures ParseInt(s) == None
  {
    var t := TrimStart(s);
    var body := if t != [] && (t[0] == '-' || t[0] == '+') then t[1..] else t;
    assert body != [] ==> body[0] == s[|s| - |body|];
  }

  // ---------------------------------------------------------------------
  // Number(string), decimal literals only

  function Pow10(k: nat): (r: nat)
    ensures r >= 1
  {
    if k == 0 then 1 else 10 * Pow10(k - 1)
  }

  /**
   * `Number(s)` for a string holding a decimal literal: white space around an optional
   * sign, digits and an optional fraction; an empty or all-blank string is 0.
   * `None` stands for NaN.
   */
  function StrToNumber(s: string): Option<real> {
    var t := TrimEnd(TrimStart(s));
    if t == [] then Some(0.0)
    else if t[0] == '-' then Negate(UnsignedDecimal(t[1..]))
    else if t[0] == '+' then UnsignedDecimal(t[1..])
    else UnsignedDecimal(t)
  }

  /** Digits with an optional fraction, or a fraction alone; `None` for anything else. */
  function UnsignedDecimal(body: string): (r: Option<real>)
    ensures r.Some? ==> r.value >= 0.0
  {
    var ip := DigitPrefix(body);
    var after := body[|ip|..];
    if after == [] then
      if ip == [] then None else Some(DigitsValue(ip) as real)
    else if after[0] == '.' && AllDigits(after[1..]) && (ip != [] || |after| > 1) then
      Some(DigitsValue(ip) as real + Fraction(after[1..]))
    else None
  }

  /** The value of the digits after a decimal point. */
  function Fraction(fp: string): (r: real)
    requires AllDigits(fp)
    ensures 0.0 <= r
  {
    DigitsValue(fp) as real / Pow10(|fp|) as real
  }

  function Negate(r: Option<real>): Option<real> {
    match r
    case None => None
    case Some(x) => Some(-x)
  }

  /** `Number(v)` for an argument value; `None` stands for NaN. */
  function ToNumber(v: Value): (r: Option<real>)
    ensures v.Num? ==> r == Some(v.x)
    ensures v.UndefinedValue? || v.NaNValue? ==> r == None
  {
    match v
    case UndefinedValue => None
    case NaNValue => None
    case Num(x) => Some(x)
    case Str(s) => StrToNumber(s)
  }

  /** The integer literals `Number` accepts are read back as their value. */
  lemma StrToNumberIntToString(i: int)
    ensures StrToNumber(IntToString(i)) == Some(i as real)
  {
    if i >= 0 {
      StrToNumberDigits(NatToString(i));
      DigitsValueNatToString(i);
    } else {
      StrToNumberNegDigits(NatToString(-i));
      DigitsValueNatToString(-i);
    }
  }

  lemma TrimUnchanged(u: string)
    requires u != [] && !IsWhite(u[0]) && !IsWhite(u[|u| - 1])
    ensures TrimEnd(TrimStart(u)) == u
  {
    TrimStartUnchanged(u);
  }

  lemma StrToNumberDigits(d: string)
    requires d != [] && AllDigits(d)
    ensures StrToNumber(d) == Some(DigitsValue(d) as real)
  {
    DigitIsNotWhite(d[0]);
    DigitIsNotWhite(d[|d| - 1]);
    TrimUnchanged(d);
    UnsignedDecimalDigits(d);
  }

  lemma StrToNumberNegDigits(d: string)
    requires d != [] && AllDigits(d)
    ensures StrToNumber("-" + d) == Some(-(DigitsValue(d) as real))
  {
    StrToNumberMinus(d);
    NegateUnsignedDigits(d);
  }

  lemma NegateUnsignedDigits(d: string)
    requires d != [] && AllDigits(d)
    ensures Negate(UnsignedDecimal(d)) == Some(-(DigitsValue(d) as real))
  {
    UnsignedDecimalDigits(d);
    NegateSome(UnsignedDecimal(d), DigitsValue(d) as real);
  }

  lemma NegateSome(x: Option<real>, v: real)
    requires x == Some(v)
    ensures Negate(x) == Some(-v)
  {
  }

  lemma StrToNumberMinus(d: string)
    requires d != [] && AllDigits(d)
    ensures StrToNumber("-" + d) == Negate(UnsignedDecimal(d))
  {
    var u := "-" + d;
    assert u[1..] == d;
    assert u[|u| - 1] == d[|d| - 1];
    DigitIsNotWhite(d[|d| - 1]);
    TrimUnchanged(u);
  }

  lemma UnsignedDecimalDigits(d: string)
    requires d != [] && AllDigits(d)
    ensures UnsignedDecimal(d) == Some(DigitsValue(d) as real)
  {
    DigitPrefixOfDigits(d, []);
    assert d + [] == d;
  }
}
