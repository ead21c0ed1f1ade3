/**
 * The string helpers of src/utils.ts: `pad0`, left padding with zeros to a
 * width that defaults to 2, and `toInt`, `parseInt(_, 10)` with NaN reported
 * as `undefined`.
 */
module Utils {
  import opened Wrappers
  import opened JsValues

  /** What `pad0` is given: a number (an integer or NaN) or a string. */
  datatype PadArg = PadInt(i: int) | PadNaN | PadText(s: string)

  /** `number.toString()`. */
  function ArgString(a: PadArg): string {
    match a
    case PadInt(i) => IntToString(i)
    case PadNaN => "NaN"
    case PadText(s) => s
  }

  /** The width `pad0` pads to: `len`, or 2 when it is omitted. */
  function Width(len: Option<int>): int {
    if len.None? then 2 else len.value
  }

  /**
   * `pad0(number, len = 2)`: the argument's string, left-padded with '0' to at least
   * the width; a string already as long as the width is returned as it is.
   */
  function Pad0(a: PadArg, len: Option<int>): (r: string)
    ensures |r| == if Width(len) <= |ArgString(a)| then |ArgString(a)| else Width(len)
    ensures r[|r| - |ArgString(a)|..] == ArgString(a)
    ensures forall i :: 0 <= i < |r| - |ArgString(a)| ==> r[i] == '0'
    ensures Width(len) <= |ArgString(a)| ==> r == ArgString(a)
  {
    PadStart(ArgString(a), Width(len))
  }

  /**
   * `toInt(str)`: the integer `parseInt(str, 10)` reads, or `undefined` (`None`) when it
   * reads NaN. A finite number is read as its truncation; `undefined` reads as NaN.
   */
  function ToInt(v: Value): (r: Option<int>)
    ensures v.Num? ==> r == Some(Trunc(v.x))
    ensures v.Str? ==> r == ParseInt(v.s)
  {
    ParseIntValue(v)
  }

  // ---------------------------------------------------------------------
  // pad0

  /** With the default width, one digit gains a zero ... */
  lemma Pad0OneDigit()
    ensures Pad0(PadInt(5), None) == "05"
  {
    assert IntToString(5) == "5";
  }

  /** ... and two digits stay as they are. */
  lemma Pad0TwoDigits()
    ensures Pad0(PadInt(12), None) == "12"
  {
    assert IntToString(12) == "12";
  }

  /** A year is padded to four digits. */
  lemma Pad0Year()
    ensures Pad0(PadInt(7), Some(4)) == "0007"
  {
    assert IntToString(7) == "7";
  }

  /** A negative number is padded in front of its sign ... */
  lemma Pad0Negative()
    ensures Pad0(PadInt(-5), Some(4)) == "00-5"
  {
    assert IntToString(-5) == "-5";
  }

  /** ... and `toInt` then reads only the zeros before the sign. */
  lemma ToIntOfPaddedNegative()
    ensures ToInt(Str("00-5")) == Some(0)
  {
    var s := "00-5";
    TrimStartUnchanged(s);
    ParseIntUnsigned(s);
    DigitPrefixOfDigits("00", "-5");
    assert "00" + "-5" == s;
    assert DigitsValue("00") == 0 by {
      assert "00"[..1] == "0";
    }
  }

  // ---------------------------------------------------------------------
  // toInt

  /** `parseInt` skips leading white space. */
  lemma {:induction false} TrimStartWhite(w: string, u: string)
    requires forall i :: 0 <= i < |w| ==> IsWhite(w[i])
    requires u == [] || !IsWhite(u[0])
    ensures TrimStart(w + u) == u
    decreases |w|
  {
    if w != [] {
      assert (w + u)[1..] == w[1..] + u;
      TrimStartWhite(w[1..], u);
    }
  }

  lemma ParseIntAfterWhite(w: string, u: string)
    requires forall i :: 0 <= i < |w| ==> IsWhite(w[i])
    requires u == [] || !IsWhite(u[0])
    ensures ParseInt(w + u) == ParseInt(u)
  {
    TrimStartWhite(w, u);
    TrimStartWhite([], u);
    assert [] + u == u;
  }

  /**
   * After optional white space and sign, `toInt` reads the run of decimal digits and
   * ignores whatever follows it.
   */
  lemma ToIntLeadingDigits(w: string, d: string, t: string)
    requires forall i :: 0 <= i < |w| ==> IsWhite(w[i])
    requires d != [] && AllDigits(d)
    requires t == [] || !IsDigit(t[0])
    ensures ToInt(Str(w + d + t)) == Some(DigitsValue(d))
    ensures ToInt(Str(w + "+" + d + t)) == Some(DigitsValue(d))
    ensures ToInt(Str(w + "-" + d + t)) == Some(0 - DigitsValue(d))
  {
    ToIntUnsigned(w, d, t);
    ToIntPlus(w, d, t);
    ToIntMinus(w, d, t);
  }

  lemma ToIntUnsigned(w: string, d: string, t: string)
    requires forall i :: 0 <= i < |w| ==> IsWhite(w[i])
    requires d != [] && AllDigits(d)
    requires t == [] || !IsDigit(t[0])
    ensures ToInt(Str(w + d + t)) == Some(DigitsValue(d))
  {
    DigitIsNotWhite(d[0]);
    assert w + d + t == w + (d + t);
    ParseIntAfterWhite(w, d + t);
    ParseIntDigitsThenRest(d, t);
  }

  lemma ToIntPlus(w: string, d: string, t: string)
    requires forall i :: 0 <= i < |w| ==> IsWhite(w[i])
    requires d != [] && AllDigits(d)
    requires t == [] || !IsDigit(t[0])
    ensures ToInt(Str(w + "+" + d + t)) == Some(DigitsValue(d))
  {
    var u := "+" + d + t;
    assert w + "+" + d + t == w + u;
    ParseIntAfterWhite(w, u);
    ParseIntPlusDigits(d, t);
  }

  lemma ToIntMinus(w: string, d: string, t: string)
    requires forall i :: 0 <= i < |w| ==> IsWhite(w[i])
    requires d != [] && AllDigits(d)
    requires t == [] || !IsDigit(t[0])
    ensures ToInt(Str(w + "-" + d + t)) == Some(0 - DigitsValue(d))
  {
    var u := "-" + d + t;
    assert w + "-" + d + t == w + u;
    ParseIntAfterWhite(w, u);
    ParseIntMinusDigits(d, t);
  }

  /**
   * Without a digit after the leading white space and an optional sign, `toInt` gives
   * `undefined`; so do `undefined` and NaN. With ToIntLeadingDigits this covers every input.
   */
  lemma ToIntNoDigits(w: string, t: string)
    requires forall i :: 0 <= i < |w| ==> IsWhite(w[i])
    ensures t == [] || !IsDigit(t[0]) ==> ToInt(Str(w + "+" + t)) == None && ToInt(Str(w + "-" + t)) == None
    ensures t == [] || (!IsWhite(t[0]) && !IsDigit(t[0]) && t[0] != '+' && t[0] != '-') ==> ToInt(Str(w + t)) == None
    ensures ToInt(UndefinedValue) == None && ToInt(NaNValue) == None
  {
    if t == [] || !IsDigit(t[0]) {
      ToIntSignNoDigit(w, "+", t);
      ToIntSignNoDigit(w, "-", t);
    }
    if t == [] || (!IsWhite(t[0]) && !IsDigit(t[0]) && t[0] != '+' && t[0] != '-') {
      ToIntUnsignedNoDigit(w, t);
    }
    ToIntOfNonText();
  }

  /** A first character after the white space that is no sign and no digit gives `undefined`. */
  lemma ToIntUnsignedNoDigit(w: string, t: string)
    requires forall i :: 0 <= i < |w| ==> IsWhite(w[i])
    requires t == [] || (!IsWhite(t[0]) && !IsDigit(t[0]) && t[0] != '+' && t[0] != '-')
    ensures ToInt(Str(w + t)) == None
  {
    ParseIntAfterWhite(w, t);
    if t != [] {
      ParseIntLeadingNonDigit(t);
    }
  }

  /** `undefined` and NaN give `undefined`: `parseInt` reads their texts. */
  lemma ToIntOfNonText()
    ensures ToInt(UndefinedValue) == None && ToInt(NaNValue) == None
  {
  }

  /** A sign that is not followed by a digit makes `toInt` give `undefined`. */
  lemma ToIntSignNoDigit(w: string, sign: string, t: string)
    requires forall i :: 0 <= i < |w| ==> IsWhite(w[i])
    requires sign == "+" || sign == "-"
    requires t == [] || !IsDigit(t[0])
    ensures ToInt(Str(w + sign + t)) == None
  {
    var u := sign + t;
    assert w + sign + t == w + u;
    ParseIntAfterWhite(w, u);
    TrimStartUnchanged(u);
    assert u[1..] == t;
    assert DigitPrefix(t) == [];
  }

  /** The texts of the examples: the empty string, and words. */
  lemma ToIntOfText()
    ensures ToInt(Str("")) == None
    ensures ToInt(Str("this is not a number")) == None
  {
    ParseIntNoDigit("");
    ParseIntLeadingNonDigit("this is not a number");
  }

  /** `toInt` stops at the first character that is not a digit. */
  lemma ToIntTrailingIgnored()
    ensures ToInt(Str("12abc")) == Some(12)
  {
    var s := "12abc";
    TrimStartUnchanged(s);
    ParseIntUnsigned(s);
    DigitPrefixOfDigits("12", "abc");
    assert "12" + "abc" == s;
    assert DigitsValue("12") == 12 by {
      assert "12"[..1] == "1";
    }
  }

  /** Round trip: the zeros `pad0` adds are ignored by `toInt`, so a padded natural number reads back. */
  lemma ToIntPad0(n: nat, len: Option<int>)
    ensures ToInt(Str(Pad0(PadInt(n), len))) == Some(n)
  {
    var s := NatToString(n);
    assert ArgString(PadInt(n)) == s;
    var r := PadStart(s, Width(len));
    PadStartIsZeros(s, Width(len));
    var k := |r| - |s|;
    DigitsValueLeadingZeros(k, s);
    ParseIntDigitsThenRest(Zeros(k) + s, []);
    assert Zeros(k) + s + [] == r;
    DigitsValueNatToString(n);
  }
}
