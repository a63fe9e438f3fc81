/** Weight readings as the scale codecs report them (the `ScalesWeightResponse`
    shape), with the weight kept as an exact decimal instead of a float. */
module Weights {
  import opened Common

  /** `(-1 if negative else 1) * raw / 10**pos`, kept exact. */
  datatype Decimal = Decimal(negative: bool, raw: nat, pos: nat)

  function Value(d: Decimal): real
  {
    (if d.negative then -1.0 else 1.0) * (d.raw as real) / (Pow(10, d.pos) as real)
  }

  datatype Reading = Reading(weight: Decimal, stable: bool, overload: bool)

  /** Bytes seen as Latin-1 characters, so the ASCII-class parsers can work on text. */
  function Chars(b: seq<Byte>): (s: string)
    ensures |s| == |b| && forall i :: 0 <= i < |b| ==> s[i] as int == b[i]
  {
    if b == [] then [] else [b[0] as char] + Chars(b[1..])
  }

  lemma {:induction false} CharsAppend(a: seq<Byte>, b: seq<Byte>)
    ensures Chars(a + b) == Chars(a) + Chars(b)
  {
    if a != [] {
      assert (a + b)[1..] == a[1..] + b;
      CharsAppend(a[1..], b);
    }
  }

  lemma {:induction false} CharsOfAscii(s: string)
    requires IsAscii(s)
    ensures Chars(AsciiBytes(s)) == s
    decreases |s|
  {
    if s != [] {
      CharsOfAscii(s[1..]);
    }
  }

  /** Python's `float()` restricted to the plain decimal spellings the scales send:
      an optional sign, digits, at most one dot, at least one digit overall. */
  function ParseFloat(s: string): (r: Option<Decimal>)
    ensures r.Some? ==> |s| >= 1
  {
    if |s| > 0 && (s[0] == '+' || s[0] == '-') then ParseUnsigned(s[1..], s[0] == '-')
    else ParseUnsigned(s, false)
  }

  function ParseUnsigned(body: string, negative: bool): (r: Option<Decimal>)
    ensures r.Some? ==> |body| >= 1 && r.value.negative == negative
  {
    var dot := FindFrom(body, '.', 0);
    var intPart := if dot == -1 then body else body[..dot];
    var fracPart := if dot == -1 then [] else body[dot + 1..];
    if AllDigits(intPart) && AllDigits(fracPart) && |intPart| + |fracPart| >= 1 then
      Some(Decimal(negative, DecValue(intPart + fracPart), |fracPart|))
    else
      None
  }

  lemma ParseUnsignedDigits(digits: string, negative: bool)
    requires AllDigits(digits) && |digits| >= 1
    ensures ParseUnsigned(digits, negative) == Some(Decimal(negative, DecValue(digits), 0))
  {
    FindFromNone(digits, '.', 0);
    assert digits + [] == digits;
  }

  lemma ParseUnsignedDotted(a: string, b: string, negative: bool)
    requires AllDigits(a) && AllDigits(b) && |a| + |b| >= 1
    ensures ParseUnsigned(a + "." + b, negative) == Some(Decimal(negative, DecValue(a + b), |b|))
  {
    var body := a + "." + b;
    forall i | 0 <= i < |a| ensures body[i] != '.' { assert body[i] == a[i]; }
    FindFromAt(body, '.', 0, |a|);
    assert body[..|a|] == a;
    assert body[|a| + 1..] == b;
  }

  /** The digits of a decimal without its sign: at least one integer digit, and
      exactly `pos` fraction digits after a dot when `pos > 0`. */
  function FormatUnsigned(d: Decimal): (s: string)
  {
    var digits := DecPad(d.raw, d.pos + 1);
    if d.pos == 0 then digits
    else digits[..|digits| - d.pos] + "." + digits[|digits| - d.pos..]
  }

  /** The plain spelling of a decimal: a '-' for a negative one, then its digits. */
  function FormatDecimal(d: Decimal): (s: string)
  {
    (if d.negative then "-" else "") + FormatUnsigned(d)
  }

  /** Without a sign in front, `float()` reads the body as a non-negative number. */
  lemma ParseUnsignedOnly(body: string)
    requires |body| >= 1 && body[0] != '+' && body[0] != '-'
    ensures ParseFloat(body) == ParseUnsigned(body, false)
  {
  }

  lemma ParseSigned(negative: bool, body: string)
    requires |body| >= 1 && body[0] != '+' && body[0] != '-'
    ensures ParseFloat((if negative then "-" else "") + body) == ParseUnsigned(body, negative)
  {
    if negative {
      assert ("-" + body)[1..] == body;
    } else {
      assert "" + body == body;
    }
  }

  /** The unsigned spelling starts and ends with a digit, holds only digits and at
      most one dot, and reads back as the same number and position. */
  lemma FormatUnsignedFacts(d: Decimal)
    ensures var u := FormatUnsigned(d);
      |u| >= 1 && IsAsciiDigit(u[0]) && IsAsciiDigit(u[|u| - 1])
      && (forall i :: 0 <= i < |u| ==> IsAsciiDigit(u[i]) || u[i] == '.')
      && ParseUnsigned(u, d.negative) == Some(d)
  {
    if d.pos == 0 { FormatWhole(d); } else { FormatFraction(d); }
  }

  lemma FormatWhole(d: Decimal)
    requires d.pos == 0
    ensures var u := FormatUnsigned(d);
      |u| >= 1 && IsAsciiDigit(u[0]) && IsAsciiDigit(u[|u| - 1])
      && (forall i :: 0 <= i < |u| ==> IsAsciiDigit(u[i]) || u[i] == '.')
      && ParseUnsigned(u, d.negative) == Some(d)
  {
    DecPadNat(d.raw, 1);
    ParseUnsignedDigits(DecPad(d.raw, 1), d.negative);
  }

  lemma FormatFraction(d: Decimal)
    requires d.pos > 0
    ensures var u := FormatUnsigned(d);
      |u| >= 1 && IsAsciiDigit(u[0]) && IsAsciiDigit(u[|u| - 1])
      && (forall i :: 0 <= i < |u| ==> IsAsciiDigit(u[i]) || u[i] == '.')
      && ParseUnsigned(u, d.negative) == Some(d)
  {
    DecPadNat(d.raw, d.pos + 1);
    var digits := DecPad(d.raw, d.pos + 1);
    var k := |digits| - d.pos;
    var a, b := digits[..k], digits[k..];
    SplitDigits(digits, k);
    DottedShape(a, b);
    ParseUnsignedDotted(a, b, d.negative);
  }

  lemma SplitDigits(digits: string, k: nat)
    requires AllDigits(digits) && k <= |digits|
    ensures AllDigits(digits[..k]) && AllDigits(digits[k..])
    ensures digits[..k] + digits[k..] == digits
  {
    assert forall i :: 0 <= i < |digits[k..]| ==> digits[k..][i] == digits[k + i];
  }

  /** Two digit runs around a dot: a digit at each end, and only digits and the dot. */
  lemma DottedShape(a: string, b: string)
    requires AllDigits(a) && AllDigits(b) && |a| >= 1 && |b| >= 1
    ensures var u := a + "." + b;
      IsAsciiDigit(u[0]) && IsAsciiDigit(u[|u| - 1])
      && forall i :: 0 <= i < |u| ==> IsAsciiDigit(u[i]) || u[i] == '.'
  {
    var u := a + "." + b;
    assert u[0] == a[0] && u[|u| - 1] == b[|b| - 1];
    forall i | 0 <= i < |u| ensures IsAsciiDigit(u[i]) || u[i] == '.' {
      if i < |a| { assert u[i] == a[i]; }
      else if i > |a| { assert u[i] == b[i - |a| - 1]; }
    }
  }

  /** Reading back what `FormatDecimal` writes gives the same decimal. */
  lemma ParseFormatDecimal(d: Decimal)
    ensures ParseFloat(FormatDecimal(d)) == Some(d)
  {
    FormatUnsignedFacts(d);
    ParseSigned(d.negative, FormatUnsigned(d));
  }
}
