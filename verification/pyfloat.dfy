/**
 Python's `float(x)` for a string `x`, restricted to plain decimal
 literals: surrounding whitespace is stripped, then an optional sign,
 decimal digits with at most one `.`, and at least one digit. The value
 is kept exact as a `Decimal`, not rounded to a binary double.
 */
module PyFloat {
  import opened Wrappers
  import opened PyStr

  /** The number `mantissa / 10^scale`. */
  datatype Decimal = Decimal(mantissa: int, scale: nat)

  function Pow10(n: nat): (r: nat)
    ensures r >= 1
  {
    if n == 0 then 1 else 10 * Pow10(n - 1)
  }

  /** The real number a `Decimal` denotes. */
  function Value(d: Decimal): real
  {
    d.mantissa as real / Pow10(d.scale) as real
  }

  /** `x > 0` for the value `float()` returned. */
  predicate Positive(d: Decimal)
  {
    d.mantissa > 0
  }

  lemma PositiveIsValuePositive(d: Decimal)
    ensures Positive(d) <==> Value(d) > 0.0
  {
    var p := Pow10(d.scale) as real;
    var m := d.mantissa as real;
    assert Value(d) * p == m;
    if m > 0.0 {
      assert Value(d) > 0.0;
    } else {
      assert Value(d) <= 0.0;
    }
  }

  function Negate(d: Decimal): Decimal
  {
    Decimal(-d.mantissa, d.scale)
  }

  predicate IsDigit(c: char)
  {
    '0' <= c <= '9'
  }

  predicate AllDigits(s: string)
  {
    forall i :: 0 <= i < |s| ==> IsDigit(s[i])
  }

  function DigitValue(c: char): nat
    requires IsDigit(c)
  {
    c as int - '0' as int
  }

  function DigitChar(n: nat): (c: char)
    requires n < 10
    ensures IsDigit(c) && DigitValue(c) == n
  {
    (n + '0' as int) as char
  }

  /** The natural number a string of decimal digits spells, most significant first. */
  function DigitsValue(s: string): nat
    requires AllDigits(s)
  {
    if |s| == 0 then 0 else DigitsValue(s[..|s| - 1]) * 10 + DigitValue(s[|s| - 1])
  }

  lemma AllDigitsAppend(a: string, b: string)
    requires AllDigits(a) && AllDigits(b)
    ensures AllDigits(a + b)
  {
    forall i | 0 <= i < |a + b| ensures IsDigit((a + b)[i]) {
      if i < |a| {
        assert (a + b)[i] == a[i];
      } else {
        assert (a + b)[i] == b[i - |a|];
      }
    }
  }

  lemma ShiftDigit(x: int, p: int, y: int, l: int)
    ensures (x * p + y) * 10 + l == x * (p * 10) + (y * 10 + l)
  {
  }

  lemma {:induction false} DigitsValueAppend(a: string, b: string)
    requires AllDigits(a) && AllDigits(b)
    ensures AllDigits(a + b)
    ensures DigitsValue(a + b) == DigitsValue(a) * Pow10(|b|) + DigitsValue(b)
  {
    AllDigitsAppend(a, b);
    if |b| == 0 {
      assert a + b == a;
    } else {
      var b' := b[..|b| - 1];
      var last := b[|b| - 1];
      assert (a + b)[..|a + b| - 1] == a + b';
      assert (a + b)[|a + b| - 1] == last;
      DigitsValueAppend(a, b');
      ShiftDigit(DigitsValue(a), Pow10(|b'|), DigitsValue(b'), DigitValue(last));
    }
  }

  /** The characters Python's `float()` strips from both ends of its argument. */
  predicate IsSpace(c: char)
  {
    var n := c as int;
    n == 0x20 || 0x09 <= n <= 0x0D || n == 0x85 || n == 0xA0 || n == 0x1680
    || 0x2000 <= n <= 0x200A || n == 0x2028 || n == 0x2029 || n == 0x202F
    || n == 0x205F || n == 0x3000
  }

  function StripStart(s: string): (r: string)
    ensures |r| <= |s| && r == s[|s| - |r|..]
    ensures forall i :: 0 <= i < |s| - |r| ==> IsSpace(s[i])
    ensures |r| > 0 ==> !IsSpace(r[0])
  {
    if |s| > 0 && IsSpace(s[0]) then StripStart(s[1..]) else s
  }

  function StripEnd(s: string): (r: string)
    ensures |r| <= |s| && r == s[..|r|]
    ensures forall i :: |r| <= i < |s| ==> IsSpace(s[i])
    ensures |r| > 0 ==> !IsSpace(r[|r| - 1])
  {
    if |s| > 0 && IsSpace(s[|s| - 1]) then StripEnd(s[..|s| - 1]) else s
  }

  /** `s.strip()` with the whitespace set of `float()`. */
  function Strip(s: string): string
  {
    StripEnd(StripStart(s))
  }

  lemma StripUnpadded(s: string)
    requires |s| == 0 || (!IsSpace(s[0]) && !IsSpace(s[|s| - 1]))
    ensures Strip(s) == s
  {
  }

  /** Index of the first `c` in `s`, or `|s|` when there is none (`s.find(c)` with `-1` read as `|s|`). */
  function FirstIndex(s: string, c: char): (k: nat)
    ensures k <= |s|
    ensures k < |s| ==> s[k] == c
    ensures c !in s[..k]
  {
    if |s| == 0 then 0
    else if s[0] == c then 0
    else
      var k := 1 + FirstIndex(s[1..], c);
      assert s[..k] == [s[0]] + s[1..][..k - 1];
      k
  }

  lemma {:induction false} FirstIndexAbsent(s: string, c: char)
    requires c !in s
    ensures FirstIndex(s, c) == |s|
  {
    if |s| > 0 {
      assert s[1..] == s[1..] && s[0] in s;
      assert forall x :: x in s[1..] ==> x in s;
      FirstIndexAbsent(s[1..], c);
    }
  }

  lemma {:induction false} FirstIndexAfter(a: string, c: char, b: string)
    requires c !in a
    ensures FirstIndex(a + [c] + b, c) == |a|
  {
    if |a| == 0 {
      assert (a + [c] + b)[0] == c;
    } else {
      assert (a + [c] + b)[1..] == a[1..] + [c] + b;
      assert a[0] in a;
      assert forall x :: x in a[1..] ==> x in a;
      FirstIndexAfter(a[1..], c, b);
    }
  }

  lemma DigitsExclude(s: string, c: char)
    requires AllDigits(s) && !IsDigit(c)
    ensures c !in s
  {
    forall j | 0 <= j < |s| ensures s[j] != c {
      assert IsDigit(s[j]);
    }
  }

  /**
   An unsigned literal: digits, or digits `.` digits with at least one
   digit in all. The mantissa is the digits read without the dot, the
   scale the number of digits after it.
   */
  function ParseUnsigned(b: string): Option<Decimal>
  {
    var k := FirstIndex(b, '.');
    if k == |b| then
      if |b| > 0 && AllDigits(b) then Some(Decimal(DigitsValue(b), 0)) else None
    else
      var whole, frac := b[..k], b[k + 1..];
      if |whole| + |frac| > 0 && AllDigits(whole) && AllDigits(frac) then
        AllDigitsAppend(whole, frac);
        Some(Decimal(DigitsValue(whole + frac), |frac|))
      else None
  }

  /**
   `float(s)`: `None` where Python raises `ValueError`. Blank text never
   parses, and only a leading minus gives a negative number.
   */
  function ParseFloat(s: string): (r: Option<Decimal>)
    ensures r.Some? ==> |Strip(s)| > 0
    ensures r.Some? && r.value.mantissa < 0 ==> |Strip(s)| > 0 && Strip(s)[0] == '-'
  {
    var t := Strip(s);
    if |t| > 0 && (t[0] == '+' || t[0] == '-') then
      match ParseUnsigned(t[1..])
      case None => None
      case Some(d) => Some(if t[0] == '-' then Negate(d) else d)
    else ParseUnsigned(t)
  }

  /** The text after an optional leading sign. */
  function Unsigned(t: string): string
  {
    if |t| > 0 && (t[0] == '+' || t[0] == '-') then t[1..] else t
  }

  /**
   The shape of an unsigned literal stated by character classes: only
   digits and dots, at most one dot, and some digit.
   */
  ghost predicate UnsignedShape(b: string)
  {
    && (forall i :: 0 <= i < |b| ==> IsDigit(b[i]) || b[i] == '.')
    && Count('.', b) <= 1
    && (exists i :: 0 <= i < |b| && IsDigit(b[i]))
  }

  /** The shape `float()` accepts: an optional sign, then an unsigned literal. */
  ghost predicate IsLiteral(t: string)
  {
    UnsignedShape(Unsigned(t))
  }

  /** Without a dot, both sides say: a non-empty run of digits. */
  lemma UndottedShape(b: string)
    requires FirstIndex(b, '.') == |b|
    ensures UnsignedShape(b) <==> |b| > 0 && AllDigits(b)
  {
    assert b[..|b|] == b;
    CountZero('.', b);
    if UnsignedShape(b) {
      forall i | 0 <= i < |b| ensures IsDigit(b[i]) {
        assert b[i] in b;
      }
    }
    if |b| > 0 && AllDigits(b) {
      assert IsDigit(b[0]);
    }
  }

  /** A character at `k` with none before it adds one to the count of the tail after it. */
  lemma CountFirst(b: string, c: char, k: nat)
    requires k < |b| && b[k] == c && c !in b[..k]
    ensures Count(c, b) == 1 + Count(c, b[k + 1..])
  {
    var whole, frac := b[..k], b[k + 1..];
    assert b == (whole + [c]) + frac;
    CountAppend(c, whole + [c], frac);
    CountAppend(c, whole, [c]);
    CountZero(c, whole);
  }

  /** Digit runs around the first dot, not both empty, make an unsigned shape. */
  lemma DottedToShape(b: string, k: nat)
    requires k == FirstIndex(b, '.') < |b|
    requires |b[..k]| + |b[k + 1..]| > 0 && AllDigits(b[..k]) && AllDigits(b[k + 1..])
    ensures UnsignedShape(b)
  {
    var whole, frac := b[..k], b[k + 1..];
    DigitsExclude(frac, '.');
    CountZero('.', frac);
    CountFirst(b, '.', k);
    forall i | 0 <= i < |b| ensures IsDigit(b[i]) || b[i] == '.' {
      if i < k {
        assert b[i] == whole[i];
      } else if i > k {
        assert b[i] == frac[i - k - 1];
      }
    }
    if |whole| > 0 {
      assert IsDigit(b[0]);
    } else {
      assert b[k + 1] == frac[0];
      assert IsDigit(b[k + 1]);
    }
  }

  /** An unsigned shape with a dot has digit runs around it, not both empty. */
  lemma ShapeToDotted(b: string, k: nat)
    requires k == FirstIndex(b, '.') < |b| && UnsignedShape(b)
    ensures |b[..k]| + |b[k + 1..]| > 0 && AllDigits(b[..k]) && AllDigits(b[k + 1..])
  {
    var whole, frac := b[..k], b[k + 1..];
    CountFirst(b, '.', k);
    CountZero('.', frac);
    forall j | 0 <= j < |frac| ensures IsDigit(frac[j]) {
      assert frac[j] == b[k + 1 + j];
      assert frac[j] in frac;
    }
    forall j | 0 <= j < |whole| ensures IsDigit(whole[j]) {
      assert whole[j] == b[j];
      assert whole[j] in whole;
    }
    var i :| 0 <= i < |b| && IsDigit(b[i]);
    assert i != k;
  }

  lemma ParseUnsignedShape(b: string)
    ensures ParseUnsigned(b).Some? <==> UnsignedShape(b)
  {
    var k := FirstIndex(b, '.');
    if k == |b| {
      UndottedShape(b);
    } else {
      if UnsignedShape(b) {
        ShapeToDotted(b, k);
      }
      if ParseUnsigned(b).Some? {
        DottedToShape(b, k);
      }
    }
  }

  /** `float(s)` succeeds exactly when the stripped text has the literal shape. */
  lemma ParseFloatShape(s: string)
    ensures ParseFloat(s).Some? <==> IsLiteral(Strip(s))
  {
    ParseUnsignedShape(Unsigned(Strip(s)));
  }

  // Writing a decimal back out, as the inverse `float()` is checked against.

  /** The canonical digits of `n`: no leading zeros except for `0` itself. */
  function NatDigits(n: nat): (s: string)
    ensures |s| > 0 && AllDigits(s) && DigitsValue(s) == n
  {
    if n < 10 then
      var s := [DigitChar(n)];
      assert s[..0] == [];
      s
    else
      var s := NatDigits(n / 10) + [DigitChar(n % 10)];
      AllDigitsAppend(NatDigits(n / 10), [DigitChar(n % 10)]);
      assert s[..|s| - 1] == NatDigits(n / 10);
      s
  }

  /** `n` zero digits. */
  function Zeros(n: nat): (s: string)
    ensures |s| == n && AllDigits(s) && DigitsValue(s) == 0
  {
    if n == 0 then [] else
      var s := Zeros(n - 1) + "0";
      assert s[..|s| - 1] == Zeros(n - 1);
      s
  }

  function Abs(m: int): nat
  {
    if m < 0 then -m else m
  }

  /** The digits of `|d.mantissa|`, left-padded with zeros to at least `d.scale + 1` digits. */
  function PaddedDigits(d: Decimal): (s: string)
    ensures |s| > d.scale && AllDigits(s) && DigitsValue(s) == Abs(d.mantissa)
  {
    var digits := NatDigits(Abs(d.mantissa));
    var pad := if |digits| > d.scale then 0 else d.scale + 1 - |digits|;
    DigitsValueAppend(Zeros(pad), digits);
    Zeros(pad) + digits
  }

  /** The integer digits of `|d|`: at least one, `0` when `|d| < 1`. */
  function WholeDigits(d: Decimal): (s: string)
    ensures |s| > 0 && AllDigits(s)
  {
    var padded := PaddedDigits(d);
    padded[..|padded| - d.scale]
  }

  /** The `d.scale` fraction digits of `|d|`. */
  function FracDigits(d: Decimal): (s: string)
    ensures |s| == d.scale && AllDigits(s)
  {
    var padded := PaddedDigits(d);
    padded[|padded| - d.scale..]
  }

  /** The magnitude of `d` written with `sep` as its decimal separator and exactly `d.scale` fraction digits. */
  function UnsignedText(d: Decimal, sep: char): (s: string)
    ensures |s| > 0 && IsDigit(s[0]) && IsDigit(s[|s| - 1])
  {
    var s := WholeDigits(d) + (if d.scale == 0 then "" else [sep] + FracDigits(d));
    assert s[0] == WholeDigits(d)[0];
    assert d.scale > 0 ==> s[|s| - 1] == FracDigits(d)[d.scale - 1];
    s
  }

  /** The decimal written with `sep` as its decimal separator, `-` first when negative. */
  function Render(d: Decimal, sep: char): string
  {
    (if d.mantissa < 0 then "-" else "") + UnsignedText(d, sep)
  }

  /** Digits alone parse as a whole number. */
  lemma ParseWhole(whole: string)
    requires |whole| > 0 && AllDigits(whole)
    ensures ParseUnsigned(whole) == Some(Decimal(DigitsValue(whole), 0))
  {
    DigitsExclude(whole, '.');
    FirstIndexAbsent(whole, '.');
  }

  /** Digits, a dot and digits parse with the fraction's length as scale. */
  lemma ParseWithFraction(whole: string, frac: string)
    requires |whole| > 0 && AllDigits(whole) && AllDigits(frac)
    ensures AllDigits(whole + frac)
    ensures ParseUnsigned(whole + ['.'] + frac) == Some(Decimal(DigitsValue(whole + frac), |frac|))
  {
    var b := whole + ['.'] + frac;
    DigitsExclude(whole, '.');
    FirstIndexAfter(whole, '.', frac);
    AllDigitsAppend(whole, frac);
    assert b[..|whole|] == whole;
    assert b[|whole| + 1..] == frac;
  }

  /** The unsigned text `Render` writes with a `.` separator parses back to the magnitude. */
  lemma ParseUnsignedRendered(d: Decimal)
    ensures ParseUnsigned(UnsignedText(d, '.')) == Some(Decimal(Abs(d.mantissa), d.scale))
  {
    var whole, frac := WholeDigits(d), FracDigits(d);
    assert PaddedDigits(d) == whole + frac;
    if d.scale == 0 {
      assert UnsignedText(d, '.') == whole == PaddedDigits(d);
      ParseWhole(whole);
    } else {
      assert UnsignedText(d, '.') == whole + ['.'] + frac;
      ParseWithFraction(whole, frac);
    }
  }

  /** A literal whose unsigned part starts and ends with a digit parses as that part. */
  lemma ParseNonNegative(body: string)
    requires |body| > 0 && IsDigit(body[0]) && IsDigit(body[|body| - 1])
    ensures ParseFloat(body) == ParseUnsigned(body)
  {
    StripUnpadded(body);
  }

  /** The same part after a `-` parses negated. */
  lemma ParseNegative(body: string)
    requires |body| > 0 && IsDigit(body[0]) && IsDigit(body[|body| - 1])
    ensures ParseFloat("-" + body) ==
            (if ParseUnsigned(body).Some? then Some(Negate(ParseUnsigned(body).value)) else None)
  {
    var t := "-" + body;
    assert t[|t| - 1] == body[|body| - 1];
    StripUnpadded(t);
    assert t[0] == '-';
    assert t[1..] == body;
  }

  /** `float()` reads back exactly what `Render` writes with a `.` separator. */
  lemma ParseFloatRender(d: Decimal)
    ensures ParseFloat(Render(d, '.')) == Some(d)
  {
    var body := UnsignedText(d, '.');
    ParseUnsignedRendered(d);
    if d.mantissa < 0 {
      assert Render(d, '.') == "-" + body;
      ParseNegative(body);
    } else {
      assert Render(d, '.') == body;
      ParseNonNegative(body);
    }
  }
}
