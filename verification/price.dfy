/**
 The price sanitiser: the fixed chain of `str.replace` steps that turns a
 Danish-formatted price text such as `12.345,-kr.` or `9,99 kr.` into a
 literal, followed by `float()`.
 */
module Price {
  import opened Wrappers
  import opened PyStr
  import opened PyFloat

  /** The `ValueError` raised when the sanitised text is not a number; it quotes the sanitised text. */
  datatype ParseError = ParseError(text: string)

  /** The first two steps: drop the currency `kr.` and the `,-` of a whole-krone price. */
  function DropCurrency(s: string): string
  {
    Replace(Replace(s, "kr.", ""), ",-", "")
  }

  /**
   The full chain: after `DropCurrency`, remove the `.` thousands
   separators, turn the decimal comma into `.`, and remove spaces. No
   comma and no space survives it.
   */
  function Sanitize(s: string): (r: string)
    ensures ',' !in r && ' ' !in r
  {
    var s4 := Replace(Replace(DropCurrency(s), ".", ""), ",", ".");
    // the comma step left no comma, and deleting spaces keeps it that way
    CountZero(',', s4);
    ReplaceCharDelete(s4, ' ', ',');
    CountZero(',', Replace(s4, " ", ""));
    Replace(s4, " ", "")
  }

  /**
   `_sanitize_price_string`: the sanitised text parsed by `float()`. It
   succeeds exactly when the sanitised text, stripped, has the literal
   shape; otherwise the error quotes the sanitised text.
   */
  function SanitizePrice(s: string): (r: Result<Decimal, ParseError>)
    ensures r.Success? <==> IsLiteral(Strip(Sanitize(s)))
    ensures r.Failure? ==> r.error == ParseError(Sanitize(s))
  {
    ParseFloatShape(Sanitize(s));
    match ParseFloat(Sanitize(s))
    case Some(d) => Success(d)
    case None => Failure(ParseError(Sanitize(s)))
  }

  /** Character counts through the last three steps, in terms of the text after `DropCurrency`. */
  lemma SanitizeCounts(s: string, x: char)
    ensures var t := DropCurrency(s);
            Count(x, Sanitize(s)) ==
            if x == ' ' || x == ',' then 0
            else if x == '.' then Count(',', t)
            else Count(x, t)
  {
    var t := DropCurrency(s);
    var s3 := Replace(t, ".", "");
    var s4 := Replace(s3, ",", ".");
    ReplaceCharDelete(t, '.', x);
    ReplaceCharDelete(t, '.', '.');
    ReplaceCharDelete(t, '.', ',');
    ReplaceCharSwap(s3, ',', '.', x);
    ReplaceCharDelete(s4, ' ', x);
  }

  /**
   Every dot in the sanitised text was a comma: input dots are removed
   before commas become dots.
   */
  lemma SanitizeDotsFromCommas(s: string)
    ensures Count('.', Sanitize(s)) == Count(',', DropCurrency(s))
  {
    SanitizeCounts(s, '.');
  }

  /** Every step deletes text or maps one character to one character. */
  lemma SanitizeNeverLonger(s: string)
    ensures |Sanitize(s)| <= |s|
  {
    var s1 := Replace(s, "kr.", "");
    var s2 := Replace(s1, ",-", "");
    var s3 := Replace(s2, ".", "");
    var s4 := Replace(s3, ",", ".");
    ShrinkingReplace(s, "kr.", "");
    ShrinkingReplace(s1, ",-", "");
    ShrinkingReplace(s2, ".", "");
    ReplaceLength(s3, ",", ".");
    ShrinkingReplace(s4, " ", "");
  }

  /** A text with no comma, dot or space passes every step untouched. */
  lemma SanitizeKeepsPlain(s: string)
    requires ',' !in s && '.' !in s && ' ' !in s
    ensures Sanitize(s) == s
  {
    KrNeedsDot(s);
    ReplaceAbsent(s, "kr.", "");
    AbsentFirstChar(s, ",-");
    ReplaceAbsent(s, ",-", "");
    AbsentFirstChar(s, ".");
    ReplaceAbsent(s, ".", "");
    AbsentFirstChar(s, ",");
    ReplaceAbsent(s, ",", ".");
    AbsentFirstChar(s, " ");
    ReplaceAbsent(s, " ", "");
  }

  /** A text the chain leaves untouched has no comma, dot or space. */
  lemma SanitizeFixedIsPlain(s: string)
    requires Sanitize(s) == s
    ensures ',' !in s && '.' !in s && ' ' !in s
  {
    var s1 := Replace(s, "kr.", "");
    var s2 := Replace(s1, ",-", "");
    var s3 := Replace(s2, ".", "");
    var s4 := Replace(s3, ",", ".");
    ShrinkingReplace(s, "kr.", "");
    ShrinkingReplace(s1, ",-", "");
    ShrinkingReplace(s2, ".", "");
    ReplaceLength(s3, ",", ".");
    ShrinkingReplace(s4, " ", "");
    // every step is length-preserving, so none of them found its pattern
    assert |s1| == |s| && |s2| == |s1| && |s3| == |s2|;
    AbsentSingle(s2, '.');
    assert s1 == s by { ReplaceAbsentFromLength(s, "kr."); }
    assert s2 == s1 by { ReplaceAbsentFromLength(s1, ",-"); }
  }

  /** The chain leaves a text unchanged exactly when it has no comma, dot or space. */
  lemma SanitizeUnchangedIff(s: string)
    ensures Sanitize(s) == s <==> ',' !in s && '.' !in s && ' ' !in s
  {
    if ',' !in s && '.' !in s && ' ' !in s {
      SanitizeKeepsPlain(s);
    }
    if Sanitize(s) == s {
      SanitizeFixedIsPlain(s);
    }
  }

  /** `kr.` cannot occur in a text without `.`. */
  lemma KrNeedsDot(s: string)
    requires '.' !in s
    ensures !Occurs(s, "kr.")
  {
    forall i | 0 <= i && i + 3 <= |s| ensures !OccursAt(s, "kr.", i) {
      assert s[i..i + 3][2] == s[i + 2];
    }
  }

  /** A removal that does not shorten the text found nothing to remove. */
  lemma ReplaceAbsentFromLength(s: string, p: string)
    requires |p| > 0 && |Replace(s, p, "")| == |s|
    ensures Replace(s, p, "") == s
  {
    ShrinkingReplace(s, p, "");
    ReplaceAbsent(s, p, "");
  }

  /** A removal of a single character that does not shorten the text found none. */
  lemma AbsentSingle(s: string, c: char)
    requires |Replace(s, [c], "")| == |s|
    ensures c !in s
  {
    ShrinkingReplace(s, [c], "");
    CharOccurs(s, c);
  }

  /** A price text with no `k`, no `.`, and no `-` after its first character passes the first three steps unchanged. */
  lemma FirstStepsKeep(s: string)
    requires |s| > 0 && 'k' !in s && '.' !in s && '-' !in s[1..]
    ensures Replace(DropCurrency(s), ".", "") == s
  {
    AbsentFirstChar(s, "kr.");
    ReplaceAbsent(s, "kr.", "");
    AbsentSecondChar(s, ",-");
    ReplaceAbsent(s, ",-", "");
    AbsentFirstChar(s, ".");
    ReplaceAbsent(s, ".", "");
  }

  /** Turning commas into dots in `a + "," + b` where only the middle comma exists. */
  lemma CommaToDot(a: string, b: string)
    requires ',' !in a && ',' !in b
    ensures Replace(a + "," + b, ",", ".") == a + "." + b
  {
    assert a + "," + b == a + ([','] + b);
    ReplaceSkip(a, [','] + b, ",", ".");
    ReplaceCharHead(',', b, ".");
    ReplaceFree(b, ",", ".");
  }

  /** A signed Danish literal: optional `-`, integer digits, and optionally `sep` and fraction digits. */
  function Literal(sign: string, w: string, f: string, fraction: bool, sep: char): string
  {
    sign + w + (if fraction then [sep] + f else "")
  }

  lemma DanishFirstSteps(sign: string, w: string, f: string, fraction: bool)
    requires sign == "" || sign == "-"
    requires |w| > 0 && AllDigits(w) && AllDigits(f)
    ensures var s := Literal(sign, w, f, fraction, ',');
            Replace(DropCurrency(s), ".", "") == s
  {
    var tailC := if fraction then "," + f else "";
    var s := Literal(sign, w, f, fraction, ',');
    forall c | !IsDigit(c) && c != ',' && c != '-' ensures c !in s {
      DigitsExclude(w, c);
      DigitsExclude(f, c);
    }
    assert '-' !in s[1..] by {
      DigitsExclude(w, '-');
      DigitsExclude(f, '-');
      if sign == "-" {
        assert s[1..] == w + tailC;
      } else {
        assert s[1..] == w[1..] + tailC;
        assert forall x :: x in w[1..] ==> x in w;
      }
    }
    FirstStepsKeep(s);
  }

  lemma DanishComma(sign: string, w: string, f: string, fraction: bool)
    requires sign == "" || sign == "-"
    requires AllDigits(w) && AllDigits(f)
    ensures Replace(Literal(sign, w, f, fraction, ','), ",", ".") == Literal(sign, w, f, fraction, '.')
  {
    DigitsExclude(w, ',');
    DigitsExclude(f, ',');
    var s := Literal(sign, w, f, fraction, ',');
    if fraction {
      assert s == (sign + w) + "," + f;
      assert Literal(sign, w, f, fraction, '.') == (sign + w) + "." + f;
      CommaToDot(sign + w, f);
    } else {
      AbsentFirstChar(s, ",");
      ReplaceAbsent(s, ",", ".");
    }
  }

  lemma DanishSpaces(sign: string, w: string, f: string, fraction: bool)
    requires sign == "" || sign == "-"
    requires AllDigits(w) && AllDigits(f)
    ensures var t := Literal(sign, w, f, fraction, '.');
            Replace(t, " ", "") == t
  {
    DigitsExclude(w, ' ');
    DigitsExclude(f, ' ');
    var t := Literal(sign, w, f, fraction, '.');
    AbsentFirstChar(t, " ");
    ReplaceAbsent(t, " ", "");
  }

  /** The chain on a signed Danish literal: the comma becomes the decimal point, nothing else changes. */
  lemma SanitizeDanish(sign: string, w: string, f: string, fraction: bool)
    requires sign == "" || sign == "-"
    requires |w| > 0 && AllDigits(w) && AllDigits(f)
    ensures Sanitize(Literal(sign, w, f, fraction, ',')) == Literal(sign, w, f, fraction, '.')
  {
    DanishFirstSteps(sign, w, f, fraction);
    DanishComma(sign, w, f, fraction);
    DanishSpaces(sign, w, f, fraction);
  }

  lemma RenderIsLiteral(d: Decimal, sep: char)
    ensures Render(d, sep) ==
            Literal(if d.mantissa < 0 then "-" else "", WholeDigits(d), FracDigits(d), d.scale > 0, sep)
  {
    var sign := if d.mantissa < 0 then "-" else "";
    var tail := if d.scale > 0 then [sep] + FracDigits(d) else "";
    assert UnsignedText(d, sep) == WholeDigits(d) + tail;
    assert sign + (WholeDigits(d) + tail) == sign + WholeDigits(d) + tail;
  }

  /** The chain turns a Danish rendering of a decimal into the `.`-separated one. */
  lemma SanitizeRender(d: Decimal)
    ensures Sanitize(Render(d, ',')) == Render(d, '.')
  {
    var sign := if d.mantissa < 0 then "-" else "";
    var w, f := WholeDigits(d), FracDigits(d);
    RenderIsLiteral(d, ',');
    RenderIsLiteral(d, '.');
    SanitizeDanish(sign, w, f, d.scale > 0);
  }

  /**
   A price written the Danish way, with any sign and scale, comes back
   as exactly that decimal: the sanitiser itself rejects neither zero nor
   negative prices.
   */
  lemma SanitizePriceRender(d: Decimal)
    ensures SanitizePrice(Render(d, ',')) == Success(d)
  {
    SanitizeRender(d);
    ParseFloatRender(d);
  }
}
