/**
 Worked instances of the sanitiser on concrete inputs, each proved from
 the general lemmas one replacement step at a time.
 */
module Examples {
  import opened Wrappers
  import opened PyStr
  import opened PyFloat
  import opened Price

  // "12.345,-kr." becomes "12345"

  lemma ThousandsDropSign()
    ensures Replace("12.345,-kr.", "kr.", "") == "12.345,-"
  {
    assert "12.345,-kr." == "12.345,-" + "kr.";
    ReplaceSkip("12.345,-", "kr.", "kr.", "");
    assert Replace("kr.", "kr.", "") == "";
  }

  lemma ThousandsDropSuffix()
    ensures Replace("12.345,-", ",-", "") == "12.345"
  {
    assert "12.345,-" == "12.345" + ",-";
    ReplaceSkip("12.345", ",-", ",-", "");
    assert Replace(",-", ",-", "") == "";
  }

  lemma ThousandsDropDot()
    ensures Replace("12.345", ".", "") == "12345"
  {
    assert "12.345" == "12" + (['.'] + "345");
    ReplaceSkip("12", ['.'] + "345", ".", "");
    ReplaceCharHead('.', "345", "");
    ReplaceFree("345", ".", "");
  }

  lemma ThousandsNoComma()
    ensures Replace("12345", ",", ".") == "12345"
  {
    ReplaceFree("12345", ",", ".");
  }

  lemma ThousandsNoSpace()
    ensures Replace("12345", " ", "") == "12345"
  {
    ReplaceFree("12345", " ", "");
  }

  lemma SanitizeThousands()
    ensures Sanitize("12.345,-kr.") == "12345"
  {
    ThousandsDropSign();
    ThousandsDropSuffix();
    ThousandsDropDot();
    ThousandsNoComma();
    ThousandsNoSpace();
  }

  lemma DigitsTwelveThousand()
    ensures AllDigits("12345") && DigitsValue("12345") == 12345
  {
    assert "12"[..1] == "1" && "123"[..2] == "12" && "1234"[..3] == "123" && "12345"[..4] == "1234";
    assert DigitsValue("1") == 1;
    assert DigitsValue("12") == 12;
    assert DigitsValue("123") == 123;
    assert DigitsValue("1234") == 1234;
  }

  lemma TwelveThousandUnsigned()
    ensures ParseFloat("12345") == ParseUnsigned("12345")
  {
    ParseNonNegative("12345");
  }

  lemma TwelveThousandWhole()
    ensures ParseUnsigned("12345") == Some(Decimal(DigitsValue("12345"), 0))
  {
    DigitsTwelveThousand();
    ParseWhole("12345");
  }

  lemma ParseTwelveThousand()
    ensures ParseFloat("12345") == Some(Decimal(12345, 0))
  {
    TwelveThousandUnsigned();
    TwelveThousandWhole();
    DigitsTwelveThousand();
  }

  /** A thousands dot and the ",-" suffix with the "kr." sign: twelve thousand three hundred forty-five. */
  lemma ThousandsWithSuffix()
    ensures SanitizePrice("12.345,-kr.") == Success(Decimal(12345, 0))
  {
    SanitizeThousands();
    ParseTwelveThousand();
  }

  /** The two prices above, as real numbers. */
  lemma ExampleValues()
    ensures Value(Decimal(12345, 0)) == 12345.0
    ensures Value(Decimal(999, 2)) == 9.99
  {
    assert Pow10(2) == 100;
  }

  // "9,99 kr." becomes "9.99"

  lemma CommaDropSign()
    ensures Replace("9,99 kr.", "kr.", "") == "9,99 "
  {
    assert "9,99 kr." == "9,99 " + "kr.";
    ReplaceSkip("9,99 ", "kr.", "kr.", "");
    assert Replace("kr.", "kr.", "") == "";
  }

  lemma CommaNoSuffix()
    ensures Replace("9,99 ", ",-", "") == "9,99 "
  {
    assert "9,99 " == "9" + ",99 ";
    ReplaceSkip("9", ",99 ", ",-", "");
    ReplaceFree("99 ", ",-", "");
    assert ",99 "[..2][1] == '9';
    assert ",99 "[1..] == "99 ";
  }

  lemma CommaNoDot()
    ensures Replace("9,99 ", ".", "") == "9,99 "
  {
    ReplaceFree("9,99 ", ".", "");
  }

  lemma CommaToDotStep()
    ensures Replace("9,99 ", ",", ".") == "9.99 "
  {
    assert "9,99 " == "9" + ",99 ";
    ReplaceSkip("9", ",99 ", ",", ".");
    ReplaceFree("99 ", ",", ".");
    assert ",99 "[1..] == "99 ";
  }

  lemma CommaDropSpace()
    ensures Replace("9.99 ", " ", "") == "9.99"
  {
    assert "9.99 " == "9.99" + " ";
    ReplaceSkip("9.99", " ", " ", "");
    assert Replace(" ", " ", "") == "";
  }

  lemma SanitizeDecimalComma()
    ensures Sanitize("9,99 kr.") == "9.99"
  {
    CommaDropSign();
    CommaNoSuffix();
    CommaNoDot();
    CommaToDotStep();
    CommaDropSpace();
  }

  lemma DigitsNineNinetyNine()
    ensures AllDigits("999") && DigitsValue("999") == 999
  {
    assert "99"[..1] == "9" && "999"[..2] == "99";
    assert DigitsValue("9") == 9;
    assert DigitsValue("99") == 99;
  }

  lemma NineNinetyNineUnsigned()
    ensures ParseFloat("9.99") == ParseUnsigned("9.99")
  {
    ParseNonNegative("9.99");
  }

  lemma NineNinetyNineFraction()
    ensures ParseUnsigned("9.99") == Some(Decimal(DigitsValue("999"), 2))
  {
    assert "9.99" == "9" + ['.'] + "99";
    ParseWithFraction("9", "99");
    assert "9" + "99" == "999";
  }

  lemma ParseNineNinetyNine()
    ensures ParseFloat("9.99") == Some(Decimal(999, 2))
  {
    NineNinetyNineUnsigned();
    NineNinetyNineFraction();
    DigitsNineNinetyNine();
  }

  /** A decimal comma and a spaced currency sign: nine ninety-nine. */
  lemma DecimalComma()
    ensures SanitizePrice("9,99 kr.") == Success(Decimal(999, 2))
  {
    SanitizeDecimalComma();
    ParseNineNinetyNine();
  }

  // "ring os" becomes "ringos", which is no number

  lemma WordsKeepSign()
    ensures Replace("ring os", "kr.", "") == "ring os"
  {
    ReplaceFree("ring os", "kr.", "");
  }

  lemma WordsKeepSuffix()
    ensures Replace("ring os", ",-", "") == "ring os"
  {
    ReplaceFree("ring os", ",-", "");
  }

  lemma WordsKeepDot()
    ensures Replace("ring os", ".", "") == "ring os"
  {
    ReplaceFree("ring os", ".", "");
  }

  lemma WordsKeepComma()
    ensures Replace("ring os", ",", ".") == "ring os"
  {
    ReplaceFree("ring os", ",", ".");
  }

  lemma WordsDropSpace()
    ensures Replace("ring os", " ", "") == "ringos"
  {
    assert "ring os" == "ring" + " os";
    ReplaceSkip("ring", " os", " ", "");
    ReplaceFree("os", " ", "");
    assert " os"[1..] == "os";
  }

  lemma WordsStrip()
    ensures Strip("ringos") == "ringos"
  {
    StripUnpadded("ringos");
  }

  lemma WordsNoDot()
    ensures FirstIndex("ringos", '.') == 6
  {
    assert forall i :: 0 <= i < 6 ==> "ringos"[i] != '.';
    FirstIndexAbsent("ringos", '.');
  }

  lemma WordsNotDigits()
    ensures !AllDigits("ringos")
  {
    assert !IsDigit("ringos"[0]);
  }

  lemma WordsNoFloat()
    ensures ParseFloat("ringos") == None
  {
    WordsStrip();
    WordsNoDot();
    WordsNotDigits();
    assert "ringos"[0] == 'r';
  }

  /** Text that is no number yields the parse error, quoting the sanitised text. */
  lemma NotANumber()
    ensures SanitizePrice("ring os") == Failure(ParseError("ringos"))
  {
    WordsKeepSign();
    WordsKeepSuffix();
    WordsKeepDot();
    WordsKeepComma();
    WordsDropSpace();
    WordsNoFloat();
  }

  // "0" and "-5,50": no sign or zero check

  lemma ZeroKeep()
    ensures Sanitize("0") == "0"
  {
    ReplaceFree("0", "kr.", "");
    ReplaceFree("0", ",-", "");
    ReplaceFree("0", ".", "");
    ReplaceFree("0", ",", ".");
    ReplaceFree("0", " ", "");
  }

  lemma NegativeNoSign()
    ensures Replace("-5,50", "kr.", "") == "-5,50"
  {
    ReplaceFree("-5,50", "kr.", "");
  }

  lemma NegativeNoDot()
    ensures Replace("-5,50", ".", "") == "-5,50"
  {
    ReplaceFree("-5,50", ".", "");
  }

  lemma NegativeNoSpace()
    ensures Replace("-5.50", " ", "") == "-5.50"
  {
    ReplaceFree("-5.50", " ", "");
  }

  lemma NegativeNoSuffix()
    ensures Replace("-5,50", ",-", "") == "-5,50"
  {
    assert "-5,50" == "-5" + ",50";
    ReplaceSkip("-5", ",50", ",-", "");
    ReplaceFree("50", ",-", "");
    assert ",50"[..2][1] == '5';
    assert ",50"[1..] == "50";
  }

  lemma NegativeCommaToDot()
    ensures Replace("-5,50", ",", ".") == "-5.50"
  {
    assert "-5,50" == "-5" + ",50";
    ReplaceSkip("-5", ",50", ",", ".");
    ReplaceFree("50", ",", ".");
    assert ",50"[1..] == "50";
  }

  lemma SanitizeNegative()
    ensures Sanitize("-5,50") == "-5.50"
  {
    NegativeNoSign();
    NegativeNoDot();
    NegativeNoSpace();
    NegativeNoSuffix();
    NegativeCommaToDot();
  }

  lemma DigitsFiveFifty()
    ensures AllDigits("550") && DigitsValue("550") == 550
  {
    assert "55"[..1] == "5" && "550"[..2] == "55";
    assert DigitsValue("5") == 5;
    assert DigitsValue("55") == 55;
  }

  lemma MinusFiveFiftySigned()
    ensures ParseFloat("-5.50") == Some(Negate(ParseUnsigned("5.50").value))
  {
    FiveFiftyFraction();
    assert "-5.50" == "-" + "5.50";
    ParseNegative("5.50");
  }

  lemma FiveFiftyFraction()
    ensures ParseUnsigned("5.50") == Some(Decimal(DigitsValue("550"), 2))
  {
    assert "5.50" == "5" + ['.'] + "50";
    ParseWithFraction("5", "50");
    assert "5" + "50" == "550";
  }

  lemma ParseMinusFiveFifty()
    ensures ParseFloat("-5.50") == Some(Decimal(-550, 2))
  {
    MinusFiveFiftySigned();
    FiveFiftyFraction();
    DigitsFiveFifty();
  }

  lemma ParseZero()
    ensures ParseFloat("0") == Some(Decimal(0, 0))
  {
    ParseNonNegative("0");
    ParseWhole("0");
  }

  /** Zero and negative prices come back from the sanitiser; only the caller rejects them. */
  lemma NoSignCheck()
    ensures SanitizePrice("0") == Success(Decimal(0, 0))
    ensures SanitizePrice("-5,50") == Success(Decimal(-550, 2))
  {
    ZeroKeep();
    ParseZero();
    SanitizeNegative();
    ParseMinusFiveFifty();
  }
}
