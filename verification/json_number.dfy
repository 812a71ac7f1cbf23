/**
 * JSON numbers (section 6 of RFC 7159): a frozen value holding the number's
 * text exactly as written and its exact decimal value, with memoised
 * integer and float projections and numeric (not lexical) equality.
 */
module JsonNumber {
  import opened Base
  import opened Decimals

  /**
   * The AST node of a number: its tag, the sign character if any, and the
   * integer, fraction ('.' and digits) and exponent ('e', sign and digits)
   * character runs, each already joined into a string.
   */
  datatype NumberAst = NumberAst(tag: Tag, sign: Option<char>, whole: Option<string>,
                                 frac: Option<string>, exp: Option<string>)

  /** What plain_old_ruby_object hands back: an Integer, or the value standing in for a Float. */
  datatype Native = IntForm(i: int) | FloatForm(d: Decimal)

  function OptionalText(part: Option<string>): string
  {
    if part.Some? then part.value else []
  }

  /** The canonical text: sign, integer, fraction and exponent, absent parts contributing nothing. */
  function Lexeme(sign: Option<char>, whole: string, frac: Option<string>, exp: Option<string>): string
  {
    (if sign.Some? then [sign.value] else []) + whole + OptionalText(frac) + OptionalText(exp)
  }

  /** The regular expression of plain_old_ruby_object: an optional sign, then one or more digits, then the end. */
  predicate IsIntegerLexeme(s: string)
  {
    var body := if |s| > 0 && (s[0] == '+' || s[0] == '-') then s[1..] else s;
    |body| > 0 && AllDigits(body)
  }

  /** The parts as the JSON parser delivers them. */
  predicate WellFormedParts(sign: Option<char>, whole: string, frac: Option<string>, exp: Option<string>)
  {
    && (sign.None? || sign.value == '-' || sign.value == '+')
    && |whole| > 0 && AllDigits(whole)
    && (frac.Some? ==> |frac.value| >= 2 && frac.value[0] == '.' && AllDigits(frac.value[1..]))
    && (exp.Some? ==> |exp.value| > 0 && ParseExponent(exp.value).Some?)
  }

  function FractionDigits(frac: Option<string>): string
  {
    if frac.Some? && |frac.value| > 0 then frac.value[1..] else []
  }

  /**
   * The value the parts write, read from the parts themselves: the integer
   * and fraction digits as one mantissa, scaled by the exponent less the
   * number of fraction digits.
   */
  function PartsDecimal(sign: Option<char>, whole: string, frac: Option<string>, exp: Option<string>): Decimal
    requires WellFormedParts(sign, whole, frac, exp)
  {
    Assemble(sign == Some('-'), whole, FractionDigits(frac), if exp.Some? then ParseExponent(exp.value).value else 0)
  }

  /**
   * A number object. Its parts, text and exact value are fixed at
   * construction; the integer and float projections are computed on first
   * use and kept.
   */
  class Number {
    const sign: Option<char>
    const intPart: string
    const frac: Option<string>
    const exp: Option<string>
    const text: string                 // @to_s
    const exact: Decimal               // @to_d
    var cachedInt: Option<int>         // @to_i
    var cachedFloat: Option<Decimal>   // @to_f

    /** The text is the lexeme of the parts, the value its reading, and any cache holds the projection. */
    ghost predicate Valid()
      reads this
    {
      && text == Lexeme(sign, intPart, frac, exp)
      && ParseDecimal(text) == Some(exact)
      && (cachedInt.Some? ==> cachedInt.value == Truncate(exact))
      && (cachedFloat.Some? ==> cachedFloat.value == exact)
    }

    /** initialize: join the parts into the text and read its exact value; nothing is cached yet. */
    constructor (sign: Option<char>, whole: string, frac: Option<string>, exp: Option<string>)
      requires ParseDecimal(Lexeme(sign, whole, frac, exp)).Some?
      ensures Valid()
      ensures this.sign == sign && intPart == whole && this.frac == frac && this.exp == exp
      ensures cachedInt == None && cachedFloat == None
    {
      this.sign := sign;
      intPart := whole;
      this.frac := frac;
      this.exp := exp;
      var t := Lexeme(sign, whole, frac, exp);
      text := t;
      exact := ParseDecimal(t).value;
      cachedInt := None;
      cachedFloat := None;
    }

    /** to_s: the canonical text, whose reading is the exact value. */
    function ToS(): (s: string)
      reads this
      requires Valid()
      ensures s == Lexeme(sign, intPart, frac, exp)
      ensures ParseDecimal(s) == Some(exact)
    {
      text
    }

    /** to_json: the same canonical text. */
    function ToJson(): (s: string)
      reads this
      requires Valid()
      ensures s == Lexeme(sign, intPart, frac, exp)
      ensures ParseDecimal(s) == Some(exact)
    {
      ToS()
    }

    /** to_d: the exact value, which is what the text reads as. */
    function ToD(): (d: Decimal)
      reads this
      requires Valid()
      ensures ParseDecimal(ToS()) == Some(d)
    {
      exact
    }

    /** to_i: the value truncated toward zero, computed once and then returned from the cache. */
    method ToI() returns (i: int)
      requires Valid()
      modifies this
      ensures Valid()
      ensures i == Truncate(exact)
      ensures cachedInt == Some(i) && cachedFloat == old(cachedFloat)
      ensures old(cachedInt).Some? ==> i == old(cachedInt).value
    {
      if cachedInt.None? {
        var num := Truncate(exact);
        cachedInt := Some(num);
      }
      i := cachedInt.value;
    }

    /** to_f: computed once and then returned from the cache. */
    method ToF() returns (f: Decimal)
      requires Valid()
      modifies this
      ensures Valid()
      ensures f == exact
      ensures cachedFloat == Some(f) && cachedInt == old(cachedInt)
      ensures old(cachedFloat).Some? ==> f == old(cachedFloat).value
    {
      if cachedFloat.None? {
        var num := exact;
        cachedFloat := Some(num);
      }
      f := cachedFloat.value;
    }

    /** plain_old_ruby_object: the integer projection for an integer lexeme, the float one otherwise. */
    method PlainOldRubyObject() returns (r: Native)
      requires Valid()
      modifies this
      ensures Valid()
      ensures IsIntegerLexeme(text) ==> r == IntForm(Truncate(exact))
      ensures !IsIntegerLexeme(text) ==> r == FloatForm(exact)
      ensures IsIntegerLexeme(text) ==> cachedInt == Some(Truncate(exact)) && cachedFloat == old(cachedFloat)
      ensures !IsIntegerLexeme(text) ==> cachedFloat == Some(exact) && cachedInt == old(cachedInt)
    {
      if IsIntegerLexeme(text) {
        var i := ToI();
        return IntForm(i);
      } else {
        var f := ToF();
        return FloatForm(f);
      }
    }

    /** ==: numeric comparison of the other value with the exact value. */
    predicate Equals(other: Decimal)
      reads this
      ensures Equals(other) <==> ToReal(other) == ToReal(exact)
    {
      SameValueIsNumericEquality(other, exact);
      SameValue(other, exact)
    }
  }

  /** from_ast: reject any tag but :number, reject a missing integer part, otherwise build. */
  method FromAst(ast: NumberAst) returns (r: Result<Number>)
    ensures ast.tag != NumberTag ==> r == Err(WrongTag)
    ensures ast.tag == NumberTag && ast.whole.None? ==> r == Err(NotANumber)
    ensures ast.tag == NumberTag && ast.whole.Some? ==>
      (r.Ok? <==> ParseDecimal(Lexeme(ast.sign, ast.whole.value, ast.frac, ast.exp)).Some?)
    ensures r.Err? && ast.tag == NumberTag && ast.whole.Some? ==> r.error == InvalidDecimal
    ensures r.Ok? ==> && fresh(r.value) && r.value.Valid()
                      && r.value.text == Lexeme(ast.sign, ast.whole.value, ast.frac, ast.exp)
                      && r.value.cachedInt == None && r.value.cachedFloat == None
  {
    if ast.tag != NumberTag {
      return Err(WrongTag);
    }
    if ast.whole.None? {
      return Err(NotANumber);
    }
    if ParseDecimal(Lexeme(ast.sign, ast.whole.value, ast.frac, ast.exp)).None? {
      return Err(InvalidDecimal);
    }
    var n := new Number(ast.sign, ast.whole.value, ast.frac, ast.exp);
    return Ok(n);
  }

  // ---------------------------------------------------------------------
  // The lexeme and its readings

  /** The exponent part, when present, begins with its marker and so not with a digit or '.'. */
  lemma ExponentShape(exp: Option<string>)
    requires exp.Some? ==> |exp.value| > 0 && ParseExponent(exp.value).Some?
    ensures var e := OptionalText(exp);
      |e| > 0 ==> e[0] == 'e' || e[0] == 'E'
  {
  }

  lemma ParseExponentOfPart(exp: Option<string>)
    requires exp.Some? ==> |exp.value| > 0 && ParseExponent(exp.value).Some?
    ensures ParseExponent(OptionalText(exp)) == Some(if exp.Some? then ParseExponent(exp.value).value else 0)
  {
  }

  lemma ParseFractionOfParts(frac: Option<string>, e: string)
    requires frac.Some? ==> |frac.value| >= 2 && frac.value[0] == '.' && AllDigits(frac.value[1..])
    requires |e| > 0 ==> e[0] == 'e' || e[0] == 'E'
    ensures ParseFraction(OptionalText(frac) + e) == Some((FractionDigits(frac), e))
  {
    if frac.Some? {
      var f := frac.value;
      var fd := f[1..];
      assert (f + e)[0] == '.';
      assert (f + e)[1..] == fd + e;
      DigitRunOfDigits(fd, e);
      assert (fd + e)[..|fd|] == fd;
      assert (fd + e)[|fd|..] == e;
    } else {
      assert OptionalText(frac) + e == e;
    }
  }

  /** BigDecimal's reading of a text cut into its sign, digit run, fraction and exponent. */
  lemma ReadPieces(t: string, whole: string, rest: string, fd: string, tail: string, ev: int)
    requires SplitSign(t).1 == whole + rest
    requires |whole| > 0 && AllDigits(whole) && DigitRun(whole + rest) == |whole|
    requires ParseFraction(rest) == Some((fd, tail))
    requires ParseExponent(tail) == Some(ev)
    ensures ParseDecimal(t) == Some(Assemble(SplitSign(t).0, whole, fd, ev))
  {
    assert (whole + rest)[..|whole|] == whole;
    assert (whole + rest)[|whole|..] == rest;
  }

  lemma LexemeSplitSign(sign: Option<char>, whole: string, frac: Option<string>, exp: Option<string>)
    requires sign.None? || sign.value == '-' || sign.value == '+'
    requires |whole| > 0 && IsDigit(whole[0])
    ensures SplitSign(Lexeme(sign, whole, frac, exp))
            == (sign == Some('-'), whole + (OptionalText(frac) + OptionalText(exp)))
  {
    var t := Lexeme(sign, whole, frac, exp);
    var body := whole + (OptionalText(frac) + OptionalText(exp));
    assert t == (if sign.Some? then [sign.value] else []) + body;
    if sign.Some? {
      assert t == [sign.value] + body;
      assert t[1..] == body;
    } else {
      assert t == body;
      assert t[0] == whole[0];
    }
  }

  /**
   * The canonical text of well-formed parts reads back, by BigDecimal's
   * reading, as exactly the value the parts write.
   */
  lemma LexemeReadsAsParts(sign: Option<char>, whole: string, frac: Option<string>, exp: Option<string>)
    requires WellFormedParts(sign, whole, frac, exp)
    ensures ParseDecimal(Lexeme(sign, whole, frac, exp)) == Some(PartsDecimal(sign, whole, frac, exp))
  {
    var f := OptionalText(frac);
    var e := OptionalText(exp);
    LexemeSplitSign(sign, whole, frac, exp);
    ExponentShape(exp);
    ParseFractionOfParts(frac, e);
    DigitRunOfDigits(whole, f + e);
    ParseExponentOfPart(exp);
    ReadPieces(Lexeme(sign, whole, frac, exp), whole, f + e, FractionDigits(frac), e,
               if exp.Some? then ParseExponent(exp.value).value else 0);
  }

  /**
   * For well-formed parts the integer projection is chosen exactly when
   * there is neither a fraction nor an exponent.
   */
  lemma IntegerLexemeIff(sign: Option<char>, whole: string, frac: Option<string>, exp: Option<string>)
    requires WellFormedParts(sign, whole, frac, exp)
    ensures IsIntegerLexeme(Lexeme(sign, whole, frac, exp)) <==> frac.None? && exp.None?
  {
    var f := OptionalText(frac);
    var e := OptionalText(exp);
    var t := Lexeme(sign, whole, frac, exp);
    var body := whole + f + e;
    if sign.Some? {
      assert t == [sign.value] + body;
      assert t[1..] == body;
    } else {
      assert t == body;
      assert t[0] == whole[0];
    }
    if frac.Some? {
      assert body[|whole|] == '.';
    } else if exp.Some? {
      ExponentShape(exp);
      assert body[|whole|] == e[0];
    } else {
      assert body == whole;
    }
  }

  /** On an integer lexeme the integer projection is the exact value, nothing is cut off. */
  lemma IntegerProjectionIsExact(sign: Option<char>, whole: string, frac: Option<string>, exp: Option<string>)
    requires WellFormedParts(sign, whole, frac, exp)
    requires IsIntegerLexeme(Lexeme(sign, whole, frac, exp))
    ensures ParseDecimal(Lexeme(sign, whole, frac, exp)).Some?
    ensures var d := ParseDecimal(Lexeme(sign, whole, frac, exp)).value;
      Truncate(d) as real == ToReal(d)
  {
    IntegerLexemeIff(sign, whole, frac, exp);
    LexemeReadsAsParts(sign, whole, frac, exp);
    TruncateOfWholeIsExact(PartsDecimal(sign, whole, frac, exp));
  }

  /** Well-formed parts always construct: from_ast fails only on the tag and a missing integer part. */
  lemma WellFormedAlwaysReads(sign: Option<char>, whole: string, frac: Option<string>, exp: Option<string>)
    requires WellFormedParts(sign, whole, frac, exp)
    ensures ParseDecimal(Lexeme(sign, whole, frac, exp)).Some?
  {
    LexemeReadsAsParts(sign, whole, frac, exp);
  }

  /** to_i depends only on the value: numerically equal numbers project to the same integer. */
  lemma ToIRespectsEquality(n: Number, m: Number)
    requires n.Equals(m.exact)
    ensures Truncate(n.exact) == Truncate(m.exact)
  {
    SameValueIsEquivalence(m.exact, n.exact, n.exact);
    TruncateRespectsValue(n.exact, m.exact);
  }

  /** "1.0" reads as ten tenths and is not an integer lexeme. */
  lemma OnePointZeroReads()
    ensures ParseDecimal(Lexeme(None, "1", Some(".0"), None)) == Some(Decimal(10, -1))
    ensures !IsIntegerLexeme(Lexeme(None, "1", Some(".0"), None))
  {
    assert ".0"[1..] == "0";
    assert WellFormedParts(None, "1", Some(".0"), None);
    LexemeReadsAsParts(None, "1", Some(".0"), None);
    IntegerLexemeIff(None, "1", Some(".0"), None);
    assert "1" + "0" == "10";
    assert DigitsValue("10") == 10 by {
      assert "10"[..1] == "1";
      assert "1"[..0] == "";
    }
  }

  /** "1" reads as one and is an integer lexeme. */
  lemma OneReads()
    ensures ParseDecimal(Lexeme(None, "1", None, None)) == Some(Decimal(1, 0))
    ensures IsIntegerLexeme(Lexeme(None, "1", None, None))
  {
    assert WellFormedParts(None, "1", None, None);
    LexemeReadsAsParts(None, "1", None, None);
    IntegerLexemeIff(None, "1", None, None);
    assert "1" + "" == "1";
    assert DigitsValue("1") == 1 by {
      assert "1"[..0] == "";
    }
  }

  /** "1.0" equals "1", yet the first projects to a Float and the second to an Integer. */
  lemma OnePointZeroEqualsOne()
    ensures ParseDecimal(Lexeme(None, "1", Some(".0"), None)) == Some(Decimal(10, -1))
    ensures ParseDecimal(Lexeme(None, "1", None, None)) == Some(Decimal(1, 0))
    ensures SameValue(Decimal(1, 0), Decimal(10, -1))
    ensures !IsIntegerLexeme(Lexeme(None, "1", Some(".0"), None))
    ensures IsIntegerLexeme(Lexeme(None, "1", None, None))
  {
    OnePointZeroReads();
    OneReads();
  }

  /** "1e2" reads as one hundred written as 1 times ten squared. */
  lemma OneEtwoReads()
    ensures ParseDecimal(Lexeme(None, "1", None, Some("e2"))) == Some(Decimal(1, 2))
  {
    assert DigitsValue("1") == 1 by {
      assert "1"[..0] == "";
    }
    assert DigitsValue("2") == 2 by {
      assert "2"[..0] == "";
    }
    assert "e2"[1..] == "2";
    assert SplitSign("2") == (false, "2");
    assert ParseExponent("e2") == Some(2);
    assert WellFormedParts(None, "1", None, Some("e2"));
    LexemeReadsAsParts(None, "1", None, Some("e2"));
    assert "1" + "" == "1";
  }

  /** "100" reads as one hundred. */
  lemma HundredReads()
    ensures ParseDecimal(Lexeme(None, "100", None, None)) == Some(Decimal(100, 0))
  {
    assert WellFormedParts(None, "100", None, None);
    LexemeReadsAsParts(None, "100", None, None);
    assert "100"[..2] == "10";
    assert "10"[..1] == "1";
    assert "1"[..0] == "";
    assert DigitsValue("100") == 100;
    assert "100" + "" == "100";
  }

  /** "1e2" equals "100". */
  lemma OneEtwoEqualsHundred()
    ensures ParseDecimal(Lexeme(None, "1", None, Some("e2"))) == Some(Decimal(1, 2))
    ensures ParseDecimal(Lexeme(None, "100", None, None)) == Some(Decimal(100, 0))
    ensures SameValue(Decimal(100, 0), Decimal(1, 2))
  {
    OneEtwoReads();
    HundredReads();
  }
}
