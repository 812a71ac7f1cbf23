/**
 * JSON strings (section 7 of RFC 7159): decoding the parser's raw units
 * into a byte buffer in the encoding of the JSON text, re-emitting the raw
 * units as JSON, and comparing strings by their text (section 8.3).
 */
module JsonString {
  import opened Base
  import opened Surrogates
  import opened Packing

  /** One character of the JSON text: the encoding it is in and its ordinal (String#ord). */
  datatype SourceChar = SourceChar(enc: Encoding, ord: nat)

  /**
   * A raw unit handed over by the parser: a character taken literally, or
   * an escape array holding the backslash, the escape letter and, for
   * `\u`, the hexadecimal digits that follow it.
   */
  datatype RawUnit =
    | Literal(ch: SourceChar)
    | Escape(backslash: SourceChar, letter: SourceChar, digits: seq<SourceChar>)

  /** The AST node of a string: its tag followed by its raw units. */
  datatype StringAst = StringAst(tag: Tag, units: seq<RawUnit>)

  /** A Ruby String: a byte buffer tagged with an encoding. */
  datatype Text = Text(enc: Encoding, bytes: seq<Byte>)

  /** A decoded JSON string: the raw units it was built from and the decoded text. */
  datatype JsonString = JsonString(orig: seq<RawUnit>, str: Text)

  // ---------------------------------------------------------------------
  // Stage 1: raw units to code-point candidates

  function Ords(cs: seq<SourceChar>): seq<nat>
  {
    seq(|cs|, i requires 0 <= i < |cs| => cs[i].ord)
  }

  /** The value of a hexadecimal digit character, if it is one. */
  function HexDigit(c: nat): Option<nat>
  {
    if 0x30 <= c <= 0x39 then Some(c - 0x30)
    else if 0x41 <= c <= 0x46 then Some(c - 0x41 + 10)
    else if 0x61 <= c <= 0x66 then Some(c - 0x61 + 10)
    else None
  }

  /** The length of the run of hexadecimal digits at the front of `cs`. */
  function HexRun(cs: seq<nat>): (n: nat)
    ensures n <= |cs|
    ensures forall k :: 0 <= k < n ==> HexDigit(cs[k]).Some?
  {
    if |cs| == 0 || HexDigit(cs[0]).None? then 0 else 1 + HexRun(cs[1..])
  }

  /** The base-16 number written by a run of hexadecimal digits. */
  function HexNumber(run: seq<nat>): nat
    requires forall k :: 0 <= k < |run| ==> HexDigit(run[k]).Some?
  {
    if |run| == 0 then 0
    else HexNumber(run[..|run| - 1]) * 16 + HexDigit(run[|run| - 1]).value
  }

  /** String#to_i(16): the number written by the leading hexadecimal digits, 0 if there are none. */
  function HexToI(cs: seq<nat>): nat
  {
    HexNumber(cs[..HexRun(cs)])
  }

  function Pow16(n: nat): nat
  {
    if n == 0 then 1 else 16 * Pow16(n - 1)
  }

  lemma {:induction false} HexNumberBound(run: seq<nat>)
    requires forall k :: 0 <= k < |run| ==> HexDigit(run[k]).Some?
    ensures HexNumber(run) < Pow16(|run|)
    decreases |run|
  {
    if |run| > 0 {
      HexNumberBound(run[..|run| - 1]);
    }
  }

  /**
   * The code point an escape stands for: the short-escape table, any other
   * letter read as `\u`. At most four digits are read, so it is a 16-bit value.
   */
  function EscapeCandidate(letter: nat, digits: seq<SourceChar>): (r: nat)
    ensures r <= 0xFFFF
  {
    if letter == 0x22 then 0x22       // \"  quotation mark
    else if letter == 0x5C then 0x5C  // \\  reverse solidus
    else if letter == 0x2F then 0x2F  // \/  solidus
    else if letter == 0x62 then 0x08  // \b  backspace
    else if letter == 0x66 then 0x0C  // \f  form feed
    else if letter == 0x6E then 0x0A  // \n  line feed
    else if letter == 0x72 then 0x0D  // \r  carriage return
    else if letter == 0x74 then 0x09  // \t  tab
    else
      var cs := Ords(digits[..if |digits| < 4 then |digits| else 4]);
      HexToIBelow(cs);
      HexToI(cs)
  }

  function Candidate(u: RawUnit): nat
  {
    match u
    case Literal(c) => c.ord
    case Escape(_, letter, digits) => EscapeCandidate(letter.ord, digits)
  }

  /** Stage 1: every raw unit resolved to its code-point candidate, a literal to its ordinal. */
  function Candidates(units: seq<RawUnit>): (r: seq<nat>)
    ensures |r| == |units|
    ensures forall i :: 0 <= i < |units| && units[i].Literal? ==> r[i] == units[i].ch.ord
    ensures forall i :: 0 <= i < |units| && units[i].Escape? ==> r[i] <= 0xFFFF
  {
    seq(|units|, i requires 0 <= i < |units| => Candidate(units[i]))
  }

  /** Each of the eight short escapes stands for its fixed code point. */
  lemma ShortEscapeTable(ds: seq<SourceChar>)
    ensures EscapeCandidate('"' as nat, ds) == 0x22
    ensures EscapeCandidate('\\' as nat, ds) == 0x5C
    ensures EscapeCandidate('/' as nat, ds) == 0x2F
    ensures EscapeCandidate('b' as nat, ds) == 0x08
    ensures EscapeCandidate('f' as nat, ds) == 0x0C
    ensures EscapeCandidate('n' as nat, ds) == 0x0A
    ensures EscapeCandidate('r' as nat, ds) == 0x0D
    ensures EscapeCandidate('t' as nat, ds) == 0x09
  {
  }

  /** Reading at most four hexadecimal digits gives a 16-bit value. */
  lemma HexToIBelow(cs: seq<nat>)
    requires |cs| <= 4
    ensures HexToI(cs) < 0x1_0000
  {
    HexNumberBound(cs[..HexRun(cs)]);
    assert Pow16(4) == 0x1_0000;
    PowMonotone(HexRun(cs), 4);
  }

  lemma {:induction false} PowMonotone(m: nat, n: nat)
    requires m <= n
    ensures Pow16(m) <= Pow16(n)
    decreases n
  {
    if m < n {
      PowMonotone(m, n - 1);
    }
  }

  /** A `\u` escape with four hexadecimal digits stands for their base-16 value. */
  lemma FourHexDigits(letter: nat, digits: seq<SourceChar>)
    requires letter == 'u' as nat && |digits| == 4
    requires forall k :: 0 <= k < 4 ==> HexDigit(digits[k].ord).Some?
    ensures EscapeCandidate(letter, digits) ==
      HexDigit(digits[0].ord).value * 0x1000 + HexDigit(digits[1].ord).value * 0x100
      + HexDigit(digits[2].ord).value * 0x10 + HexDigit(digits[3].ord).value
  {
    var cs := Ords(digits);
    assert digits[..4] == digits;
    HexRunOfDigits(cs);
    assert cs[..4] == cs;
    var d := seq(4, k requires 0 <= k < 4 => HexDigit(cs[k]).value);
    assert HexNumber(cs[..1]) == d[0] by {
      assert cs[..1][..0] == [];
    }
    assert HexNumber(cs[..2]) == d[0] * 0x10 + d[1] by {
      assert cs[..2][..1] == cs[..1];
    }
    assert HexNumber(cs[..3]) == d[0] * 0x100 + d[1] * 0x10 + d[2] by {
      assert cs[..3][..2] == cs[..2];
    }
    assert HexNumber(cs) == d[0] * 0x1000 + d[1] * 0x100 + d[2] * 0x10 + d[3] by {
      assert cs[..3] == cs[..|cs| - 1];
    }
  }

  lemma {:induction false} HexRunOfDigits(cs: seq<nat>)
    requires forall k :: 0 <= k < |cs| ==> HexDigit(cs[k]).Some?
    ensures HexRun(cs) == |cs|
    decreases |cs|
  {
    if |cs| > 0 {
      HexRunOfDigits(cs[1..]);
    }
  }

  // ---------------------------------------------------------------------
  // The whole pipeline

  function FirstChar(u: RawUnit): SourceChar
  {
    match u
    case Literal(c) => c
    case Escape(b, _, _) => b
  }

  /** The encoding of the first source character; US-ASCII for the empty string. */
  function SourceEncoding(units: seq<RawUnit>): Encoding
  {
    if |units| == 0 then UsAscii else FirstChar(units[0]).enc
  }

  /**
   * The specification of the constructor as written: stages 1, 2 and 3,
   * tagged with the source encoding. Only pack('U') can fail, so a UTF-16
   * or UTF-32 text always decodes.
   */
  function Decode(units: seq<RawUnit>): (r: Option<Text>)
    ensures r.Some? ==> r.value.enc == SourceEncoding(units)
    ensures LayoutOf(SourceEncoding(units)) != Utf8Shaped ==> r.Some?
  {
    var enc := SourceEncoding(units);
    PackFailsIff(enc, Coalesce(Candidates(units)));
    match Pack(enc, Coalesce(Candidates(units)))
    case None => None
    case Some(bytes) => Some(Text(enc, bytes))
  }

  /** The constructor with the corrected UTF-16 packing. */
  function DecodeCorrected(units: seq<RawUnit>): (r: Option<Text>)
    ensures r.Some? ==> r.value.enc == SourceEncoding(units)
  {
    var enc := SourceEncoding(units);
    match PackCorrected(enc, Coalesce(Candidates(units)))
    case None => None
    case Some(bytes) => Some(Text(enc, bytes))
  }

  /** Outside UTF-16 the corrected constructor decodes exactly as the one written. */
  lemma DecodeCorrectedAgrees(units: seq<RawUnit>)
    requires !LayoutOf(SourceEncoding(units)).Fixed16?
    ensures DecodeCorrected(units) == Decode(units)
  {
    PackCorrectedAgrees(SourceEncoding(units), Coalesce(Candidates(units)));
  }

  /** The constructor: resolve escapes, merge surrogate pairs, pack into the source encoding. */
  method Build(units: seq<RawUnit>) returns (r: Result<JsonString>)
    ensures r.Ok? <==> Decode(units).Some?
    ensures r.Ok? ==> r.value == JsonString(units, Decode(units).value)
    ensures r.Err? ==> r.error == PackOutOfRange
  {
    var enc := SourceEncoding(units);
    var path1 := Candidates(units);
    var path2 := CoalesceSurrogates(path1);
    var path3 := PackCodePoints(enc, path2);
    match path3 {
      case None => r := Err(PackOutOfRange);
      case Some(bytes) => r := Ok(JsonString(units, Text(enc, bytes)));
    }
  }

  /** from_ast: reject any tag but :string, otherwise build from the remaining units. */
  method FromAst(ast: StringAst) returns (r: Result<JsonString>)
    ensures ast.tag != StringTag ==> r == Err(WrongTag)
    ensures ast.tag == StringTag ==>
      && (r.Ok? <==> Decode(ast.units).Some?)
      && (r.Ok? ==> r.value == JsonString(ast.units, Decode(ast.units).value))
      && (r.Err? ==> r.error == PackOutOfRange)
  {
    if ast.tag != StringTag {
      return Err(WrongTag);
    }
    r := Build(ast.units);
  }

  /** The empty string decodes to an empty buffer tagged US-ASCII. */
  lemma EmptyString()
    ensures Decode([]) == Some(Text(UsAscii, []))
  {
    assert Candidates([]) == [];
  }

  /** A candidate that is not a surrogate half passes through stage 2. */
  lemma {:induction false} CoalesceKeepsNonSurrogate(s: seq<nat>, i: nat)
    requires i < |s| && !IsHigh(s[i]) && !IsLow(s[i])
    ensures s[i] in Coalesce(s)
    decreases |s|
  {
    if i == 0 {
    } else if |s| >= 2 && IsHigh(s[0]) && IsLow(s[1]) {
      if i == 1 {
        assert false;
      } else {
        CoalesceKeepsNonSurrogate(s[2..], i - 2);
      }
    } else {
      CoalesceKeepsNonSurrogate(s[1..], i - 1);
    }
  }

  /** Stage 2 never produces a value above both 0x10FFFF and every input. */
  lemma {:induction false} CoalesceBound(s: seq<nat>, m: nat)
    requires m >= 0x10FFFF
    requires forall i :: 0 <= i < |s| ==> s[i] <= m
    ensures forall i :: 0 <= i < |Coalesce(s)| ==> Coalesce(s)[i] <= m
    decreases |s|
  {
    if |s| >= 2 && IsHigh(s[0]) && IsLow(s[1]) {
      CoalesceBound(s[2..], m);
    } else if |s| > 0 {
      CoalesceBound(s[1..], m);
    }
  }

  /**
   * Construction fails exactly when the text is not UTF-16 or UTF-32 and a
   * literal character has an ordinal pack('U') cannot take.
   */
  lemma DecodeFailsIff(units: seq<RawUnit>)
    ensures Decode(units).None? <==>
      LayoutOf(SourceEncoding(units)) == Utf8Shaped &&
      exists i :: 0 <= i < |units| && units[i].Literal? && units[i].ch.ord > 0x7FFF_FFFF
  {
    var enc := SourceEncoding(units);
    var s := Candidates(units);
    PackFailsIff(enc, Coalesce(s));
    if exists i :: 0 <= i < |units| && units[i].Literal? && units[i].ch.ord > 0x7FFF_FFFF {
      var i :| 0 <= i < |units| && units[i].Literal? && units[i].ch.ord > 0x7FFF_FFFF;
      CoalesceKeepsNonSurrogate(s, i);
      var j :| 0 <= j < |Coalesce(s)| && Coalesce(s)[j] == s[i];
    } else {
      CoalesceBound(s, 0x7FFF_FFFF);
    }
  }

  /**
   * As written, a UTF-16 text gives two bytes per coalesced code point,
   * holding the low 16 bits of that code point.
   */
  lemma Utf16TextKeepsLow16(units: seq<RawUnit>)
    requires LayoutOf(SourceEncoding(units)).Fixed16?
    ensures Decode(units).Some?
    ensures |Decode(units).value.bytes| == 2 * |Coalesce(Candidates(units))|
    ensures var cps := Coalesce(Candidates(units));
      var u := Read16(Decode(units).value.bytes, LayoutOf(SourceEncoding(units)).bigEndian);
      |u| == |cps| && forall i :: 0 <= i < |cps| ==> u[i] == cps[i] % 0x1_0000
  {
    Utf16KeepsLow16(SourceEncoding(units), Coalesce(Candidates(units)));
  }

  /**
   * As written, a UTF-16 text without high surrogates among its candidates
   * and without literals beyond 0xFFFF keeps exactly its candidates.
   */
  lemma Utf16TextWithoutHighKept(units: seq<RawUnit>)
    requires LayoutOf(SourceEncoding(units)).Fixed16?
    requires forall i :: 0 <= i < |units| && units[i].Literal? ==> units[i].ch.ord <= 0xFFFF
    requires forall i :: 0 <= i < |units| ==> !IsHigh(Candidates(units)[i])
    ensures Decode(units).Some?
    ensures Read16(Decode(units).value.bytes, LayoutOf(SourceEncoding(units)).bigEndian) == Candidates(units)
  {
    var s := Candidates(units);
    CoalesceWithoutHighIsIdentity(s);
    assert AllBmp(s);
    Utf16KeepsBmp(SourceEncoding(units), s);
  }

  /**
   * With the corrected packing, a UTF-16 text keeps the UTF-16 code units of
   * its candidates: every `\u` escape as it was written and every literal
   * character as UTF-16 writes it, two bytes each.
   */
  lemma Utf16TextKeepsCodeUnits(units: seq<RawUnit>)
    requires LayoutOf(SourceEncoding(units)).Fixed16?
    requires forall i :: 0 <= i < |units| && units[i].Literal? ==> units[i].ch.ord <= 0x10FFFF
    ensures DecodeCorrected(units).Some?
    ensures |DecodeCorrected(units).value.bytes| == 2 * |Utf16Units(Candidates(units))|
    ensures Read16(DecodeCorrected(units).value.bytes, LayoutOf(SourceEncoding(units)).bigEndian)
            == Utf16Units(Candidates(units))
  {
    Utf16BufferKeepsCandidates(SourceEncoding(units), Candidates(units));
  }

  /** With the corrected packing, a UTF-16 text of escapes only keeps exactly the escaped values. */
  lemma Utf16EscapesKept(units: seq<RawUnit>)
    requires LayoutOf(SourceEncoding(units)).Fixed16?
    requires forall i :: 0 <= i < |units| ==> units[i].Escape?
    ensures DecodeCorrected(units).Some?
    ensures |DecodeCorrected(units).value.bytes| == 2 * |units|
    ensures Read16(DecodeCorrected(units).value.bytes, LayoutOf(SourceEncoding(units)).bigEndian) == Candidates(units)
  {
    Utf16TextKeepsCodeUnits(units);
    Utf16UnitsOfBmp(Candidates(units));
  }

  /**
   * The escapes of U+1F600 as a surrogate pair in a UTF-16BE text: as
   * written they decode to the bytes F6 00, corrected to D8 3D DE 00.
   */
  lemma PairDecodesDifferently()
    ensures var bs := SourceChar(Utf16BE, 0x5C);
      var u := SourceChar(Utf16BE, 0x75);
      var units := [Escape(bs, u, [SourceChar(Utf16BE, 0x44), SourceChar(Utf16BE, 0x38),
                                   SourceChar(Utf16BE, 0x33), SourceChar(Utf16BE, 0x44)]),
                    Escape(bs, u, [SourceChar(Utf16BE, 0x44), SourceChar(Utf16BE, 0x45),
                                   SourceChar(Utf16BE, 0x30), SourceChar(Utf16BE, 0x30)])];
      && Decode(units) == Some(Text(Utf16BE, [0xF6, 0x00]))
      && DecodeCorrected(units) == Some(Text(Utf16BE, [0xD8, 0x3D, 0xDE, 0x00]))
  {
    var bs := SourceChar(Utf16BE, 0x5C);
    var u := SourceChar(Utf16BE, 0x75);
    var hi := [SourceChar(Utf16BE, 0x44), SourceChar(Utf16BE, 0x38),
               SourceChar(Utf16BE, 0x33), SourceChar(Utf16BE, 0x44)];
    var lo := [SourceChar(Utf16BE, 0x44), SourceChar(Utf16BE, 0x45),
               SourceChar(Utf16BE, 0x30), SourceChar(Utf16BE, 0x30)];
    var units := [Escape(bs, u, hi), Escape(bs, u, lo)];
    FourHexDigits(0x75, hi);
    FourHexDigits(0x75, lo);
    assert Candidates(units) == [0xD83D, 0xDE00];
    AsWrittenExample();
  }

  /** In a UTF-32 text the buffer holds one four-byte unit per coalesced code point. */
  lemma Utf32TextKeepsCodePoints(units: seq<RawUnit>)
    requires LayoutOf(SourceEncoding(units)).Fixed32?
    requires forall i :: 0 <= i < |units| && units[i].Literal? ==> units[i].ch.ord < 0x1_0000_0000
    ensures Decode(units).Some?
    ensures |Decode(units).value.bytes| == 4 * |Coalesce(Candidates(units))|
    ensures Read32(Decode(units).value.bytes, LayoutOf(SourceEncoding(units)).bigEndian)
            == Coalesce(Candidates(units))
  {
    CoalesceBound(Candidates(units), 0xFFFF_FFFF);
    Utf32RoundTrip(SourceEncoding(units), Coalesce(Candidates(units)));
  }

  /** In any other text the buffer reads back, as UTF-8, to the coalesced code points. */
  lemma Utf8TextKeepsCodePoints(units: seq<RawUnit>)
    requires LayoutOf(SourceEncoding(units)) == Utf8Shaped
    requires forall i :: 0 <= i < |units| && units[i].Literal? ==> units[i].ch.ord <= 0x7FFF_FFFF
    ensures Decode(units).Some?
    ensures DecodeUtf8Form(Decode(units).value.bytes) == Some(Coalesce(Candidates(units)))
  {
    CoalesceBound(Candidates(units), 0x7FFF_FFFF);
    Utf8FormRoundTrip(SourceEncoding(units), Coalesce(Candidates(units)));
  }

  // ---------------------------------------------------------------------
  // Projections and equality

  /** A string value is well formed when its text is the decoding of its raw units. */
  predicate WellFormed(s: JsonString)
  {
    Decode(s.orig) == Some(s.str)
  }

  /** plain_old_ruby_object, to_s and to_str: the decoded text of the raw units. */
  function ToStr(s: JsonString): (t: Text)
    requires WellFormed(s)
    ensures Decode(s.orig) == Some(t)
  {
    s.str
  }

  /** The characters of one raw unit: a literal's ordinal, or an escape's backslash, letter and digits. */
  function UnitChars(u: RawUnit): seq<nat>
  {
    match u
    case Literal(c) => [c.ord]
    case Escape(b, l, ds) => [b.ord, l.ord] + Ords(ds)
  }

  /** The characters of the raw units, escapes written out as they appeared (Array#flatten). */
  function RawChars(units: seq<RawUnit>): seq<nat>
  {
    if |units| == 0 then [] else UnitChars(units[0]) + RawChars(units[1..])
  }

  /** to_json: the raw units re-emitted between quotation marks, as characters. */
  function ToJson(s: JsonString): (r: seq<nat>)
    ensures |r| >= |s.orig| + 2 && r[0] == 0x22 && r[|r| - 1] == 0x22
  {
    RawCharsLength(s.orig);
    [0x22] + RawChars(s.orig) + [0x22]
  }

  /** Flattening runs of units one after the other flattens each run and concatenates. */
  lemma {:induction false} RawCharsAppend(a: seq<RawUnit>, b: seq<RawUnit>)
    ensures RawChars(a + b) == RawChars(a) + RawChars(b)
    decreases |a|
  {
    if |a| == 0 {
      assert a + b == b;
    } else {
      assert (a + b)[0] == a[0];
      assert (a + b)[1..] == a[1..] + b;
      RawCharsAppend(a[1..], b);
    }
  }

  /**
   * Each raw unit appears in to_json exactly as it was handed over, in its
   * place: after the quotation mark and the units before it, and followed by
   * the units after it and the closing quotation mark.
   */
  lemma ToJsonAtUnit(s: JsonString, i: nat)
    requires i < |s.orig|
    ensures ToJson(s) == [0x22] + RawChars(s.orig[..i]) + UnitChars(s.orig[i]) + RawChars(s.orig[i + 1..]) + [0x22]
  {
    RawCharsAtUnit(s.orig, i);
  }

  lemma RawCharsAtUnit(units: seq<RawUnit>, i: nat)
    requires i < |units|
    ensures RawChars(units) == RawChars(units[..i]) + UnitChars(units[i]) + RawChars(units[i + 1..])
  {
    SplitAtUnit(units, i);
    RawCharsAppend(units[..i], [units[i]] + units[i + 1..]);
    RawCharsCons(units[i], units[i + 1..]);
  }

  lemma SplitAtUnit(units: seq<RawUnit>, i: nat)
    requires i < |units|
    ensures units == units[..i] + ([units[i]] + units[i + 1..])
  {
  }

  lemma RawCharsCons(u: RawUnit, post: seq<RawUnit>)
    ensures RawChars([u] + post) == UnitChars(u) + RawChars(post)
  {
    assert ([u] + post)[1..] == post;
  }

  /**
   * Without escapes, the characters to_json emits between the quotation
   * marks are exactly the code-point candidates that were decoded.
   */
  lemma {:induction false} ToJsonOfLiterals(s: JsonString)
    requires forall i :: 0 <= i < |s.orig| ==> s.orig[i].Literal?
    ensures ToJson(s) == [0x22] + Candidates(s.orig) + [0x22]
  {
    LiteralRawChars(s.orig);
  }

  lemma {:induction false} LiteralRawChars(units: seq<RawUnit>)
    requires forall i :: 0 <= i < |units| ==> units[i].Literal?
    ensures RawChars(units) == Candidates(units)
    decreases |units|
  {
    if |units| > 0 {
      LiteralRawChars(units[1..]);
      assert Candidates(units) == [Candidate(units[0])] + Candidates(units[1..]);
    }
  }

  /** Every raw unit contributes at least one character to what to_json emits. */
  lemma {:induction false} RawCharsLength(units: seq<RawUnit>)
    ensures |RawChars(units)| >= |units|
    decreases |units|
  {
    if |units| > 0 {
      RawCharsLength(units[1..]);
    }
  }

  /**
   * ==: equal to anything with to_str whose text is this string's text;
   * false for anything without to_str (None), rather than an error.
   */
  predicate Equals(s: JsonString, other: Option<Text>)
    ensures Equals(s, other) ==> other.Some? && other.value.enc == s.str.enc
  {
    match other
    case None => false
    case Some(t) => t == s.str
  }

  /**
   * Outside UTF-16, two strings are equal exactly when they are in the same
   * encoding and decode to the same code points, however these were written.
   */
  lemma EqualsIffSameCodePoints(a: JsonString, b: JsonString)
    requires WellFormed(a) && WellFormed(b)
    requires !LayoutOf(SourceEncoding(a.orig)).Fixed16?
    requires forall i :: 0 <= i < |a.orig| && a.orig[i].Literal? ==> a.orig[i].ch.ord <= 0x7FFF_FFFF
    requires forall i :: 0 <= i < |b.orig| && b.orig[i].Literal? ==> b.orig[i].ch.ord <= 0x7FFF_FFFF
    ensures Equals(a, Some(ToStr(b))) <==>
      SourceEncoding(a.orig) == SourceEncoding(b.orig) && Coalesce(Candidates(a.orig)) == Coalesce(Candidates(b.orig))
  {
    if Equals(a, Some(ToStr(b))) {
      var enc := SourceEncoding(a.orig);
      assert SourceEncoding(b.orig) == enc;
      if LayoutOf(enc).Fixed32? {
        Utf32TextKeepsCodePoints(a.orig);
        Utf32TextKeepsCodePoints(b.orig);
      } else {
        Utf8TextKeepsCodePoints(a.orig);
        Utf8TextKeepsCodePoints(b.orig);
      }
    }
  }

  /**
   * As written, UTF-16 equality is blind to the upper bits: U+1F600 and
   * U+F600, written literally in a UTF-16BE text, are equal strings.
   */
  lemma Utf16EqualityExample()
    ensures var a := [Literal(SourceChar(Utf16BE, 0x1F600))];
      var b := [Literal(SourceChar(Utf16BE, 0xF600))];
      && Decode(a).Some? && Decode(b).Some?
      && Equals(JsonString(a, Decode(a).value), Some(Decode(b).value))
  {
    var a := [Literal(SourceChar(Utf16BE, 0x1F600))];
    var b := [Literal(SourceChar(Utf16BE, 0xF600))];
    assert Candidates(a) == [0x1F600];
    assert Candidates(b) == [0xF600];
    assert [0x1F600][1..] == [] && [0xF600][1..] == [];
    assert Unit16(0x1F600, true) == Unit16(0xF600, true);
  }

  /**
   * Equality is on decoded content, not on how it was written: two strings
   * in the same encoding whose units resolve to the same candidates are equal.
   */
  lemma EqualsByContent(a: JsonString, b: JsonString)
    requires WellFormed(a) && WellFormed(b)
    requires SourceEncoding(a.orig) == SourceEncoding(b.orig)
    requires Candidates(a.orig) == Candidates(b.orig)
    ensures Equals(a, Some(ToStr(b)))
  {
  }

  /** `"\u0041"` and `"A"` in a UTF-8 text are equal strings with different JSON text. */
  lemma EscapedAndLiteralExample()
    ensures var c := SourceChar(Utf8, 0x41);
      var bs := SourceChar(Utf8, 0x5C);
      var u := SourceChar(Utf8, 0x75);
      var zero := SourceChar(Utf8, 0x30);
      var four := SourceChar(Utf8, 0x34);
      var one := SourceChar(Utf8, 0x31);
      var escaped := [Escape(bs, u, [zero, zero, four, one])];
      var literal := [Literal(c)];
      && Decode(escaped) == Some(Text(Utf8, [0x41]))
      && Decode(literal) == Some(Text(Utf8, [0x41]))
      && ToJson(JsonString(escaped, Text(Utf8, [0x41]))) != ToJson(JsonString(literal, Text(Utf8, [0x41])))
  {
    var c := SourceChar(Utf8, 0x41);
    var bs := SourceChar(Utf8, 0x5C);
    var u := SourceChar(Utf8, 0x75);
    var zero := SourceChar(Utf8, 0x30);
    var four := SourceChar(Utf8, 0x34);
    var one := SourceChar(Utf8, 0x31);
    var escaped := [Escape(bs, u, [zero, zero, four, one])];
    FourHexDigits(0x75, [zero, zero, four, one]);
    assert Candidates(escaped) == [0x41];
    assert Candidates([Literal(c)]) == [0x41];
    assert Coalesce([0x41]) == [0x41];
    assert Pack(Utf8, [0x41]) == Some([0x41]) by {
      assert [0x41][1..] == [];
    }
    var e := ToJson(JsonString(escaped, Text(Utf8, [0x41])));
    var l := ToJson(JsonString([Literal(c)], Text(Utf8, [0x41])));
    RawCharsLength([Literal(c)]);
    assert |RawChars(escaped)| == 6 by {
      assert escaped[1..] == [];
    }
    assert |RawChars([Literal(c)])| == 1 by {
      assert [Literal(c)][1..] == [];
    }
    assert |e| != |l|;
  }
}
