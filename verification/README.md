# RFC 7159 JSON values — a Dafny model

This project models the value layer of a Ruby JSON library that follows
RFC 7159. The layer turns the parser's AST nodes into frozen values. The
model covers three kinds of value:

- **Strings** (`RFC7159::String`). The constructor decodes the raw units of a
  string in three stages. Stage 1 resolves escapes to code-point candidates,
  using the escape table of section 7 of RFC 7159. Stage 2 merges UTF-16
  surrogate pairs, following section 2.2 of RFC 2781, and passes lone
  surrogates through. Stage 3 packs each code point into a byte buffer. The
  encoding of the first source character chooses the layout: UTF-32BE/LE,
  UTF-16BE/LE, or Ruby's `pack('U')` form for anything else. Alongside the
  constructor, `to_json` re-emits the raw units between quotation marks, and
  `==` compares decoded texts (section 8.3 of RFC 7159).
- **Numbers** (`RFC7159::Number`). A number keeps its canonical text (sign,
  integer, fraction and exponent, joined) and the exact decimal value of that
  text. `to_i` and `to_f` are computed once and cached. `plain_old_ruby_object`
  picks the Integer or the Float projection by the shape of the text.
  Equality is numeric.
- **Objects** (`RFC7159::Object`). An object is an ordered pair list that
  keeps repeated names. Lookup returns every value stored under a name, in
  order. Conversion to a native Hash raises on a repeated name instead of
  overwriting.

Files:

- `base.dfy` (`Base`): the `Option` and `Result` wrappers, AST tags, and the
  errors the library raises.
- `surrogates.dfy` (`Surrogates`): stage 2, and its partner, the splitting of
  code points into UTF-16 code units.
- `packing.dfy` (`Packing`): stage 3, and the readers that undo it.
- `json_string.dfy` (`JsonString`): stage 1, the whole decoding pipeline,
  `from_ast`, `to_str`, `to_json` and `==`.
- `decimals.dfy` (`Decimals`): an exact decimal number standing in for
  `BigDecimal`. A value is a mantissa and a power-of-ten exponent, with the
  real number it denotes as the reference meaning. It also holds a strict
  reader of decimal text and truncation toward zero.
- `json_number.dfy` (`JsonNumber`): the `Number` class, with its cached
  projections, and `from_ast`.
- `json_object.dfy` (`JsonObject`): the object value, `from_ast`, `[]`,
  `each_pair` and `to_h`.

Strings and objects are immutable Dafny datatypes, as the Ruby values are
frozen. `Number` is a class, because `to_i` and `to_f` write their caches
into the object. The stage 2 and stage 3 loops are methods proved against
the functions `Surrogates.Coalesce` and `Packing.Pack`. The object's
`from_ast` and `to_h` loops are methods proved against
`JsonObject.ConvertPairs` and `JsonObject.ProjectPairs`.

The constructor is modelled as written. In UTF-16 its stage 3 keeps only
the low 16 bits of each code point, so a code point beyond U+FFFF loses its
upper bits (see "## Findings"). `Packing.Pack`, `Packing.PackCodePoints`,
`JsonString.Decode` and `JsonString.Build` follow the code. A separate
variant, `Packing.PackCorrected` and `JsonString.DecodeCorrected`, writes
such a code point as its surrogate pair; the lemmas about it are labelled
"corrected" below. The two variants agree outside UTF-16.

The model follows the code where its comments or its documentation say
otherwise. One example is `to_json`, which re-emits the raw units rather
than re-encoding the decoded text. Another is the "O(1)" remark on `[]`:
the code scans linearly, and no complexity is claimed here.

## Model

| member | source | states |
|---|---|---|
| Surrogates.Combine | lib/RFC7159/string.rb:121-127 | a high surrogate followed by a low one stands for a code point in [0x10000, 0x10FFFF] |
| Surrogates.CombineSplit | lib/RFC7159/string.rb:124-126 | splitting a supplementary code point into its pair and merging the pair gives the code point back |
| Surrogates.SplitCombine | lib/RFC7159/string.rb:124-126 | merging a pair and splitting the result gives the same two halves back |
| Surrogates.CoalesceSurrogates | lib/RFC7159/string.rb:116-140 | the one-slot pending walk, leftover flush included, produces exactly the merge of every high-then-low pair, in order |
| Surrogates.CoalescePreservesUnits | lib/RFC7159/string.rb:116-140 | merging only rewrites pairs into what they encode: the UTF-16 code units of the output equal those of the input |
| Surrogates.CoalesceIsLossless | lib/RFC7159/string.rb:116-140 | on 16-bit candidates, splitting the merged output back into code units gives exactly the input candidates |
| Surrogates.CoalesceLength | lib/RFC7159/string.rb:116-140 | for any input, the output length is the input length minus the number of high-then-low pairs merged, and at most half the input is merged |
| Surrogates.MergesOfBmp | lib/RFC7159/string.rb:121-127 | on 16-bit candidates, the number of merged pairs is the number of supplementary code points in the output |
| Surrogates.CoalesceWithoutHighIsIdentity | lib/RFC7159/string.rb:128-140 | with no high surrogate in the input nothing merges, and the output is the input |
| Surrogates.CoalesceInvertsUtf16Units | lib/RFC7159/string.rb:121-140 | writing Unicode scalar values as UTF-16 code units and merging gives the scalar values back |
| Surrogates.PairExample | lib/RFC7159/string.rb:121-127 | the pair 0xD83D, 0xDE00 merges into the single code point 0x1F600 |
| Surrogates.LoneSurrogateExample | lib/RFC7159/string.rb:128-137 | a lone high surrogate followed by 'A' passes through unchanged |
| Packing.PackOne | lib/RFC7159/string.rb:143-149 | as written, one code point packs to four bytes in UTF-32 and two in UTF-16, and fails only when pack('U') gets a value above 0x7FFFFFFF |
| Packing.PackOneCorrected | lib/RFC7159/string.rb:143-149 | corrected: as PackOne, except that a supplementary code point takes four bytes in UTF-16 |
| Packing.PackCodePoints | lib/RFC7159/string.rb:142-151 | the packing loop as written yields, for every encoding, the concatenation of each code point's bytes in order, or failure if one cannot be packed |
| Packing.PackCorrectedAgrees | lib/RFC7159/string.rb:143-149 | outside UTF-16 the corrected packing gives exactly the bytes of the packing as written |
| Packing.PackAppend | lib/RFC7159/string.rb:142-151 | packing keeps code-point order: packing two runs gives the first run's bytes followed by the second's |
| Packing.PackFailsIff | lib/RFC7159/string.rb:148 | packing fails exactly when the encoding is not UTF-16 or UTF-32 and some code point exceeds 0x7FFFFFFF, the limit of pack('U') |
| Packing.Unit32ReadsBack | lib/RFC7159/string.rb:144-145 | one 'N' or 'V' unit is four bytes and reads back, in the same byte order, as the value |
| Packing.Utf32RoundTrip | lib/RFC7159/string.rb:144-145 | in UTF-32BE/LE the buffer has exactly four bytes per code point and reads back, four bytes at a time in the encoding's byte order, as the code points in order |
| Packing.Utf16KeepsLow16 | lib/RFC7159/string.rb:146-147 | as written, UTF-16 packing never fails, gives two bytes per code point, and reads back as the low 16 bits of each code point, in order |
| Packing.Utf16KeepsBmp | lib/RFC7159/string.rb:146-147 | as written, UTF-16 packing of code points up to 0xFFFF reads back as exactly those code points |
| Packing.PackUtf16IsUnits | lib/RFC7159/string.rb:146-147 | corrected: the UTF-16 packing writes the UTF-16 code units of the code points, two bytes each, in the encoding's byte order |
| Packing.Utf16BufferKeepsCandidates | lib/RFC7159/string.rb:116-147 | corrected: stages 2 and 3 in UTF-16: the buffer has two bytes per code unit and reads back as exactly the UTF-16 code units of the stage 1 candidates |
| Packing.AsWrittenTruncatesSupplementary | lib/RFC7159/string.rb:146-147 | as written, 'n'/'v' packs a supplementary code point as its low 16 bits only, which differ from the code point |
| Packing.AsWrittenExample | lib/RFC7159/string.rb:146-147 | U+1F600 in UTF-16BE packs as F6 00 as written, and as D8 3D DE 00 when corrected |
| Packing.Utf8FormReadsBack | lib/RFC7159/string.rb:148 | every code point up to 0x7FFFFFFF has a pack('U') form of one to six bytes that a UTF-8 reader decodes back to the code point |
| Packing.Utf8FormRoundTrip | lib/RFC7159/string.rb:148 | in every other encoding the buffer decodes, as UTF-8, back to the code points in order |
| Packing.Utf8FormOfUnicodeRange | lib/RFC7159/string.rb:148 | a code point up to 0x10FFFF takes one to four bytes, and a surrogate is written too, as a three-byte form starting 0xED |
| JsonString.ShortEscapeTable | lib/RFC7159/string.rb:93-101 | each of the eight short escapes maps to its fixed code point |
| JsonString.EscapeCandidate | lib/RFC7159/string.rb:93-103 | every escape, from the table or read as `\u` with at most four hex digits, yields a candidate in [0, 0xFFFF] |
| JsonString.FourHexDigits | lib/RFC7159/string.rb:102-103 | a `\u` escape with four hex digits yields their base-16 value |
| JsonString.Candidates | lib/RFC7159/string.rb:90-108 | stage 1 gives one candidate per raw unit, in order: a literal's ordinal, or an escape's value below 0x10000 |
| JsonString.Decode | lib/RFC7159/string.rb:87-154 | the decoded text is tagged with the first character's encoding (US-ASCII when empty), and a UTF-16 or UTF-32 text always decodes |
| JsonString.DecodeCorrectedAgrees | lib/RFC7159/string.rb:142-151 | outside UTF-16 the corrected constructor decodes exactly as the one written |
| JsonString.Build | lib/RFC7159/string.rb:87-156 | construction as written succeeds exactly when the three stages do; the value keeps the raw units and the decoded text tagged with the first character's encoding; otherwise pack('U') raises |
| JsonString.FromAst | lib/RFC7159/string.rb:40-44 | any tag but :string is rejected; otherwise the result is construction from the remaining units |
| JsonString.EmptyString | lib/RFC7159/string.rb:89 | the empty string decodes to an empty buffer tagged US-ASCII |
| JsonString.CoalesceKeepsNonSurrogate | lib/RFC7159/string.rb:128-140 | a candidate that is not a surrogate half survives stage 2 |
| JsonString.DecodeFailsIff | lib/RFC7159/string.rb:142-151 | decoding fails exactly when the text is neither UTF-16 nor UTF-32 and some literal character's ordinal exceeds 0x7FFFFFFF |
| JsonString.Utf16TextKeepsLow16 | lib/RFC7159/string.rb:87-151 | as written, a UTF-16 text always decodes, to two bytes per coalesced code point holding its low 16 bits |
| JsonString.Utf16TextWithoutHighKept | lib/RFC7159/string.rb:87-151 | as written, a UTF-16 text with no high-surrogate candidate and no literal beyond 0xFFFF reads back as exactly its candidates |
| JsonString.PairDecodesDifferently | lib/RFC7159/string.rb:102-147 | the escapes `\uD83D\uDE00` in UTF-16BE decode to F6 00 as written and to D8 3D DE 00 corrected |
| JsonString.Utf16TextKeepsCodeUnits | lib/RFC7159/string.rb:87-151 | corrected: in a UTF-16 text the buffer is two bytes per code unit and holds every escape as written and every literal as UTF-16 writes it |
| JsonString.Utf16EscapesKept | lib/RFC7159/string.rb:102-147 | corrected: a UTF-16 text made of escapes only keeps exactly the escaped values, two bytes each |
| JsonString.Utf32TextKeepsCodePoints | lib/RFC7159/string.rb:87-145 | in a UTF-32 text the buffer is one four-byte unit per coalesced code point, in order |
| JsonString.Utf8TextKeepsCodePoints | lib/RFC7159/string.rb:87-148 | in any other text the buffer decodes, as UTF-8, to the coalesced code points |
| JsonString.ToStr | lib/RFC7159/string.rb:47-52 | plain_old_ruby_object, to_s and to_str return the decoding of the raw units |
| JsonString.ToJson | lib/RFC7159/string.rb:70-75 | to_json opens and closes with a quotation mark and has at least one character per raw unit between them |
| JsonString.ToJsonAtUnit | lib/RFC7159/string.rb:70-75 | each raw unit appears in to_json in its place, exactly as written (an escape as its backslash, letter and digits), between the units before it and after it |
| JsonString.RawCharsAppend | lib/RFC7159/string.rb:74 | flattening two runs of raw units gives the first run's characters followed by the second's |
| JsonString.ToJsonOfLiterals | lib/RFC7159/string.rb:70-75 | without escapes, to_json is a quotation mark, the literal characters in order, and a quotation mark |
| JsonString.RawCharsLength | lib/RFC7159/string.rb:70-75 | to_json emits at least one character per raw unit |
| JsonString.Equals | lib/RFC7159/string.rb:78-82 | == is false for anything without to_str, and holds only for a text in this string's encoding |
| JsonString.EqualsIffSameCodePoints | lib/RFC7159/string.rb:78-82 | outside UTF-16, two strings are equal exactly when they share an encoding and decode to the same code points |
| JsonString.Utf16EqualityExample | lib/RFC7159/string.rb:78-82 | as written, U+1F600 and U+F600 written literally in UTF-16BE are equal strings |
| JsonString.EqualsByContent | lib/RFC7159/string.rb:78-82 | strings whose units resolve to the same candidates in the same encoding are equal, however they were escaped |
| JsonString.EscapedAndLiteralExample | lib/RFC7159/string.rb:70-82 | `"\u0041"` and `"A"` decode to the same text yet have different to_json output |
| Decimals.SameValueIsNumericEquality | lib/RFC7159/number.rb:119-121 | two decimals compare equal exactly when the real numbers they denote are equal |
| Decimals.SameValueIsEquivalence | lib/RFC7159/number.rb:119-121 | numeric equality is reflexive, symmetric and transitive |
| Decimals.ScalingKeepsValue | lib/RFC7159/number.rb:119-121 | trailing zeros in the mantissa with a matching lower exponent give an equal number |
| Decimals.Truncate | lib/RFC7159/number.rb:97 | to_d.to_i keeps the sign of the value, and with a negative exponent is no larger in magnitude than the mantissa |
| Decimals.TruncateTowardZero | lib/RFC7159/number.rb:94-101 | the integer projection is the value rounded toward zero: within one below a non-negative value and within one above a negative one |
| Decimals.TruncateRespectsValue | lib/RFC7159/number.rb:94-101 | numerically equal decimals truncate to the same integer |
| Decimals.TruncateOfWholeIsExact | lib/RFC7159/number.rb:94-101 | a decimal with a non-negative exponent truncates to exactly its value |
| JsonNumber.Number.constructor | lib/RFC7159/number.rb:127-137 | the text is the sign, integer, fraction and exponent joined, absent parts contributing nothing, the exact value is its reading, and nothing is cached |
| JsonNumber.Number.ToS | lib/RFC7159/number.rb:73-75 | to_s returns the stored canonical text, which reads as the exact value |
| JsonNumber.Number.ToJson | lib/RFC7159/number.rb:79-81 | to_json returns the same canonical text as to_s |
| JsonNumber.Number.ToD | lib/RFC7159/number.rb:68-70 | to_d is the exact value the text reads as |
| JsonNumber.Number.ToI | lib/RFC7159/number.rb:94-101 | to_i returns the truncation toward zero of the exact value, caches it, leaves the float cache alone, and returns the cached value on later calls |
| JsonNumber.Number.ToF | lib/RFC7159/number.rb:84-91 | to_f returns the exact value, caches it, leaves the integer cache alone, and returns the cached value on later calls |
| JsonNumber.Number.PlainOldRubyObject | lib/RFC7159/number.rb:59-65 | the Integer projection exactly when the text is an optional sign and one or more digits, the Float projection otherwise, each through its cache |
| JsonNumber.FromAst | lib/RFC7159/number.rb:49-54 | any tag but :number is rejected, a missing integer part is rejected, unreadable text is rejected; otherwise a fresh number holding the parts |
| JsonNumber.LexemeReadsAsParts | lib/RFC7159/number.rb:127-136 | the joined text of well-formed parts reads as the integer and fraction digits as one mantissa, scaled by the exponent less the fraction length |
| JsonNumber.WellFormedAlwaysReads | lib/RFC7159/number.rb:127-136 | the parts the parser delivers always read, so construction does not fail on them |
| JsonNumber.IntegerLexemeIff | lib/RFC7159/number.rb:59-65 | for well-formed parts the integer projection is chosen exactly when both fraction and exponent are absent |
| JsonNumber.IntegerProjectionIsExact | lib/RFC7159/number.rb:59-65 | when the integer projection is chosen it loses nothing: it equals the exact value |
| JsonNumber.Number.Equals | lib/RFC7159/number.rb:119-121 | == holds exactly when the other value denotes the same real number as this one, whatever the text |
| JsonNumber.ToIRespectsEquality | lib/RFC7159/number.rb:94-101 | numbers equal under == have the same to_i |
| JsonNumber.OnePointZeroEqualsOne | lib/RFC7159/number.rb:59-65 | "1.0" equals "1", yet "1.0" takes the Float projection and "1" the Integer one |
| JsonNumber.OneEtwoEqualsHundred | lib/RFC7159/number.rb:119-121 | "1e2" equals "100" |
| JsonObject.FromAst | lib/RFC7159/object.rb:41-50 | any tag but :object is rejected; otherwise every name and value is converted, and the first failing conversion is the error |
| JsonObject.ConvertPairsOk | lib/RFC7159/object.rb:44-48 | conversion succeeds exactly when every name and value converts, and then keeps the number and order of pairs, each converted in place |
| JsonObject.ConvertPairsErr | lib/RFC7159/object.rb:44-48 | a failed conversion reports the error of the first name or value, in reading order, that does not convert |
| JsonObject.Lookup | lib/RFC7159/object.rb:57-61 | [] never returns more values than there are pairs |
| JsonObject.MatchIndicesSpec | lib/RFC7159/object.rb:58 | the matching positions are in range, increasing, and exactly the positions whose name equals the key |
| JsonObject.LookupByIndices | lib/RFC7159/object.rb:57-61 | [] returns the values at the matching positions, in the order stored, duplicates included |
| JsonObject.LookupEmptyIff | lib/RFC7159/object.rb:57-61 | [] returns nothing exactly when no name equals the key |
| JsonObject.SelectAppend | lib/RFC7159/object.rb:57-61 | lookup over two runs of pairs is the lookup over the first followed by the lookup over the second |
| JsonObject.DuplicateNameExample | lib/RFC7159/object.rb:53-61 | a name written twice yields both of its values in the order written |
| JsonObject.EachPair | lib/RFC7159/object.rb:65-72 | each_pair hands out every stored pair exactly once, in the order stored |
| JsonObject.ToHash | lib/RFC7159/object.rb:78-90 | the Hash-building loop yields the map built pair by pair, or the first conflict or value error |
| JsonObject.ProjectPairsContents | lib/RFC7159/object.rb:78-90 | a successful to_h has exactly the projected names as keys, each mapped to the projection of its own value: nothing is overwritten |
| JsonObject.ProjectPairsOkIff | lib/RFC7159/object.rb:80-88 | to_h succeeds exactly when the projected names are distinct and every value projects |
| JsonObject.RepeatedNameConflicts | lib/RFC7159/object.rb:82-83 | when every value projects, a repeated projected name is always a key conflict |

## Left out

- `inspect` and `pretty_print`, in all three files: debug formatting that depends on `object_id` and the `PP` library.
- JsonNumber.Number.ToF: returns the exact decimal rather than a binary double; rounding to floating point is not modelled, only the caching.
- JsonNumber.Number.Equals: compares with a decimal only; Ruby's coercion of other numeric types in `other == @to_d` is not modelled.
- BigDecimal's reader is modelled strictly: an optional sign, digits, an optional fraction and an optional exponent. Its leniencies on other text (leading blanks, underscores, a missing integer part) are not modelled, and such text is rejected.
- The `||=` race guard in `to_i` and `to_f` (lib/RFC7159/number.rb:88, :98): the model is sequential.
- Ruby's `Encoding` machinery: an encoding is an enumerated tag. The `force_encoding` at lib/RFC7159/string.rb:152, the US-ASCII transcodings at lines 93, 103 and number.rb:134, and the UTF-8 transcoding in `to_json` (string.rb:74) are not modelled. `to_json` yields the code points of the raw characters.
- `to_i(16)` is modelled as the base-16 reading of the leading hex digits of the `\u` digits, and 0 when there are none. Ruby's leniencies are not modelled: leading whitespace, a leading sign, underscores and a `0x` prefix.
- String `==` between values of different encodings: text equality is equality of encoding tag and bytes. The other operand's `to_str` is given as an optional text, with none standing for an object without `to_str`.
- `RFC7159::Value.from_ast` and the `plain_old_ruby_object` of names and values are not part of this model: they are function parameters of the object operations.
- The in-place `map!` of object `from_ast` (lib/RFC7159/object.rb:44-48): the model builds a new list, since the AST arrays are not shared with anything else in the model.
- The insertion order of the Ruby Hash built by `to_h`: a Dafny map is unordered.
- `freeze` (string.rb:155, number.rb:135, object.rb:126-127): implicit, as strings and objects are immutable datatypes and the number's fields are constants.
- The commented-out validity fallback at lib/RFC7159/string.rb:153, and the dialogue after line 159 of that file.
- The block-given branch of `each_pair` (lib/RFC7159/object.rb:71), which refers to an undefined `b`: only the enumeration is modelled.
- The character arrays of the AST are modelled as already-joined strings (number parts) or as sequences of characters (string units).
- `Packing.Read32` and `Packing.Read16` are reference readers used only to state round trips; they ignore a trailing partial unit.

## Findings

| source | as written | input that shows it | evidently intended | confidence | as-written member | corrected member |
|---|---|---|---|---|---|---|
| lib/RFC7159/string.rb:146-147 | in a UTF-16 text each code point is packed with 'n'/'v', which keeps only its low 16 bits, so a merged surrogate pair or a literal outside the Basic Multilingual Plane loses its upper bits | the escapes `\uD83D\uDE00` in a UTF-16BE text: stage 2 merges them into U+1F600, and 'n' packs that as the bytes F6 00 | a supplementary code point is written as its surrogate pair, D8 3D DE 00, so the buffer holds the UTF-16 code units of the string | not executed | Packing.PackOne and JsonString.Decode (shown by Packing.AsWrittenTruncatesSupplementary, Packing.AsWrittenExample and JsonString.PairDecodesDifferently) | Packing.PackOneCorrected and JsonString.DecodeCorrected (proved by Packing.Utf16BufferKeepsCandidates and JsonString.Utf16TextKeepsCodeUnits) |
