/**
 * Stage 3 of string decoding: packing each code point into bytes whose
 * width and order follow the encoding of the JSON text (Array#pack with
 * 'N', 'V', 'n', 'v' or 'U'), together with reference decoders that read
 * the bytes back, against which the packing is proved.
 */
module Packing {
  import opened Base
  import opened Surrogates

  type Byte = x: int | 0 <= x < 0x100

  /** The encodings stage 3 tells apart; every other one is `OtherEncoding`. */
  datatype Encoding = Utf32BE | Utf32LE | Utf16BE | Utf16LE | Utf8 | UsAscii | OtherEncoding(name: string)

  /** How an encoding lays out one code point. */
  datatype Layout = Fixed32(bigEndian: bool) | Fixed16(bigEndian: bool) | Utf8Shaped

  function LayoutOf(enc: Encoding): Layout
  {
    match enc
    case Utf32BE => Fixed32(true)
    case Utf32LE => Fixed32(false)
    case Utf16BE => Fixed16(true)
    case Utf16LE => Fixed16(false)
    case _ => Utf8Shaped
  }

  /** pack('N') and pack('V'): a 32-bit unsigned value, wrapping modulo 2^32. */
  function Unit32(v: nat, bigEndian: bool): seq<Byte>
  {
    var w := v % 0x1_0000_0000;
    var b := [w / 0x100_0000, (w / 0x1_0000) % 0x100, (w / 0x100) % 0x100, w % 0x100];
    if bigEndian then b else [b[3], b[2], b[1], b[0]]
  }

  /** pack('n') and pack('v'): a 16-bit unsigned value, keeping the low 16 bits. */
  function Unit16(v: nat, bigEndian: bool): seq<Byte>
  {
    var w := v % 0x1_0000;
    if bigEndian then [w / 0x100, w % 0x100] else [w % 0x100, w / 0x100]
  }

  /**
   * pack('U'): the UTF-8 bit layout of section 3 of RFC 3629, continued to
   * the historical five- and six-byte forms for values up to 0x7FFFFFFF;
   * no check that the value is a Unicode scalar value, so surrogates are
   * packed too. Larger values raise RangeError (None).
   */
  function Utf8Form(cp: nat): Option<seq<Byte>>
  {
    if cp <= 0x7F then Some([cp])
    else if cp <= 0x7FF then Some([0xC0 + cp / 0x40, 0x80 + cp % 0x40])
    else if cp <= 0xFFFF then
      Some([0xE0 + cp / 0x1000, 0x80 + (cp / 0x40) % 0x40, 0x80 + cp % 0x40])
    else if cp <= 0x1F_FFFF then
      Some([0xF0 + cp / 0x4_0000, 0x80 + (cp / 0x1000) % 0x40, 0x80 + (cp / 0x40) % 0x40,
            0x80 + cp % 0x40])
    else if cp <= 0x3FF_FFFF then
      Some([0xF8 + cp / 0x100_0000, 0x80 + (cp / 0x4_0000) % 0x40, 0x80 + (cp / 0x1000) % 0x40,
            0x80 + (cp / 0x40) % 0x40, 0x80 + cp % 0x40])
    else if cp <= 0x7FFF_FFFF then
      Some([0xFC + cp / 0x4000_0000, 0x80 + (cp / 0x100_0000) % 0x40, 0x80 + (cp / 0x4_0000) % 0x40,
            0x80 + (cp / 0x1000) % 0x40, 0x80 + (cp / 0x40) % 0x40, 0x80 + cp % 0x40])
    else None
  }

  /** The bytes of a sequence of 16-bit code units, one after the other. */
  function Units16Bytes(units: seq<nat>, bigEndian: bool): seq<Byte>
  {
    if |units| == 0 then [] else Unit16(units[0], bigEndian) + Units16Bytes(units[1..], bigEndian)
  }

  /**
   * One code point packed the way the loop body of stage 3 is written: 'N'
   * or 'V' in UTF-32, 'n' or 'v' in UTF-16, 'U' otherwise. The UTF-16
   * branches keep only the low 16 bits of the code point, so a code point
   * outside the Basic Multilingual Plane loses its upper bits.
   */
  function PackOne(enc: Encoding, cp: nat): (r: Option<seq<Byte>>)
    ensures r.None? <==> LayoutOf(enc) == Utf8Shaped && cp > 0x7FFF_FFFF
    ensures r.Some? && LayoutOf(enc).Fixed32? ==> |r.value| == 4
    ensures r.Some? && LayoutOf(enc).Fixed16? ==> |r.value| == 2
  {
    match LayoutOf(enc)
    case Fixed32(be) => Some(Unit32(cp, be))
    case Fixed16(be) => Some(Unit16(cp, be))
    case Utf8Shaped => Utf8Form(cp)
  }

  /**
   * One code point packed as the encoding requires: as PackOne, except that
   * in UTF-16 a supplementary code point is written as its surrogate pair.
   */
  function PackOneCorrected(enc: Encoding, cp: nat): (r: Option<seq<Byte>>)
    ensures r.None? <==> LayoutOf(enc) == Utf8Shaped && cp > 0x7FFF_FFFF
    ensures r.Some? && LayoutOf(enc).Fixed16? ==> |r.value| == if IsSupplementary(cp) then 4 else 2
  {
    match LayoutOf(enc)
    case Fixed32(be) => Some(Unit32(cp, be))
    case Fixed16(be) =>
      if IsSupplementary(cp) then Some(Unit16(HighHalf(cp), be) + Unit16(LowHalf(cp), be))
      else Some(Unit16(cp, be))
    case Utf8Shaped => Utf8Form(cp)
  }

  /** The specification of stage 3 as written: every code point packed, in order; None if one cannot be. */
  function Pack(enc: Encoding, cps: seq<nat>): Option<seq<Byte>>
  {
    if |cps| == 0 then Some([])
    else
      match PackOne(enc, cps[0])
      case None => None
      case Some(head) =>
        match Pack(enc, cps[1..])
        case None => None
        case Some(tail) => Some(head + tail)
  }

  /** Stage 3 with the corrected UTF-16 branch. */
  function PackCorrected(enc: Encoding, cps: seq<nat>): Option<seq<Byte>>
  {
    if |cps| == 0 then Some([])
    else
      match PackOneCorrected(enc, cps[0])
      case None => None
      case Some(head) =>
        match PackCorrected(enc, cps[1..])
        case None => None
        case Some(tail) => Some(head + tail)
  }

  /** Outside UTF-16 the correction changes nothing. */
  lemma {:induction false} PackCorrectedAgrees(enc: Encoding, cps: seq<nat>)
    requires !LayoutOf(enc).Fixed16?
    ensures PackCorrected(enc, cps) == Pack(enc, cps)
    decreases |cps|
  {
    if |cps| > 0 {
      PackCorrectedAgrees(enc, cps[1..]);
    }
  }

  /** Packing a concatenation packs each part and concatenates, so code-point order is kept. */
  lemma {:induction false} PackAppend(enc: Encoding, a: seq<nat>, b: seq<nat>)
    ensures Pack(enc, a + b) ==
      (if Pack(enc, a).Some? && Pack(enc, b).Some? then Some(Pack(enc, a).value + Pack(enc, b).value) else None)
    decreases |a|
  {
    if |a| == 0 {
      assert a + b == b;
      assert Pack(enc, a) == Some([]);
      if Pack(enc, b).Some? {
        assert [] + Pack(enc, b).value == Pack(enc, b).value;
      }
    } else {
      assert (a + b)[0] == a[0];
      assert (a + b)[1..] == a[1..] + b;
      PackAppend(enc, a[1..], b);
      if PackOne(enc, a[0]).Some? && Pack(enc, a[1..]).Some? && Pack(enc, b).Some? {
        var h := PackOne(enc, a[0]).value;
        assert h + (Pack(enc, a[1..]).value + Pack(enc, b).value)
            == (h + Pack(enc, a[1..]).value) + Pack(enc, b).value;
      }
    }
  }

  /**
   * The loop of stage 3: pack each code point and append its bytes to the
   * buffer; a code point pack('U') cannot take raises RangeError.
   */
  method PackCodePoints(enc: Encoding, cps: seq<nat>) returns (r: Option<seq<Byte>>)
    ensures r == Pack(enc, cps)
  {
    var buf: seq<Byte> := [];
    var i := 0;
    while i < |cps|
      invariant 0 <= i <= |cps|
      invariant Pack(enc, cps[..i]) == Some(buf)
    {
      var piece := PackOne(enc, cps[i]);
      PackExtend(enc, cps, i);
      if piece.None? {
        PackPrefixNone(enc, cps, i + 1);
        return None;
      }
      buf := buf + piece.value;
      i := i + 1;
    }
    assert cps[..i] == cps;
    r := Some(buf);
  }

  /** One more code point packed onto a packed prefix. */
  lemma PackExtend(enc: Encoding, cps: seq<nat>, i: nat)
    requires i < |cps|
    ensures var front := Pack(enc, cps[..i]);
      var piece := PackOne(enc, cps[i]);
      Pack(enc, cps[..i + 1]) == (if front.Some? && piece.Some? then Some(front.value + piece.value) else None)
  {
    var piece := PackOne(enc, cps[i]);
    assert cps[..i + 1] == cps[..i] + [cps[i]];
    assert [cps[i]][1..] == [];
    assert Pack(enc, [cps[i]]) == (if piece.Some? then Some(piece.value + []) else None);
    assert piece.Some? ==> piece.value + [] == piece.value;
    PackAppend(enc, cps[..i], [cps[i]]);
  }

  /** A prefix that cannot be packed makes the whole sequence unpackable. */
  lemma PackPrefixNone(enc: Encoding, cps: seq<nat>, j: nat)
    requires j <= |cps| && Pack(enc, cps[..j]).None?
    ensures Pack(enc, cps).None?
  {
    assert cps == cps[..j] + cps[j..];
    PackAppend(enc, cps[..j], cps[j..]);
  }

  /** Packing fails exactly for a code point too large for pack('U') in a UTF-8-shaped encoding. */
  lemma {:induction false} PackFailsIff(enc: Encoding, cps: seq<nat>)
    ensures Pack(enc, cps).None? <==>
      LayoutOf(enc) == Utf8Shaped && exists i :: 0 <= i < |cps| && cps[i] > 0x7FFF_FFFF
    decreases |cps|
  {
    if |cps| > 0 {
      PackFailsIff(enc, cps[1..]);
      if LayoutOf(enc) == Utf8Shaped && exists i :: 0 <= i < |cps[1..]| && cps[1..][i] > 0x7FFF_FFFF {
        var i :| 0 <= i < |cps[1..]| && cps[1..][i] > 0x7FFF_FFFF;
        assert cps[i + 1] > 0x7FFF_FFFF;
      }
      if LayoutOf(enc) == Utf8Shaped && exists i :: 0 <= i < |cps| && cps[i] > 0x7FFF_FFFF {
        var i :| 0 <= i < |cps| && cps[i] > 0x7FFF_FFFF;
        if i > 0 {
          assert cps[1..][i - 1] > 0x7FFF_FFFF;
        }
      }
    }
  }

  // ---------------------------------------------------------------------
  // Fixed 32-bit layouts (UTF-32BE, UTF-32LE)

  /** The value of four bytes, most significant first. */
  function Word(b0: Byte, b1: Byte, b2: Byte, b3: Byte): nat
  {
    b0 as nat * 0x100_0000 + b1 as nat * 0x1_0000 + b2 as nat * 0x100 + b3 as nat
  }

  /** The 32-bit values of a buffer read four bytes at a time; a trailing partial unit is not read. */
  function Read32(b: seq<Byte>, bigEndian: bool): seq<nat>
  {
    if |b| < 4 then [] else [ReadUnit32(b[..4], bigEndian)] + Read32(b[4..], bigEndian)
  }

  /** The value of one four-byte unit in the given byte order. */
  function ReadUnit32(u: seq<Byte>, bigEndian: bool): nat
    requires |u| == 4
  {
    if bigEndian then Word(u[0], u[1], u[2], u[3]) else Word(u[3], u[2], u[1], u[0])
  }

  /** Base-256 digits of a 32-bit value recombine to the value. */
  lemma Base256Digits(v: nat)
    requires v < 0x1_0000_0000
    ensures (v / 0x100_0000) * 0x100_0000 + ((v / 0x1_0000) % 0x100) * 0x1_0000
            + ((v / 0x100) % 0x100) * 0x100 + v % 0x100 == v
  {
    var q1 := v / 0x100;
    var q2 := q1 / 0x100;
    var q3 := q2 / 0x100;
    assert v == q1 * 0x100 + v % 0x100;
    assert q1 == q2 * 0x100 + q1 % 0x100;
    assert q2 == q3 * 0x100 + q2 % 0x100;
    assert q2 == v / 0x1_0000;
    assert q3 == v / 0x100_0000;
  }

  /** The four bytes of one 32-bit unit read back as its value. */
  lemma Unit32ReadsBack(v: nat, be: bool)
    requires v < 0x1_0000_0000
    ensures |Unit32(v, be)| == 4 && ReadUnit32(Unit32(v, be), be) == v
  {
    Base256Digits(v);
    assert v % 0x1_0000_0000 == v;
    var u := Unit32(v, be);
    var d0, d1, d2, d3 := v / 0x100_0000, (v / 0x1_0000) % 0x100, (v / 0x100) % 0x100, v % 0x100;
    if be {
      assert u == [d0, d1, d2, d3];
    } else {
      assert u == [d3, d2, d1, d0];
    }
    assert Word(d0, d1, d2, d3) == v;
  }

  /**
   * UTF-32 gives exactly four bytes per code point, in the byte order of the
   * encoding: reading the buffer back four bytes at a time gives the code points.
   */
  lemma {:induction false} Utf32RoundTrip(enc: Encoding, cps: seq<nat>)
    requires LayoutOf(enc).Fixed32?
    requires forall i :: 0 <= i < |cps| ==> cps[i] < 0x1_0000_0000
    ensures Pack(enc, cps).Some?
    ensures |Pack(enc, cps).value| == 4 * |cps|
    ensures Read32(Pack(enc, cps).value, LayoutOf(enc).bigEndian) == cps
    decreases |cps|
  {
    if |cps| > 0 {
      Utf32RoundTrip(enc, cps[1..]);
      Utf32Front(enc, cps[0], cps[1..], Pack(enc, cps[1..]).value);
      assert [cps[0]] + cps[1..] == cps;
    }
  }

  /** One more code point in front of a buffer that already reads back. */
  lemma Utf32Front(enc: Encoding, c: nat, rest: seq<nat>, tail: seq<Byte>)
    requires LayoutOf(enc).Fixed32? && c < 0x1_0000_0000
    requires Pack(enc, rest) == Some(tail) && |tail| == 4 * |rest|
    requires Read32(tail, LayoutOf(enc).bigEndian) == rest
    ensures Pack(enc, [c] + rest).Some?
    ensures |Pack(enc, [c] + rest).value| == 4 * |[c] + rest|
    ensures Read32(Pack(enc, [c] + rest).value, LayoutOf(enc).bigEndian) == [c] + rest
  {
    var be := LayoutOf(enc).bigEndian;
    var head := Unit32(c, be);
    Unit32ReadsBack(c, be);
    Read32Front(head, tail, be);
    assert ([c] + rest)[1..] == rest;
    assert PackOne(enc, c) == Some(head);
    PackCons(enc, [c] + rest, head, tail);
  }

  /** Pack on a non-empty sequence, once its head and its tail are known to pack. */
  lemma PackCons(enc: Encoding, cps: seq<nat>, head: seq<Byte>, tail: seq<Byte>)
    requires |cps| > 0
    requires PackOne(enc, cps[0]) == Some(head) && Pack(enc, cps[1..]) == Some(tail)
    ensures Pack(enc, cps) == Some(head + tail)
  {
  }

  lemma Read32Front(head: seq<Byte>, tail: seq<Byte>, be: bool)
    requires |head| == 4
    ensures Read32(head + tail, be) == [ReadUnit32(head, be)] + Read32(tail, be)
  {
    var b := head + tail;
    assert b[4..] == tail;
    assert b[..4] == head;
  }

  // ---------------------------------------------------------------------
  // Fixed 16-bit layouts (UTF-16BE, UTF-16LE)

  /** The value of two bytes, most significant first. */
  function Half(b0: Byte, b1: Byte): nat
  {
    b0 as nat * 0x100 + b1 as nat
  }

  /** The 16-bit code units of a buffer read two bytes at a time; a trailing odd byte is not read. */
  function Read16(b: seq<Byte>, bigEndian: bool): seq<nat>
  {
    if |b| < 2 then []
    else [if bigEndian then Half(b[0], b[1]) else Half(b[1], b[0])] + Read16(b[2..], bigEndian)
  }

  lemma {:induction false} Units16BytesAppend(a: seq<nat>, b: seq<nat>, be: bool)
    ensures Units16Bytes(a + b, be) == Units16Bytes(a, be) + Units16Bytes(b, be)
    decreases |a|
  {
    if |a| == 0 {
      assert a + b == b;
    } else {
      assert (a + b)[1..] == a[1..] + b;
      Units16BytesAppend(a[1..], b, be);
    }
  }

  /** One 'n' or 'v' unit in front of a buffer reads back first as the low 16 bits of its value. */
  lemma Unit16Front(v: nat, tail: seq<Byte>, be: bool)
    ensures Read16(Unit16(v, be) + tail, be) == [v % 0x1_0000] + Read16(tail, be)
  {
    var b := Unit16(v, be) + tail;
    assert b[2..] == tail;
  }

  /**
   * As written, UTF-16 gives exactly two bytes per code point, in the byte
   * order of the encoding, holding the low 16 bits of the code point.
   */
  lemma {:induction false} Utf16KeepsLow16(enc: Encoding, cps: seq<nat>)
    requires LayoutOf(enc).Fixed16?
    ensures Pack(enc, cps).Some?
    ensures |Pack(enc, cps).value| == 2 * |cps|
    ensures var u := Read16(Pack(enc, cps).value, LayoutOf(enc).bigEndian);
      |u| == |cps| && forall i :: 0 <= i < |cps| ==> u[i] == cps[i] % 0x1_0000
    decreases |cps|
  {
    if |cps| > 0 {
      var be := LayoutOf(enc).bigEndian;
      Utf16KeepsLow16(enc, cps[1..]);
      var tail := Pack(enc, cps[1..]).value;
      assert PackOne(enc, cps[0]) == Some(Unit16(cps[0], be));
      PackCons(enc, cps, Unit16(cps[0], be), tail);
      Unit16Front(cps[0], tail, be);
      var u := Read16(Pack(enc, cps).value, be);
      assert u == [cps[0] % 0x1_0000] + Read16(tail, be);
      forall i | 0 <= i < |cps|
        ensures u[i] == cps[i] % 0x1_0000
      {
        if i > 0 {
          assert u[i] == Read16(tail, be)[i - 1];
          assert cps[1..][i - 1] == cps[i];
        }
      }
    }
  }

  /** As written, UTF-16 keeps code points up to 0xFFFF exactly. */
  lemma Utf16KeepsBmp(enc: Encoding, cps: seq<nat>)
    requires LayoutOf(enc).Fixed16? && AllBmp(cps)
    ensures Pack(enc, cps).Some?
    ensures Read16(Pack(enc, cps).value, LayoutOf(enc).bigEndian) == cps
  {
    Utf16KeepsLow16(enc, cps);
    var u := Read16(Pack(enc, cps).value, LayoutOf(enc).bigEndian);
    assert forall i :: 0 <= i < |cps| ==> u[i] == cps[i];
  }

  /** With the correction, the UTF-16 buffer is the bytes of the UTF-16 code units of the code points. */
  lemma {:induction false} PackUtf16IsUnits(enc: Encoding, cps: seq<nat>)
    requires LayoutOf(enc).Fixed16?
    ensures PackCorrected(enc, cps) == Some(Units16Bytes(Utf16Units(cps), LayoutOf(enc).bigEndian))
    decreases |cps|
  {
    if |cps| > 0 {
      var be := LayoutOf(enc).bigEndian;
      PackUtf16IsUnits(enc, cps[1..]);
      assert cps == [cps[0]] + cps[1..];
      Utf16UnitsAppend([cps[0]], cps[1..]);
      Units16BytesAppend(Utf16Units([cps[0]]), Utf16Units(cps[1..]), be);
      assert [cps[0]][1..] == [];
      if IsSupplementary(cps[0]) {
        var pair := [HighHalf(cps[0]), LowHalf(cps[0])];
        assert pair[1..] == [LowHalf(cps[0])];
        assert [LowHalf(cps[0])][1..] == [];
        assert Units16Bytes(pair, be) == Unit16(HighHalf(cps[0]), be) + Unit16(LowHalf(cps[0]), be);
      } else {
        assert Units16Bytes([cps[0]], be) == Unit16(cps[0], be);
      }
    }
  }

  lemma {:induction false} Read16Units(units: seq<nat>, be: bool)
    requires AllBmp(units)
    ensures |Units16Bytes(units, be)| == 2 * |units|
    ensures Read16(Units16Bytes(units, be), be) == units
    decreases |units|
  {
    if |units| > 0 {
      Read16Units(units[1..], be);
      var b := Unit16(units[0], be) + Units16Bytes(units[1..], be);
      assert b[2..] == Units16Bytes(units[1..], be);
    }
  }

  lemma {:induction false} Utf16UnitsAreBmp(cps: seq<nat>)
    requires forall i :: 0 <= i < |cps| ==> cps[i] <= 0x10FFFF
    ensures AllBmp(Utf16Units(cps))
    decreases |cps|
  {
    if |cps| > 0 {
      Utf16UnitsAreBmp(cps[1..]);
    }
  }

  /**
   * With the correction, the coalesced code points are written back in
   * UTF-16 as the UTF-16 code units of the candidates: reading the buffer two
   * bytes at a time gives them, so merging a pair in stage 2 loses nothing
   * in stage 3.
   */
  lemma Utf16BufferKeepsCandidates(enc: Encoding, s: seq<nat>)
    requires LayoutOf(enc).Fixed16?
    requires forall i :: 0 <= i < |s| ==> s[i] <= 0x10FFFF
    ensures PackCorrected(enc, Coalesce(s)).Some?
    ensures |PackCorrected(enc, Coalesce(s)).value| == 2 * |Utf16Units(s)|
    ensures Read16(PackCorrected(enc, Coalesce(s)).value, LayoutOf(enc).bigEndian) == Utf16Units(s)
  {
    var be := LayoutOf(enc).bigEndian;
    var u := Utf16Units(s);
    PackUtf16IsUnits(enc, Coalesce(s));
    CoalescePreservesUnits(s);
    assert PackCorrected(enc, Coalesce(s)) == Some(Units16Bytes(u, be));
    Utf16UnitsAreBmp(s);
    Read16Units(u, be);
  }

  /**
   * As written, the UTF-16 branch keeps only the low 16 bits: a supplementary
   * code point becomes one code unit that is not that code point.
   */
  lemma AsWrittenTruncatesSupplementary(enc: Encoding, cp: nat)
    requires LayoutOf(enc).Fixed16? && IsSupplementary(cp)
    ensures PackOne(enc, cp).Some?
    ensures Read16(PackOne(enc, cp).value, LayoutOf(enc).bigEndian) == [cp % 0x1_0000]
    ensures cp % 0x1_0000 != cp
  {
    var be := LayoutOf(enc).bigEndian;
    assert Unit16(cp, be)[2..] == [];
  }

  /** The surrogate pair of U+1F600, packed as written and as corrected, in UTF-16BE. */
  lemma AsWrittenExample()
    ensures Coalesce([0xD83D, 0xDE00]) == [0x1F600]
    ensures PackOne(Utf16BE, 0x1F600) == Some([0xF6, 0x00])
    ensures PackOneCorrected(Utf16BE, 0x1F600) == Some([0xD8, 0x3D, 0xDE, 0x00])
    ensures Pack(Utf16BE, [0x1F600]) == Some([0xF6, 0x00])
    ensures PackCorrected(Utf16BE, [0x1F600]) == Some([0xD8, 0x3D, 0xDE, 0x00])
  {
    PairExample();
    assert HighHalf(0x1F600) == 0xD83D && LowHalf(0x1F600) == 0xDE00;
    assert Unit16(0xD83D, true) == [0xD8, 0x3D];
    assert Unit16(0xDE00, true) == [0xDE, 0x00];
    assert PackOneCorrected(Utf16BE, 0x1F600) == Some(Unit16(0xD83D, true) + Unit16(0xDE00, true));
    assert [0xD8, 0x3D] + [0xDE, 0x00] == [0xD8, 0x3D, 0xDE, 0x00];
    assert [0x1F600][1..] == [];
    assert [0xF6, 0x00] + [] == [0xF6, 0x00];
    assert [0xD8, 0x3D, 0xDE, 0x00] + [] == [0xD8, 0x3D, 0xDE, 0x00];
  }

  // ---------------------------------------------------------------------
  // The UTF-8-shaped layout (every other encoding)

  /** The length of the byte sequence a lead byte announces; 0 for a byte that cannot lead. */
  function SequenceLength(lead: Byte): nat
  {
    if lead < 0x80 then 1
    else if lead < 0xC0 then 0
    else if lead < 0xE0 then 2
    else if lead < 0xF0 then 3
    else if lead < 0xF8 then 4
    else if lead < 0xFC then 5
    else if lead < 0xFE then 6
    else 0
  }

  predicate IsContinuation(b: Byte) { 0x80 <= b < 0xC0 }

  /** The value carried by an `n`-byte sequence at the front of `b`. */
  function SequenceValue(b: seq<Byte>, n: nat): int
    requires 1 <= n <= 6 && n <= |b|
  {
    match n
    case 1 => b[0]
    case 2 => (b[0] as int - 0xC0) * 0x40 + (b[1] as int - 0x80)
    case 3 => (b[0] as int - 0xE0) * 0x1000 + (b[1] as int - 0x80) * 0x40 + (b[2] as int - 0x80)
    case 4 => (b[0] as int - 0xF0) * 0x4_0000 + (b[1] as int - 0x80) * 0x1000
              + (b[2] as int - 0x80) * 0x40 + (b[3] as int - 0x80)
    case 5 => (b[0] as int - 0xF8) * 0x100_0000 + (b[1] as int - 0x80) * 0x4_0000
              + (b[2] as int - 0x80) * 0x1000 + (b[3] as int - 0x80) * 0x40 + (b[4] as int - 0x80)
    case 6 => (b[0] as int - 0xFC) * 0x4000_0000 + (b[1] as int - 0x80) * 0x100_0000
              + (b[2] as int - 0x80) * 0x4_0000 + (b[3] as int - 0x80) * 0x1000
              + (b[4] as int - 0x80) * 0x40 + (b[5] as int - 0x80)
  }

  /** A reference reader of the UTF-8 bit layout: lead byte, then continuation bytes. */
  function DecodeUtf8Form(b: seq<Byte>): Option<seq<int>>
    decreases |b|
  {
    if |b| == 0 then Some([])
    else
      var n := SequenceLength(b[0]);
      if n == 0 || |b| < n || !(forall k :: 1 <= k < n ==> IsContinuation(b[k])) then None
      else
        match DecodeUtf8Form(b[n..])
        case None => None
        case Some(rest) => Some([SequenceValue(b, n)] + rest)
  }

  /** Six-bit groups of a value recombine to the value. */
  lemma Base64Digits(cp: nat)
    ensures cp == (cp / 0x40) * 0x40 + cp % 0x40
    ensures cp / 0x40 == (cp / 0x1000) * 0x40 + (cp / 0x40) % 0x40
    ensures cp / 0x1000 == (cp / 0x4_0000) * 0x40 + (cp / 0x1000) % 0x40
    ensures cp / 0x4_0000 == (cp / 0x100_0000) * 0x40 + (cp / 0x4_0000) % 0x40
    ensures cp / 0x100_0000 == (cp / 0x4000_0000) * 0x40 + (cp / 0x100_0000) % 0x40
  {
    var q1 := cp / 0x40;
    var q2 := q1 / 0x40;
    var q3 := q2 / 0x40;
    var q4 := q3 / 0x40;
    var q5 := q4 / 0x40;
    assert q2 == cp / 0x1000;
    assert q3 == cp / 0x4_0000;
    assert q4 == cp / 0x100_0000;
    assert q5 == cp / 0x4000_0000;
  }

  /** One packed code point is read back whole, whatever follows it. */
  lemma Utf8FormReadsBack(cp: nat, rest: seq<Byte>)
    requires cp <= 0x7FFF_FFFF
    ensures Utf8Form(cp).Some?
    ensures var f := Utf8Form(cp).value;
      && 1 <= |f| <= 6
      && SequenceLength(f[0]) == |f|
      && (forall k :: 1 <= k < |f| ==> IsContinuation(f[k]))
      && SequenceValue(f + rest, |f|) == cp
  {
    Base64Digits(cp);
    var f := Utf8Form(cp).value;
    var b := f + rest;
    assert forall k :: 0 <= k < |f| ==> b[k] == f[k];
    if cp <= 0x7F {
    } else if cp <= 0x7FF {
    } else if cp <= 0xFFFF {
    } else if cp <= 0x1F_FFFF {
    } else if cp <= 0x3FF_FFFF {
    } else {
    }
  }

  /** A well-formed sequence at the front of the buffer is read as its value, then reading goes on. */
  lemma DecodeFront(f: seq<Byte>, tail: seq<Byte>, cp: int, rest: seq<int>)
    requires 1 <= |f| <= 6 && SequenceLength(f[0]) == |f|
    requires forall k :: 1 <= k < |f| ==> IsContinuation(f[k])
    requires SequenceValue(f + tail, |f|) == cp
    requires DecodeUtf8Form(tail) == Some(rest)
    ensures DecodeUtf8Form(f + tail) == Some([cp] + rest)
  {
    var b := f + tail;
    assert b[|f|..] == tail;
    assert b[0] == f[0];
    assert forall k :: 1 <= k < |f| ==> b[k] == f[k];
  }

  /** A packed code point in front of a readable buffer is read first, then the rest. */
  lemma Utf8FormFront(cp: nat, tail: seq<Byte>, rest: seq<int>)
    requires cp <= 0x7FFF_FFFF
    requires DecodeUtf8Form(tail) == Some(rest)
    ensures Utf8Form(cp).Some?
    ensures DecodeUtf8Form(Utf8Form(cp).value + tail) == Some([cp] + rest)
  {
    Utf8FormReadsBack(cp, tail);
    DecodeFront(Utf8Form(cp).value, tail, cp, rest);
  }

  /**
   * For every encoding other than UTF-16 and UTF-32 the buffer reads back,
   * by the UTF-8 bit layout, as exactly the code points packed.
   */
  lemma {:induction false} Utf8FormRoundTrip(enc: Encoding, cps: seq<nat>)
    requires LayoutOf(enc) == Utf8Shaped
    requires forall i :: 0 <= i < |cps| ==> cps[i] <= 0x7FFF_FFFF
    ensures Pack(enc, cps).Some?
    ensures DecodeUtf8Form(Pack(enc, cps).value) == Some(cps)
    decreases |cps|
  {
    if |cps| > 0 {
      Utf8FormRoundTrip(enc, cps[1..]);
      var tail := Pack(enc, cps[1..]).value;
      Utf8FormFront(cps[0], tail, cps[1..]);
      var f := Utf8Form(cps[0]).value;
      assert PackOne(enc, cps[0]) == Some(f);
      PackCons(enc, cps, f, tail);
      assert [cps[0]] + cps[1..] == cps;
    }
  }

  /** Unicode scalar values and surrogates alike take one to four bytes. */
  lemma Utf8FormOfUnicodeRange(cp: nat)
    requires cp <= 0x10FFFF
    ensures Utf8Form(cp).Some? && 1 <= |Utf8Form(cp).value| <= 4
    ensures IsHigh(cp) || IsLow(cp) ==> Utf8Form(cp).value[0] == 0xED
  {
  }
}
