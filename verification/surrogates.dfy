/**
 * Stage 2 of string decoding: merging UTF-16 surrogate pairs among the
 * code-point candidates produced by stage 1 (section 2.2 of RFC 2781), and
 * the opposite direction, splitting a code point into UTF-16 code units
 * (section 2.1 of RFC 2781), which serves as the partner that shows the
 * merge loses nothing.
 */
module Surrogates {
  import opened Base

  predicate IsHigh(c: int) { 0xD800 <= c <= 0xDBFF }
  predicate IsLow(c: int) { 0xDC00 <= c <= 0xDFFF }

  /** A code point outside the Basic Multilingual Plane that UTF-16 writes as a pair. */
  predicate IsSupplementary(c: int) { 0x10000 <= c <= 0x10FFFF }

  /** The code point a surrogate pair stands for (section 2.2 of RFC 2781). */
  function Combine(hi: nat, lo: nat): (cp: nat)
    requires IsHigh(hi) && IsLow(lo)
    ensures IsSupplementary(cp)
  {
    0x10000 + (hi - 0xD800) * 0x400 + (lo - 0xDC00)
  }

  /** The high half of the pair that encodes a supplementary code point. */
  function HighHalf(cp: nat): (hi: nat)
    requires IsSupplementary(cp)
    ensures IsHigh(hi)
  {
    0xD800 + (cp - 0x10000) / 0x400
  }

  /** The low half of the pair that encodes a supplementary code point. */
  function LowHalf(cp: nat): (lo: nat)
    requires IsSupplementary(cp)
    ensures IsLow(lo)
  {
    0xDC00 + (cp - 0x10000) % 0x400
  }

  /** Splitting and combining are inverse to each other, in both directions. */
  lemma CombineSplit(cp: nat)
    requires IsSupplementary(cp)
    ensures Combine(HighHalf(cp), LowHalf(cp)) == cp
  {
  }

  lemma SplitCombine(hi: nat, lo: nat)
    requires IsHigh(hi) && IsLow(lo)
    ensures HighHalf(Combine(hi, lo)) == hi && LowHalf(Combine(hi, lo)) == lo
  {
  }

  /**
   * The specification of stage 2: a high surrogate immediately followed by a
   * low surrogate becomes one code point; every other candidate, a lone
   * surrogate included, passes through unchanged and in order.
   */
  function Coalesce(s: seq<nat>): seq<nat>
    decreases |s|
  {
    if |s| == 0 then []
    else if |s| >= 2 && IsHigh(s[0]) && IsLow(s[1]) then [Combine(s[0], s[1])] + Coalesce(s[2..])
    else [s[0]] + Coalesce(s[1..])
  }

  /** What remains to be emitted while the walk holds `pending` and has `rest` left to read. */
  function Remaining(pending: Option<nat>, rest: seq<nat>): seq<nat>
  {
    match pending
    case None => Coalesce(rest)
    case Some(b) => Coalesce([b] + rest)
  }

  /**
   * The walk of stage 2: one pending slot, flushed unchanged unless it is a
   * high surrogate and the next candidate is a low one, in which case both
   * are consumed as one merged code point; a leftover pending candidate is
   * flushed at the end.
   */
  method CoalesceSurrogates(s: seq<nat>) returns (r: seq<nat>)
    ensures r == Coalesce(s)
  {
    var pending: Option<nat> := None;
    r := [];
    var k := 0;
    while k < |s|
      invariant 0 <= k <= |s|
      invariant r + Remaining(pending, s[k..]) == Coalesce(s)
    {
      var c := s[k];
      RemainingStep(r, pending, s, k);
      match pending {
        case None =>
          pending := Some(c);
        case Some(b) =>
          if IsHigh(b) && IsLow(c) {
            r := r + [Combine(b, c)];
            pending := None;
          } else {
            r := r + [b];
            pending := Some(c);
          }
      }
      k := k + 1;
    }
    assert s[k..] == [];
    if pending.Some? {
      assert Coalesce([pending.value]) == [pending.value];
      r := r + [pending.value];
    }
  }

  /** How one step of the walk rewrites what remains to be emitted. */
  lemma RemainingStep(r: seq<nat>, pending: Option<nat>, s: seq<nat>, k: nat)
    requires k < |s|
    ensures pending.None? ==> r + Remaining(pending, s[k..]) == r + Remaining(Some(s[k]), s[k + 1..])
    ensures pending.Some? && IsHigh(pending.value) && IsLow(s[k]) ==>
      r + Remaining(pending, s[k..]) == (r + [Combine(pending.value, s[k])]) + Remaining(None, s[k + 1..])
    ensures pending.Some? && !(IsHigh(pending.value) && IsLow(s[k])) ==>
      r + Remaining(pending, s[k..]) == (r + [pending.value]) + Remaining(Some(s[k]), s[k + 1..])
  {
    var c := s[k];
    var rest := s[k + 1..];
    assert s[k..] == [c] + rest;
    if pending.Some? {
      var b := pending.value;
      var t := [b, c] + rest;
      assert [b] + s[k..] == t;
      assert t[1..] == [c] + rest;
      assert t[2..] == rest;
      if IsHigh(b) && IsLow(c) {
        assert Coalesce(t) == [Combine(b, c)] + Coalesce(rest);
      } else {
        assert Coalesce(t) == [b] + Coalesce([c] + rest);
      }
    }
  }

  /** UTF-16 code units of a sequence of code points (section 2.1 of RFC 2781). */
  function Utf16Units(cps: seq<nat>): seq<nat>
  {
    if |cps| == 0 then []
    else
      var head := if IsSupplementary(cps[0]) then [HighHalf(cps[0]), LowHalf(cps[0])] else [cps[0]];
      head + Utf16Units(cps[1..])
  }

  /** How many code points of `cps` lie outside the Basic Multilingual Plane. */
  function SupplementaryCount(cps: seq<nat>): nat
  {
    if |cps| == 0 then 0
    else (if IsSupplementary(cps[0]) then 1 else 0) + SupplementaryCount(cps[1..])
  }

  predicate AllBmp(s: seq<nat>) { forall i :: 0 <= i < |s| ==> s[i] <= 0xFFFF }

  lemma {:induction false} Utf16UnitsAppend(a: seq<nat>, b: seq<nat>)
    ensures Utf16Units(a + b) == Utf16Units(a) + Utf16Units(b)
    decreases |a|
  {
    if |a| == 0 {
      assert a + b == b;
    } else {
      assert (a + b)[1..] == a[1..] + b;
      Utf16UnitsAppend(a[1..], b);
    }
  }

  /** Candidates that are all 16-bit values are their own UTF-16 code units. */
  lemma {:induction false} Utf16UnitsOfBmp(s: seq<nat>)
    requires AllBmp(s)
    ensures Utf16Units(s) == s
    decreases |s|
  {
    if |s| > 0 {
      Utf16UnitsOfBmp(s[1..]);
    }
  }

  /**
   * Coalescing only rewrites pairs into the code point they encode: splitting
   * the result back into UTF-16 code units gives what splitting the input gives.
   */
  lemma {:induction false} CoalescePreservesUnits(s: seq<nat>)
    ensures Utf16Units(Coalesce(s)) == Utf16Units(s)
    decreases |s|
  {
    if |s| == 0 {
    } else if |s| >= 2 && IsHigh(s[0]) && IsLow(s[1]) {
      var cp := Combine(s[0], s[1]);
      SplitCombine(s[0], s[1]);
      CoalescePreservesUnits(s[2..]);
      Utf16UnitsAppend([cp], Coalesce(s[2..]));
      assert s == [s[0], s[1]] + s[2..];
      Utf16UnitsAppend([s[0], s[1]], s[2..]);
      assert Utf16Units([s[0], s[1]]) == [s[0], s[1]] by {
        assert [s[0], s[1]][1..] == [s[1]];
      }
    } else {
      CoalescePreservesUnits(s[1..]);
      Utf16UnitsAppend([s[0]], Coalesce(s[1..]));
      assert s == [s[0]] + s[1..];
      Utf16UnitsAppend([s[0]], s[1..]);
    }
  }

  /**
   * Coalescing 16-bit candidates is lossless: the merged sequence splits back
   * into exactly the candidates it came from.
   */
  lemma CoalesceIsLossless(s: seq<nat>)
    requires AllBmp(s)
    ensures Utf16Units(Coalesce(s)) == s
  {
    CoalescePreservesUnits(s);
    Utf16UnitsOfBmp(s);
  }

  /** Each supplementary code point takes two code units, every other one takes one. */
  lemma {:induction false} Utf16UnitsLength(cps: seq<nat>)
    ensures |Utf16Units(cps)| == |cps| + SupplementaryCount(cps)
    decreases |cps|
  {
    if |cps| > 0 {
      Utf16UnitsLength(cps[1..]);
    }
  }

  /** How many high-then-low pairs stage 2 merges, read from left to right. */
  function Merges(s: seq<nat>): nat
    decreases |s|
  {
    if |s| == 0 then 0
    else if |s| >= 2 && IsHigh(s[0]) && IsLow(s[1]) then 1 + Merges(s[2..])
    else Merges(s[1..])
  }

  /**
   * Output length is input length minus the number of merged pairs, and at
   * most half of the input can be merged away.
   */
  lemma {:induction false} CoalesceLength(s: seq<nat>)
    ensures |Coalesce(s)| == |s| - Merges(s)
    ensures 2 * Merges(s) <= |s|
    decreases |s|
  {
    if |s| >= 2 && IsHigh(s[0]) && IsLow(s[1]) {
      CoalesceLength(s[2..]);
    } else if |s| > 0 {
      CoalesceLength(s[1..]);
    }
  }

  /**
   * On 16-bit candidates the merged pairs are exactly the supplementary code
   * points of the output.
   */
  lemma MergesOfBmp(s: seq<nat>)
    requires AllBmp(s)
    ensures Merges(s) == SupplementaryCount(Coalesce(s))
  {
    CoalesceIsLossless(s);
    Utf16UnitsLength(Coalesce(s));
    CoalesceLength(s);
  }

  /** Without a high surrogate nothing can be merged, so coalescing is the identity. */
  lemma {:induction false} CoalesceWithoutHighIsIdentity(s: seq<nat>)
    requires forall i :: 0 <= i < |s| ==> !IsHigh(s[i])
    ensures Coalesce(s) == s
    decreases |s|
  {
    if |s| > 0 {
      CoalesceWithoutHighIsIdentity(s[1..]);
    }
  }

  /** Code points that are Unicode scalar values contain no surrogate halves. */
  predicate AllScalar(cps: seq<nat>)
  {
    forall i :: 0 <= i < |cps| ==> cps[i] <= 0x10FFFF && !IsHigh(cps[i]) && !IsLow(cps[i])
  }

  /**
   * The other direction of the round trip: writing Unicode scalar values as
   * UTF-16 code units and coalescing gives the scalar values back.
   */
  lemma {:induction false} CoalesceInvertsUtf16Units(cps: seq<nat>)
    requires AllScalar(cps)
    ensures Coalesce(Utf16Units(cps)) == cps
    decreases |cps|
  {
    if |cps| > 0 {
      var c := cps[0];
      CoalesceInvertsUtf16Units(cps[1..]);
      var tail := Utf16Units(cps[1..]);
      if IsSupplementary(c) {
        CombineSplit(c);
        var u := [HighHalf(c), LowHalf(c)] + tail;
        assert u[2..] == tail;
      } else {
        var u := [c] + tail;
        assert u[1..] == tail;
      }
    }
  }

  /** A pair of escapes for U+1F600 merges into that single code point. */
  lemma PairExample()
    ensures Coalesce([0xD83D, 0xDE00]) == [0x1F600]
  {
    assert [0xD83D, 0xDE00][2..] == [];
  }

  /** A lone high surrogate is passed through, not rejected. */
  lemma LoneSurrogateExample()
    ensures Coalesce([0xD800, 0x41]) == [0xD800, 0x41]
  {
    CoalesceWithoutHighIsIdentity([0x41]);
  }
}
