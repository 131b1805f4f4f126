/**
 * The encoded length of a string (utf8_calc_string). A string is a sequence
 * of UTF-16 code units; the loop reads one code point at each index with
 * codePointAt (the CodePointAt operation of section 11.1.4 of ECMA-262),
 * adds the byte count CalcChar gives for it, and advances the index by one
 * unit for a code point below 0xFFFF and by two units otherwise.
 *
 * The threshold 0xFFFF sits one below the first supplementary code point
 * 0x10000, so a U+FFFF unit also advances by two and the unit after it is
 * never visited. Scan takes the threshold as a parameter: Visited uses the
 * source's 0xFFFF, IntendedVisited the 0x10000 that matches codePointAt.
 */
module Utf16String {
  import opened Bytes
  import opened Utf8Format
  import opened Utf8Encode

  /** A UTF-16 code unit. */
  newtype uint16 = x: int | 0 <= x < 0x1_0000

  /** One past the largest Unicode code point. */
  const UnicodeLimit: int := 0x11_0000

  /** The first code point that UTF-16 writes as a surrogate pair. */
  const SupplementaryStart: int := 0x1_0000

  predicate IsLeadSurrogate(u: int) { 0xD800 <= u < 0xDC00 }

  predicate IsTrailSurrogate(u: int) { 0xDC00 <= u < 0xE000 }

  /** A Unicode scalar value: a code point that is not a surrogate. */
  predicate IsScalar(cp: int) { 0 <= cp < UnicodeLimit && !IsLeadSurrogate(cp) && !IsTrailSurrogate(cp) }

  /**
   * codePointAt: a lead surrogate followed by a trail surrogate combine into
   * one supplementary code point; any other unit, including an unpaired
   * surrogate, is returned as it is.
   */
  function CodePointAt(str: seq<uint16>, i: nat): (r: int)
    requires i < |str|
    ensures 0 <= r < UnicodeLimit
    ensures r < SupplementaryStart <==> r == str[i] as int
    ensures r >= SupplementaryStart <==>
              i + 1 < |str| && IsLeadSurrogate(str[i] as int) && IsTrailSurrogate(str[i + 1] as int)
  {
    var first := str[i] as int;
    if !IsLeadSurrogate(first) || i + 1 == |str| then first
    else
      var second := str[i + 1] as int;
      if !IsTrailSurrogate(second) then first
      else (first - 0xD800) * 0x400 + (second - 0xDC00) + SupplementaryStart
  }

  /** The units codePointAt advances past for a code point when the loop switches to two at `limit`. */
  function Step(cp: int, limit: int): (r: nat)
  {
    if cp < limit then 1 else 2
  }

  /**
   * The code points the loop of utf8_calc_string visits from index `i` when
   * it advances by two units for every code point not below `limit`.
   */
  function Scan(str: seq<uint16>, i: nat, limit: int): (r: seq<int>)
    ensures forall k :: 0 <= k < |r| ==> 0 <= r[k] < UnicodeLimit
    ensures i <= |str| ==> |r| <= |str| - i
    decreases |str| - i
  {
    if i >= |str| then []
    else
      var cp := CodePointAt(str, i);
      [cp] + Scan(str, i + Step(cp, limit), limit)
  }

  /** The code points utf8_calc_string visits, with the source's threshold 0xFFFF. */
  function Visited(str: seq<uint16>): (r: seq<int>)
  {
    Scan(str, 0, 0xFFFF)
  }

  /** The code points of the string as codePointAt reads them, advancing by two exactly after a pair. */
  function IntendedVisited(str: seq<uint16>): (r: seq<int>)
  {
    Scan(str, 0, SupplementaryStart)
  }

  predicate AllLegal(cps: seq<int>)
  {
    forall k :: 0 <= k < |cps| ==> 0 <= cps[k] < CodePointLimit
  }

  /** The sum of CalcChar over a sequence of code points. */
  function EncodedLength(cps: seq<int>): (r: nat)
    requires AllLegal(cps)
    ensures |cps| <= r <= 6 * |cps|
  {
    if cps == [] then 0 else CalcChar(cps[0]).value + EncodedLength(cps[1..])
  }

  /** The bytes of a sequence of code points encoded one after another. */
  function EncodeAll(cps: seq<int>): (r: seq<byte>)
    requires AllLegal(cps)
  {
    if cps == [] then [] else Encoding(cps[0]) + EncodeAll(cps[1..])
  }

  /** The summed length is exactly the size of the concatenated encodings. */
  lemma {:induction false} EncodedLengthIsSize(cps: seq<int>)
    requires AllLegal(cps)
    ensures |EncodeAll(cps)| == EncodedLength(cps)
  {
    if cps != [] {
      EncodedLengthIsSize(cps[1..]);
    }
  }

  /**
   * utf8_calc_string: a loop over the string's indices; `i` can end one past
   * the length when the last unit is U+FFFF.
   */
  method CalcString(str: seq<uint16>) returns (n: int)
    ensures n == EncodedLength(Visited(str))
  {
    var i: nat := 0;
    n := 0;
    while i < |str|
      invariant i <= |str| + 1
      invariant n + EncodedLength(Scan(str, i, 0xFFFF)) == EncodedLength(Visited(str))
      decreases |str| - i
    {
      var cp := CodePointAt(str, i);
      n := n + CalcChar(cp).value;
      i := i + if cp < 0xFFFF then 1 else 2;
    }
  }

  /** codePointAt at an index depends only on the units from that index on. */
  lemma CodePointAtShift(a: seq<uint16>, b: seq<uint16>, j: nat)
    requires j < |b|
    ensures CodePointAt(a + b, |a| + j) == CodePointAt(b, j)
  {
    assert (a + b)[|a| + j] == b[j];
    if j + 1 < |b| {
      assert (a + b)[|a| + j + 1] == b[j + 1];
    }
  }

  /** Scanning past a prefix is scanning what follows it. */
  lemma {:induction false} ScanShift(a: seq<uint16>, b: seq<uint16>, j: nat, limit: int)
    ensures Scan(a + b, |a| + j, limit) == Scan(b, j, limit)
    decreases |b| - j
  {
    if j < |b| {
      CodePointAtShift(a, b, j);
      ScanShift(a, b, j + Step(CodePointAt(b, j), limit), limit);
    }
  }

  /** UTF-16 code units of one scalar value: one unit, or a lead and a trail surrogate. */
  function Utf16Char(cp: int): (r: seq<uint16>)
    requires IsScalar(cp)
    ensures |r| == (if cp < SupplementaryStart then 1 else 2)
  {
    if cp < SupplementaryStart then [cp as uint16]
    else [(0xD800 + (cp - SupplementaryStart) / 0x400) as uint16,
          (0xDC00 + (cp - SupplementaryStart) % 0x400) as uint16]
  }

  predicate AllScalar(cps: seq<int>)
  {
    forall k :: 0 <= k < |cps| ==> IsScalar(cps[k])
  }

  /** The UTF-16 string of a sequence of scalar values. */
  function Utf16(cps: seq<int>): (r: seq<uint16>)
    requires AllScalar(cps)
  {
    if cps == [] then [] else Utf16Char(cps[0]) + Utf16(cps[1..])
  }

  /** codePointAt reads back the scalar value at the start of its UTF-16 form, whatever follows. */
  lemma CodePointAtUtf16Char(cp: int, rest: seq<uint16>)
    requires IsScalar(cp)
    ensures CodePointAt(Utf16Char(cp) + rest, 0) == cp
  {
    var u := Utf16Char(cp) + rest;
    if cp >= SupplementaryStart {
      assert u[0] == Utf16Char(cp)[0] && u[1] == Utf16Char(cp)[1];
    }
  }

  /**
   * Scanning the UTF-16 form of scalar values gives them back, for any
   * threshold that agrees with 0x10000 on each of them.
   */
  lemma {:induction false} ScanUtf16(cps: seq<int>, limit: int)
    requires AllScalar(cps)
    requires forall k :: 0 <= k < |cps| ==> (cps[k] < limit <==> cps[k] < SupplementaryStart)
    ensures Scan(Utf16(cps), 0, limit) == cps
  {
    if cps != [] {
      var u := Utf16Char(cps[0]);
      var rest := Utf16(cps[1..]);
      CodePointAtUtf16Char(cps[0], rest);
      assert Step(cps[0], limit) == |u|;
      ScanShift(u, rest, 0, limit);
      ScanUtf16(cps[1..], limit);
    }
  }

  /** With the intended threshold every string of scalar values is read back exactly. */
  lemma IntendedVisitedUtf16(cps: seq<int>)
    requires AllScalar(cps)
    ensures IntendedVisited(Utf16(cps)) == cps
  {
    ScanUtf16(cps, SupplementaryStart);
  }

  /** As written, the loop reads every string of scalar values back exactly when none of them is U+FFFF. */
  lemma VisitedUtf16(cps: seq<int>)
    requires AllScalar(cps)
    requires forall k :: 0 <= k < |cps| ==> cps[k] != 0xFFFF
    ensures Visited(Utf16(cps)) == cps
  {
    ScanUtf16(cps, 0xFFFF);
  }

  /** On a string without a U+FFFF unit, well-formed or not, the two thresholds visit the same code points. */
  lemma {:induction false} ScanAgree(str: seq<uint16>, i: nat)
    requires forall k :: 0 <= k < |str| ==> str[k] != 0xFFFF
    ensures Scan(str, i, 0xFFFF) == Scan(str, i, SupplementaryStart)
    decreases |str| - i
  {
    if i < |str| {
      var cp := CodePointAt(str, i);
      assert cp != 0xFFFF;
      ScanAgree(str, i + Step(cp, 0xFFFF));
    }
  }

  /** So utf8_calc_string gives the size of the encoder's output for such a string. */
  lemma CalcStringIsEncodedSize(cps: seq<int>)
    requires AllScalar(cps)
    requires forall k :: 0 <= k < |cps| ==> cps[k] != 0xFFFF
    ensures AllLegal(cps) && EncodedLength(Visited(Utf16(cps))) == |EncodeAll(cps)|
  {
    VisitedUtf16(cps);
    EncodedLengthIsSize(cps);
  }

  /** With the intended threshold the summed length is the size of the encoder's output for every string of scalar values. */
  lemma IntendedLengthIsEncodedSize(cps: seq<int>)
    requires AllScalar(cps)
    ensures AllLegal(cps) && EncodedLength(IntendedVisited(Utf16(cps))) == |EncodeAll(cps)|
  {
    IntendedVisitedUtf16(cps);
    EncodedLengthIsSize(cps);
  }

  /** Every unit of an all-ASCII string is one code point of one byte. */
  lemma {:induction false} AsciiLength(str: seq<uint16>, i: nat)
    requires forall k :: 0 <= k < |str| ==> str[k] < 0x80
    requires i <= |str|
    ensures EncodedLength(Scan(str, i, 0xFFFF)) == |str| - i
    decreases |str| - i
  {
    if i < |str| {
      AsciiLength(str, i + 1);
    }
  }

  /** "AB" needs two bytes and the surrogate pair of U+1F600 needs four. */
  lemma CalcStringExamples()
    ensures EncodedLength(Visited([0x41, 0x42])) == 2
    ensures Visited([0xD83D, 0xDE00]) == [0x1_F600]
    ensures EncodedLength(Visited([0xD83D, 0xDE00])) == 4
  {
    AsciiLength([0x41, 0x42], 0);
    assert Scan([0xD83D, 0xDE00], 2, 0xFFFF) == [];
  }

  /**
   * A U+FFFF unit makes the loop skip the unit after it: for U+FFFF followed
   * by "A" it visits U+FFFF alone and counts 3 bytes, where the two code
   * points need 4.
   */
  lemma FfffSkipsNextUnit()
    ensures Visited([0xFFFF, 0x41]) == [0xFFFF]
    ensures EncodedLength(Visited([0xFFFF, 0x41])) == 3
    ensures IntendedVisited([0xFFFF, 0x41]) == [0xFFFF, 0x41]
    ensures EncodedLength(IntendedVisited([0xFFFF, 0x41])) == 4
  {
    assert Scan([0xFFFF, 0x41], 2, 0xFFFF) == [];
    assert Scan([0xFFFF, 0x41], 2, SupplementaryStart) == [];
  }
}
