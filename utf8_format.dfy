/**
 * The byte grammar shared by the decoder, the encoder and the length
 * calculators: the extended (six-byte) UTF-8 form of section 2 of RFC 2279,
 * covering code points 0 .. 0x7FFFFFFF.
 *
 *   length  lead pattern  lead range    payload bits   code points
 *     1     0xxxxxxx      0x00..0x7F    7              [0, 0x80)
 *     2     110xxxxx      0xC0..0xDF    5 (+ 6)        [0x80, 0x800)
 *     3     1110xxxx      0xE0..0xEF    4 (+ 12)       [0x800, 0x10000)
 *     4     11110xxx      0xF0..0xF7    3 (+ 18)       [0x10000, 0x200000)
 *     5     111110xx      0xF8..0xFB    2 (+ 24)       [0x200000, 0x4000000)
 *     6     1111110x      0xFC..0xFD    1 (+ 30)       [0x4000000, 0x80000000)
 *
 * Every continuation byte the encoder writes has the form 10xxxxxx.
 */
module Utf8Format {
  import opened Bytes

  /** One past the largest code point the format can carry. */
  const CodePointLimit: int := 0x8000_0000

  /** The failures of the codec, in place of the source's thrown RangeErrors. */
  datatype CodecError =
    | OutOfRange(offset: int, needed: nat)      // fewer than `needed` bytes left at `offset`
    | InvalidLead(offset: int, lead: byte)      // a lead byte matching none of the six patterns
    | IllegalCodePoint(codePoint: int)          // negative, or not below CodePointLimit

  datatype Result<T> = Ok(value: T) | Err(error: CodecError)

  datatype Option<T> = None | Some(value: T)

  /** What a successful decode returns: the code point and the bytes consumed. */
  datatype Decoded = Decoded(codePoint: int, length: nat)

  predicate IsLength(n: int) { 1 <= n <= 6 }

  /** Smallest lead byte of a sequence of length `n`: n leading ones then a zero (length 1: a leading zero). */
  function LeadBase(n: int): (r: byte)
    requires IsLength(n)
  {
    [0x00, 0xC0, 0xE0, 0xF0, 0xF8, 0xFC][n - 1]
  }

  /** Number of distinct lead bytes of length `n`, that is 2 to the number of payload bits in the lead. */
  function LeadSpan(n: int): (r: nat)
    requires IsLength(n)
  {
    [0x80, 0x20, 0x10, 0x08, 0x04, 0x02][n - 1]
  }

  /** Whether `a` is a lead byte that announces a sequence of `n` bytes. */
  predicate InLeadClass(a: byte, n: int)
    requires IsLength(n)
  {
    LeadBase(n) as int <= a as int < LeadBase(n) as int + LeadSpan(n)
  }

  /** A byte of the form 10xxxxxx. */
  predicate IsContinuation(b: byte) { 0x80 <= b < 0xC0 }

  /** The sequence length a lead byte announces, or None for 0x80..0xBF and 0xFE..0xFF. */
  function LeadLength(a: byte): (r: Option<int>)
    ensures r.Some? ==> IsLength(r.value) && InLeadClass(a, r.value)
    ensures forall n :: IsLength(n) && InLeadClass(a, n) ==> r == Some(n)
    ensures r.None? <==> (0x80 <= a < 0xC0 || 0xFE <= a)
  {
    if a < 0x80 then Some(1)
    else if a < 0xC0 then None
    else if a < 0xE0 then Some(2)
    else if a < 0xF0 then Some(3)
    else if a < 0xF8 then Some(4)
    else if a < 0xFC then Some(5)
    else if a < 0xFE then Some(6)
    else None
  }

  function Pow64(k: nat): (r: nat)
    ensures r >= 1
  {
    if k == 0 then 1 else 64 * Pow64(k - 1)
  }

  /**
   * Number of code points a sequence of `n` bytes can carry: the lead byte's
   * payload values times 64 for each continuation byte.
   */
  function Capacity(n: int): (r: nat)
    requires IsLength(n)
  {
    LeadSpan(n) * Pow64(n - 1)
  }

  lemma CapacityValues()
    ensures Capacity(1) == 0x80 && Capacity(2) == 0x800 && Capacity(3) == 0x1_0000
    ensures Capacity(4) == 0x20_0000 && Capacity(5) == 0x400_0000 && Capacity(6) == CodePointLimit
  {
    assert Pow64(5) == 0x4000_0000;
  }

  /**
   * The number of bytes the encoder uses for `codePoint` (utf8_calc_char):
   * the shortest length whose capacity holds it, or IllegalCodePoint when
   * `codePoint` is negative or not below CodePointLimit.
   */
  function CalcChar(codePoint: int): (r: Result<int>)
    ensures r.Ok? <==> 0 <= codePoint < CodePointLimit
    ensures r.Err? ==> r.error == IllegalCodePoint(codePoint)
    ensures r.Ok? ==> IsLength(r.value) && codePoint < Capacity(r.value)
    ensures r.Ok? && r.value > 1 ==> Capacity(r.value - 1) <= codePoint
  {
    CapacityValues();
    if codePoint < 0 then Err(IllegalCodePoint(codePoint))
    else if codePoint < 0x80 then Ok(1)
    else if codePoint < 0x800 then Ok(2)
    else if codePoint < 0x1_0000 then Ok(3)
    else if codePoint < 0x20_0000 then Ok(4)
    else if codePoint < 0x400_0000 then Ok(5)
    else if codePoint < 0x8000_0000 then Ok(6)
    else Err(IllegalCodePoint(codePoint))
  }

  /** Any length that can hold `codePoint` is at least the one CalcChar picks. */
  lemma CalcCharIsShortest(codePoint: int, n: int)
    requires 0 <= codePoint && IsLength(n) && codePoint < Capacity(n)
    ensures CalcChar(codePoint).Ok? && CalcChar(codePoint).value <= n
  {
    CapacityValues();
  }

  /** The threshold table: each length class is exactly one half-open range of code points. */
  lemma CalcCharRanges(codePoint: int, n: int)
    requires IsLength(n)
    ensures CalcChar(codePoint) == Ok(n) <==>
              (if n == 1 then 0 else Capacity(n - 1)) <= codePoint < Capacity(n)
  {
    CapacityValues();
  }
}
