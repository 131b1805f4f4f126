/**
 * Encoding one character (utf8_encode_char): pick the length exactly as
 * utf8_calc_char does, write the lead byte with its length pattern and then
 * one 10xxxxxx continuation byte per remaining 6-bit group, most significant
 * group first.
 */
module Utf8Encode {
  import opened Bytes
  import opened Utf8Format
  import opened Arith

  /** The `k` continuation bytes carrying the low 6k bits of `v`, most significant group first. */
  function Continuations(v: int, k: nat): (r: seq<byte>)
    requires v >= 0
    ensures |r| == k
    ensures forall i :: 0 <= i < k ==> IsContinuation(r[i])
  {
    if k == 0 then [] else [(0x80 + v / Pow64(k - 1) % 64) as byte] + Continuations(v, k - 1)
  }

  /**
   * Reference definition of the bytes of `codePoint`: a lead byte holding
   * the high bits above the continuation groups, then the continuation bytes.
   * Its length is CalcChar's, the lead byte carries that length's pattern and
   * every further byte is a continuation byte.
   */
  function Encoding(codePoint: int): (r: seq<byte>)
    requires 0 <= codePoint < CodePointLimit
    ensures |r| == CalcChar(codePoint).value
    ensures InLeadClass(r[0], |r|)
    ensures forall i :: 1 <= i < |r| ==> IsContinuation(r[i])
  {
    var n := CalcChar(codePoint).value;
    DivBelow(codePoint, LeadSpan(n), Pow64(n - 1));
    [(LeadBase(n) as int + codePoint / Pow64(n - 1)) as byte] + Continuations(codePoint, n - 1)
  }

  /*
   * Encoding's bytes written out for each length class as the source
   * computes them: `(cp >> 6k) & mask | pattern`. One lemma per class.
   */

  lemma EncodingFlat1(cp: int, s: seq<byte>, o: nat)
    requires 0 <= cp < 0x80 && o + 1 <= |s|
    ensures CalcChar(cp) == Ok(1)
    ensures Encoding(cp) == [(cp % 0x80) as byte]
    ensures Splice(s, o, Encoding(cp)) == s[o := ToUint8(cp % 0x80)]
  {
    assert CalcChar(cp) == Ok(1);
    assert Pow64(0) == 1;
    assert Continuations(cp, 0) == [];
  }

  lemma EncodingFlat2(cp: int, s: seq<byte>, o: nat)
    requires 0x80 <= cp < 0x800 && o + 2 <= |s|
    ensures CalcChar(cp) == Ok(2)
    ensures Encoding(cp) == [(cp / 0x40 % 0x20 + 0xC0) as byte, (cp % 0x40 + 0x80) as byte]
    ensures Splice(s, o, Encoding(cp)) ==
              s[o := ToUint8(cp / 0x40 % 0x20 + 0xC0)]
               [o + 1 := ToUint8(cp % 0x40 + 0x80)]
  {
    assert CalcChar(cp) == Ok(2);
    assert Continuations(cp, 1) == [(cp % 0x40 + 0x80) as byte];
  }

  lemma EncodingFlat3(cp: int, s: seq<byte>, o: nat)
    requires 0x800 <= cp < 0x1_0000 && o + 3 <= |s|
    ensures CalcChar(cp) == Ok(3)
    ensures Encoding(cp) == [(cp / 0x1000 % 0x10 + 0xE0) as byte, (cp / 0x40 % 0x40 + 0x80) as byte,
                             (cp % 0x40 + 0x80) as byte]
    ensures Splice(s, o, Encoding(cp)) ==
              s[o := ToUint8(cp / 0x1000 % 0x10 + 0xE0)]
               [o + 1 := ToUint8(cp / 0x40 % 0x40 + 0x80)]
               [o + 2 := ToUint8(cp % 0x40 + 0x80)]
  {
    assert CalcChar(cp) == Ok(3);
    assert Continuations(cp, 1) == [(cp % 0x40 + 0x80) as byte];
    assert Continuations(cp, 2) == [(cp / 0x40 % 0x40 + 0x80) as byte] + Continuations(cp, 1);
  }

  lemma EncodingFlat4(cp: int, s: seq<byte>, o: nat)
    requires 0x1_0000 <= cp < 0x20_0000 && o + 4 <= |s|
    ensures CalcChar(cp) == Ok(4)
    ensures Encoding(cp) == [(cp / 0x4_0000 % 0x08 + 0xF0) as byte, (cp / 0x1000 % 0x40 + 0x80) as byte,
                             (cp / 0x40 % 0x40 + 0x80) as byte, (cp % 0x40 + 0x80) as byte]
    ensures Splice(s, o, Encoding(cp)) ==
              s[o := ToUint8(cp / 0x4_0000 % 0x08 + 0xF0)]
               [o + 1 := ToUint8(cp / 0x1000 % 0x40 + 0x80)]
               [o + 2 := ToUint8(cp / 0x40 % 0x40 + 0x80)]
               [o + 3 := ToUint8(cp % 0x40 + 0x80)]
  {
    assert CalcChar(cp) == Ok(4);
    assert Continuations(cp, 1) == [(cp % 0x40 + 0x80) as byte];
    assert Continuations(cp, 2) == [(cp / 0x40 % 0x40 + 0x80) as byte] + Continuations(cp, 1);
    assert Continuations(cp, 3) == [(cp / 0x1000 % 0x40 + 0x80) as byte] + Continuations(cp, 2);
  }

  lemma EncodingFlat5(cp: int, s: seq<byte>, o: nat)
    requires 0x20_0000 <= cp < 0x400_0000 && o + 5 <= |s|
    ensures CalcChar(cp) == Ok(5)
    ensures Encoding(cp) == [(cp / 0x100_0000 % 0x04 + 0xF8) as byte, (cp / 0x4_0000 % 0x40 + 0x80) as byte,
                             (cp / 0x1000 % 0x40 + 0x80) as byte, (cp / 0x40 % 0x40 + 0x80) as byte,
                             (cp % 0x40 + 0x80) as byte]
    ensures Splice(s, o, Encoding(cp)) ==
              s[o := ToUint8(cp / 0x100_0000 % 0x04 + 0xF8)]
               [o + 1 := ToUint8(cp / 0x4_0000 % 0x40 + 0x80)]
               [o + 2 := ToUint8(cp / 0x1000 % 0x40 + 0x80)]
               [o + 3 := ToUint8(cp / 0x40 % 0x40 + 0x80)]
               [o + 4 := ToUint8(cp % 0x40 + 0x80)]
  {
    assert CalcChar(cp) == Ok(5);
    assert Continuations(cp, 1) == [(cp % 0x40 + 0x80) as byte];
    assert Continuations(cp, 2) == [(cp / 0x40 % 0x40 + 0x80) as byte] + Continuations(cp, 1);
    assert Continuations(cp, 3) == [(cp / 0x1000 % 0x40 + 0x80) as byte] + Continuations(cp, 2);
    assert Continuations(cp, 4) == [(cp / 0x4_0000 % 0x40 + 0x80) as byte] + Continuations(cp, 3);
  }

  lemma EncodingFlat6(cp: int, s: seq<byte>, o: nat)
    requires 0x400_0000 <= cp < CodePointLimit && o + 6 <= |s|
    ensures CalcChar(cp) == Ok(6)
    ensures Encoding(cp) == [(cp / 0x4000_0000 % 0x02 + 0xFC) as byte, (cp / 0x100_0000 % 0x40 + 0x80) as byte,
                             (cp / 0x4_0000 % 0x40 + 0x80) as byte, (cp / 0x1000 % 0x40 + 0x80) as byte,
                             (cp / 0x40 % 0x40 + 0x80) as byte, (cp % 0x40 + 0x80) as byte]
    ensures Splice(s, o, Encoding(cp)) ==
              s[o := ToUint8(cp / 0x4000_0000 % 0x02 + 0xFC)]
               [o + 1 := ToUint8(cp / 0x100_0000 % 0x40 + 0x80)]
               [o + 2 := ToUint8(cp / 0x4_0000 % 0x40 + 0x80)]
               [o + 3 := ToUint8(cp / 0x1000 % 0x40 + 0x80)]
               [o + 4 := ToUint8(cp / 0x40 % 0x40 + 0x80)]
               [o + 5 := ToUint8(cp % 0x40 + 0x80)]
  {
    assert CalcChar(cp) == Ok(6);
    assert Pow64(5) == 0x4000_0000;
    assert Continuations(cp, 1) == [(cp % 0x40 + 0x80) as byte];
    assert Continuations(cp, 2) == [(cp / 0x40 % 0x40 + 0x80) as byte] + Continuations(cp, 1);
    assert Continuations(cp, 3) == [(cp / 0x1000 % 0x40 + 0x80) as byte] + Continuations(cp, 2);
    assert Continuations(cp, 4) == [(cp / 0x4_0000 % 0x40 + 0x80) as byte] + Continuations(cp, 3);
    assert Continuations(cp, 5) == [(cp / 0x100_0000 % 0x40 + 0x80) as byte] + Continuations(cp, 4);
  }

  /**
   * utf8_encode_char: rejects a negative code point at once, otherwise
   * writes the bytes of the first length class that holds it, advancing a
   * local cursor, and returns the number of bytes written; a code point not
   * below CodePointLimit falls through every class and is rejected without
   * a write. Only positions [offset, offset + length) change.
   */
  method EncodeChar(codePoint: int, bb: ByteBuffer, offset: nat) returns (r: Result<int>)
    requires 0 <= codePoint < CodePointLimit ==> offset + CalcChar(codePoint).value <= bb.view.Length
    modifies bb.view
    ensures r.Ok? <==> 0 <= codePoint < CodePointLimit
    ensures r.Err? ==> r.error == IllegalCodePoint(codePoint) && bb.view[..] == old(bb.view[..])
    ensures r.Ok? ==> r.value == CalcChar(codePoint).value
    ensures r.Ok? ==> bb.view[..] == Splice(old(bb.view[..]), offset, Encoding(codePoint))
  {
    var start := offset;
    var pos := offset;
    if codePoint < 0 {
      return Err(IllegalCodePoint(codePoint));
    }
    if codePoint < 0x80 {
      EncodingFlat1(codePoint, bb.view[..], pos);
      bb.SetUint8(pos, codePoint % 0x80);
      pos := pos + 1;
      return Ok(pos - start);
    } else if codePoint < 0x800 {
      EncodingFlat2(codePoint, bb.view[..], pos);
      bb.SetUint8(pos, codePoint / 0x40 % 0x20 + 0xC0);
      pos := pos + 1;
      bb.SetUint8(pos, codePoint % 0x40 + 0x80);
      pos := pos + 1;
      return Ok(pos - start);
    } else if codePoint < 0x1_0000 {
      EncodingFlat3(codePoint, bb.view[..], pos);
      bb.SetUint8(pos, codePoint / 0x1000 % 0x10 + 0xE0);
      pos := pos + 1;
      bb.SetUint8(pos, codePoint / 0x40 % 0x40 + 0x80);
      pos := pos + 1;
      bb.SetUint8(pos, codePoint % 0x40 + 0x80);
      pos := pos + 1;
      return Ok(pos - start);
    } else if codePoint < 0x20_0000 {
      EncodingFlat4(codePoint, bb.view[..], pos);
      bb.SetUint8(pos, codePoint / 0x4_0000 % 0x08 + 0xF0);
      pos := pos + 1;
      bb.SetUint8(pos, codePoint / 0x1000 % 0x40 + 0x80);
      pos := pos + 1;
      bb.SetUint8(pos, codePoint / 0x40 % 0x40 + 0x80);
      pos := pos + 1;
      bb.SetUint8(pos, codePoint % 0x40 + 0x80);
      pos := pos + 1;
      return Ok(pos - start);
    } else if codePoint < 0x400_0000 {
      EncodingFlat5(codePoint, bb.view[..], pos);
      bb.SetUint8(pos, codePoint / 0x100_0000 % 0x04 + 0xF8);
      pos := pos + 1;
      bb.SetUint8(pos, codePoint / 0x4_0000 % 0x40 + 0x80);
      pos := pos + 1;
      bb.SetUint8(pos, codePoint / 0x1000 % 0x40 + 0x80);
      pos := pos + 1;
      bb.SetUint8(pos, codePoint / 0x40 % 0x40 + 0x80);
      pos := pos + 1;
      bb.SetUint8(pos, codePoint % 0x40 + 0x80);
      pos := pos + 1;
      return Ok(pos - start);
    } else if codePoint < 0x8000_0000 {
      EncodingFlat6(codePoint, bb.view[..], pos);
      bb.SetUint8(pos, codePoint / 0x4000_0000 % 0x02 + 0xFC);
      pos := pos + 1;
      bb.SetUint8(pos, codePoint / 0x100_0000 % 0x40 + 0x80);
      pos := pos + 1;
      bb.SetUint8(pos, codePoint / 0x4_0000 % 0x40 + 0x80);
      pos := pos + 1;
      bb.SetUint8(pos, codePoint / 0x1000 % 0x40 + 0x80);
      pos := pos + 1;
      bb.SetUint8(pos, codePoint / 0x40 % 0x40 + 0x80);
      pos := pos + 1;
      bb.SetUint8(pos, codePoint % 0x40 + 0x80);
      pos := pos + 1;
      return Ok(pos - start);
    } else {
      return Err(IllegalCodePoint(codePoint));
    }
  }
}
