/**
 * Decoding one character (utf8_decode_char): classify the lead byte, check
 * that the announced continuation bytes are inside the buffer, and assemble
 * the code point from the lead byte's payload and 6 bits per continuation
 * byte, most significant first.
 *
 * Continuation bytes are not checked for the 10xxxxxx form (only their low
 * 6 bits are used) and overlong forms are accepted.
 */
module Utf8Decode {
  import opened Bytes
  import opened Utf8Format

  /** Appends the low 6 bits of each byte of `tail` to `acc`, most significant first. */
  function Assemble(acc: int, tail: seq<byte>): (r: int)
    decreases |tail|
  {
    if tail == [] then acc else Assemble(acc * 64 + tail[0] as int % 64, tail[1..])
  }

  /** One step of Assemble on a window of a byte sequence. */
  lemma AssembleFrom(acc: int, s: seq<byte>, i: nat, j: nat)
    requires i < j <= |s|
    ensures Assemble(acc, s[i..j]) == Assemble(acc * 64 + s[i] as int % 64, s[i + 1..j])
  {
    assert s[i..j][1..] == s[i + 1..j];
  }

  /**
   * Reference definition of decoding the character that starts at `offset`
   * in `s`. An out-of-range error names the position it was checking from
   * and how many bytes it still needed; an invalid lead byte is reported at
   * the position after it, as the source's cursor has already moved there.
   */
  function Decode(s: seq<byte>, offset: nat): (r: Result<Decoded>)
    ensures r.Err? && r.error.InvalidLead? <==>
              offset < |s| && (0x80 <= s[offset] < 0xC0 || 0xFE <= s[offset])
    ensures r.Err? && r.error.OutOfRange? <==>
              offset >= |s| || (LeadLength(s[offset]).Some? && offset + LeadLength(s[offset]).value > |s|)
    ensures r.Ok? ==> LeadLength(s[offset]) == Some(r.value.length) && offset + r.value.length <= |s|
  {
    if offset + 1 > |s| then Err(OutOfRange(offset, 1))
    else
      var a := s[offset];
      match LeadLength(a)
      case None => Err(InvalidLead(offset + 1, a))
      case Some(n) =>
        if offset + n > |s| then Err(OutOfRange(offset + 1, n - 1))
        else Ok(Decoded(Assemble(a as int - LeadBase(n) as int, s[offset + 1 .. offset + n]), n))
  }

  /** Decode's result once the lead byte's class and the assembled value are known. */
  lemma DecodeOk(s: seq<byte>, offset: nat, n: int, value: int)
    requires offset < |s| && LeadLength(s[offset]) == Some(n) && offset + n <= |s|
    requires Assemble(s[offset] as int - LeadBase(n) as int, s[offset + 1..offset + n]) ==
             Assemble(value, s[offset + n..offset + n])
    ensures Decode(s, offset) == Ok(Decoded(value, n))
  {
    assert s[offset + n..offset + n] == [];
  }

  /*
   * Decode's value written out for each length class as the source spells
   * it: the lead byte's payload and each continuation byte's low 6 bits
   * shifted into place. One lemma per class keeps each proof small.
   */

  lemma DecodeFlat2(s: seq<byte>, o: nat)
    requires o + 2 <= |s| && 0xC0 <= s[o] < 0xE0
    ensures Decode(s, o) == Ok(Decoded(s[o] as int % 0x20 * 0x40 + s[o + 1] as int % 0x40, 2))
  {
    AssembleFrom(s[o] as int - 0xC0, s, o + 1, o + 2);
    DecodeOk(s, o, 2, s[o] as int % 0x20 * 0x40 + s[o + 1] as int % 0x40);
  }

  lemma DecodeFlat3(s: seq<byte>, o: nat)
    requires o + 3 <= |s| && 0xE0 <= s[o] < 0xF0
    ensures Decode(s, o) == Ok(Decoded(s[o] as int % 0x10 * 0x1000 + s[o + 1] as int % 0x40 * 0x40
                                       + s[o + 2] as int % 0x40, 3))
  {
    var acc := s[o] as int - 0xE0;
    AssembleFrom(acc, s, o + 1, o + 3);
    acc := acc * 0x40 + s[o + 1] as int % 0x40;
    AssembleFrom(acc, s, o + 2, o + 3);
    DecodeOk(s, o, 3, acc * 0x40 + s[o + 2] as int % 0x40);
  }

  lemma DecodeFlat4(s: seq<byte>, o: nat)
    requires o + 4 <= |s| && 0xF0 <= s[o] < 0xF8
    ensures Decode(s, o) == Ok(Decoded(s[o] as int % 0x08 * 0x4_0000 + s[o + 1] as int % 0x40 * 0x1000
                                       + s[o + 2] as int % 0x40 * 0x40 + s[o + 3] as int % 0x40, 4))
  {
    var acc := s[o] as int - 0xF0;
    AssembleFrom(acc, s, o + 1, o + 4);
    acc := acc * 0x40 + s[o + 1] as int % 0x40;
    AssembleFrom(acc, s, o + 2, o + 4);
    acc := acc * 0x40 + s[o + 2] as int % 0x40;
    AssembleFrom(acc, s, o + 3, o + 4);
    DecodeOk(s, o, 4, acc * 0x40 + s[o + 3] as int % 0x40);
  }

  lemma DecodeFlat5(s: seq<byte>, o: nat)
    requires o + 5 <= |s| && 0xF8 <= s[o] < 0xFC
    ensures Decode(s, o) == Ok(Decoded(s[o] as int % 0x04 * 0x100_0000 + s[o + 1] as int % 0x40 * 0x4_0000
                                       + s[o + 2] as int % 0x40 * 0x1000 + s[o + 3] as int % 0x40 * 0x40
                                       + s[o + 4] as int % 0x40, 5))
  {
    var acc := s[o] as int - 0xF8;
    AssembleFrom(acc, s, o + 1, o + 5);
    acc := acc * 0x40 + s[o + 1] as int % 0x40;
    AssembleFrom(acc, s, o + 2, o + 5);
    acc := acc * 0x40 + s[o + 2] as int % 0x40;
    AssembleFrom(acc, s, o + 3, o + 5);
    acc := acc * 0x40 + s[o + 3] as int % 0x40;
    AssembleFrom(acc, s, o + 4, o + 5);
    DecodeOk(s, o, 5, acc * 0x40 + s[o + 4] as int % 0x40);
  }

  lemma DecodeFlat6(s: seq<byte>, o: nat)
    requires o + 6 <= |s| && 0xFC <= s[o] < 0xFE
    ensures Decode(s, o) == Ok(Decoded(s[o] as int % 0x02 * 0x4000_0000 + s[o + 1] as int % 0x40 * 0x100_0000
                                       + s[o + 2] as int % 0x40 * 0x4_0000 + s[o + 3] as int % 0x40 * 0x1000
                                       + s[o + 4] as int % 0x40 * 0x40 + s[o + 5] as int % 0x40, 6))
  {
    var acc := s[o] as int - 0xFC;
    AssembleFrom(acc, s, o + 1, o + 6);
    acc := acc * 0x40 + s[o + 1] as int % 0x40;
    AssembleFrom(acc, s, o + 2, o + 6);
    acc := acc * 0x40 + s[o + 2] as int % 0x40;
    AssembleFrom(acc, s, o + 3, o + 6);
    acc := acc * 0x40 + s[o + 3] as int % 0x40;
    AssembleFrom(acc, s, o + 4, o + 6);
    acc := acc * 0x40 + s[o + 4] as int % 0x40;
    AssembleFrom(acc, s, o + 5, o + 6);
    DecodeOk(s, o, 6, acc * 0x40 + s[o + 5] as int % 0x40);
  }

  /** The source's mask tests on the lead byte, as ranges. */
  lemma LeadMasks(a: int)
    requires 0 <= a < 0x100
    ensures a / 0x80 == 0 <==> a < 0x80
    ensures a / 0x20 == 0x06 <==> 0xC0 <= a < 0xE0
    ensures a / 0x10 == 0x0E <==> 0xE0 <= a < 0xF0
    ensures a / 0x08 == 0x1E <==> 0xF0 <= a < 0xF8
    ensures a / 0x04 == 0x3E <==> 0xF8 <= a < 0xFC
    ensures a / 0x02 == 0x7E <==> 0xFC <= a < 0xFE
  {
  }

  /**
   * utf8_decode_char: reads the lead byte, tests its high bits against the
   * six patterns in the source's order, checks room for the continuation
   * bytes and reads them while advancing a local cursor. The buffer is only
   * read (no modifies clause).
   */
  method DecodeChar(bb: ByteBuffer, offset: nat) returns (r: Result<Decoded>)
    ensures r == Decode(bb.view[..], offset)
  {
    ghost var s := bb.view[..];
    var start := offset;
    var pos := offset;
    if pos + 1 > bb.view.Length {
      return Err(OutOfRange(pos, 1));
    }
    var a := bb.view[pos] as int;
    pos := pos + 1;
    LeadMasks(a);
    if a / 0x80 == 0 {                // (a & 0x80) == 0
      var codePoint := a;
      DecodeOk(s, start, 1, codePoint);
      return Ok(Decoded(codePoint, pos - start));
    } else if a / 0x20 == 0x06 {      // (a & 0xE0) == 0xC0
      if pos + 1 > bb.view.Length {
        return Err(OutOfRange(pos, 1));
      }
      var b := bb.view[pos] as int;
      pos := pos + 1;
      var codePoint := a % 0x20 * 0x40 + b % 0x40;
      DecodeFlat2(s, start);
      return Ok(Decoded(codePoint, pos - start));
    } else if a / 0x10 == 0x0E {      // (a & 0xF0) == 0xE0
      if pos + 2 > bb.view.Length {
        return Err(OutOfRange(pos, 2));
      }
      var b := bb.view[pos] as int;
      var c := bb.view[pos + 1] as int;
      pos := pos + 2;
      var codePoint := a % 0x10 * 0x1000 + b % 0x40 * 0x40 + c % 0x40;
      DecodeFlat3(s, start);
      return Ok(Decoded(codePoint, pos - start));
    } else if a / 0x08 == 0x1E {      // (a & 0xF8) == 0xF0
      if pos + 3 > bb.view.Length {
        return Err(OutOfRange(pos, 3));
      }
      var b := bb.view[pos] as int;
      var c := bb.view[pos + 1] as int;
      var d := bb.view[pos + 2] as int;
      pos := pos + 3;
      var codePoint := a % 0x08 * 0x4_0000 + b % 0x40 * 0x1000 + c % 0x40 * 0x40 + d % 0x40;
      DecodeFlat4(s, start);
      return Ok(Decoded(codePoint, pos - start));
    } else if a / 0x04 == 0x3E {      // (a & 0xFC) == 0xF8
      if pos + 4 > bb.view.Length {
        return Err(OutOfRange(pos, 4));
      }
      var b := bb.view[pos] as int;
      var c := bb.view[pos + 1] as int;
      var d := bb.view[pos + 2] as int;
      var e := bb.view[pos + 3] as int;
      pos := pos + 4;
      var codePoint := a % 0x04 * 0x100_0000 + b % 0x40 * 0x4_0000 + c % 0x40 * 0x1000
                       + d % 0x40 * 0x40 + e % 0x40;
      DecodeFlat5(s, start);
      return Ok(Decoded(codePoint, pos - start));
    } else if a / 0x02 == 0x7E {      // (a & 0xFE) == 0xFC
      if pos + 5 > bb.view.Length {
        return Err(OutOfRange(pos, 5));
      }
      var b := bb.view[pos] as int;
      var c := bb.view[pos + 1] as int;
      var d := bb.view[pos + 2] as int;
      var e := bb.view[pos + 3] as int;
      var f := bb.view[pos + 4] as int;
      pos := pos + 5;
      var codePoint := a % 0x02 * 0x4000_0000 + b % 0x40 * 0x100_0000 + c % 0x40 * 0x4_0000
                       + d % 0x40 * 0x1000 + e % 0x40 * 0x40 + f % 0x40;
      DecodeFlat6(s, start);
      return Ok(Decoded(codePoint, pos - start));
    } else {
      return Err(InvalidLead(pos, a as byte));
    }
  }
}
