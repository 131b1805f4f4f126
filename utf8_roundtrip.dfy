/**
 * How the decoder and the encoder fit together: decoding what the encoder
 * wrote gives back the code point and CalcChar's length, every decoded value
 * lies below the capacity of its length class, and a decode that is
 * well-formed (continuation bytes of the form 10xxxxxx) and shortest reads
 * exactly the bytes the encoder would write for its result.
 */
module Utf8RoundTrip {
  import opened Bytes
  import opened Utf8Format
  import opened Utf8Decode
  import opened Utf8Encode
  import opened Arith

  /** Assemble shifts its accumulator above the bits of the tail. */
  lemma {:induction false} AssembleShift(acc: int, t: seq<byte>)
    ensures Assemble(acc, t) == acc * Pow64(|t|) + Assemble(0, t)
    decreases |t|
  {
    if t != [] {
      var g := t[0] as int % 64;
      var p := Pow64(|t| - 1);
      var rest := Assemble(0, t[1..]);
      AssembleShift(acc * 64 + g, t[1..]);
      AssembleShift(g, t[1..]);
      calc {
        Assemble(acc, t);
        (acc * 64 + g) * p + rest;
        { assert (acc * 64 + g) * p == acc * (64 * p) + g * p; }
        acc * (64 * p) + (g * p + rest);
        acc * Pow64(|t|) + Assemble(0, t);
      }
    }
  }

  /** The tail alone contributes less than 64 to the power of its length. */
  lemma {:induction false} AssembleBound(t: seq<byte>)
    ensures 0 <= Assemble(0, t) < Pow64(|t|)
    decreases |t|
  {
    if t != [] {
      var g := t[0] as int % 64;
      var p := Pow64(|t| - 1);
      AssembleShift(g, t[1..]);
      AssembleBound(t[1..]);
      MulMono(g, 63, p);
      assert Assemble(0, t) == g * p + Assemble(0, t[1..]);
    }
  }

  /** Both halves of the decomposition of Assemble. */
  lemma AssembleSplit(acc: int, t: seq<byte>)
    ensures Assemble(acc, t) == acc * Pow64(|t|) + Assemble(0, t)
    ensures 0 <= Assemble(0, t) < Pow64(|t|)
  {
    AssembleShift(acc, t);
    AssembleBound(t);
  }

  /** The continuation bytes carry the low 6k bits of their value. */
  lemma {:induction false} ContinuationsValue(v: int, k: nat)
    requires v >= 0
    ensures Assemble(0, Continuations(v, k)) == v % Pow64(k)
  {
    if k > 0 {
      var p := Pow64(k - 1);
      var c := Continuations(v, k);
      var g := v / p % 64;
      assert c[0] as int % 64 == g;
      assert c[1..] == Continuations(v, k - 1);
      ContinuationsValue(v, k - 1);
      assert Assemble(0, c) == Assemble(g, Continuations(v, k - 1));
      AssembleSplit(g, Continuations(v, k - 1));
      ModSplit(v, p);
    }
  }

  /**
   * Conversely, bytes of the form 10xxxxxx are the continuation bytes of any
   * value whose low 6k bits they carry.
   */
  lemma {:induction false} ContinuationsOfValue(v: int, w: seq<byte>)
    requires v >= 0
    requires forall i :: 0 <= i < |w| ==> IsContinuation(w[i])
    requires v % Pow64(|w|) == Assemble(0, w)
    ensures Continuations(v, |w|) == w
    decreases |w|
  {
    if w != [] {
      var k := |w|;
      var p := Pow64(k - 1);
      var g := w[0] as int % 64;
      assert Assemble(0, w) == Assemble(g, w[1..]);
      AssembleSplit(g, w[1..]);
      ModSplit(v, p);
      // (v / p % 64) * p + v % p == g * p + Assemble(0, w[1..]), both remainders below p
      DivModUnique(v % Pow64(k), p, v / p % 64, v % p);
      DivModUnique(v % Pow64(k), p, g, Assemble(0, w[1..]));
      ContinuationsOfValue(v, w[1..]);
      assert w == [w[0]] + w[1..];
    }
  }

  /** The lead byte of an encoding holds the code point's bits above its continuation groups. */
  lemma EncodingParts(codePoint: int)
    requires 0 <= codePoint < CodePointLimit
    ensures var n := CalcChar(codePoint).value;
            Encoding(codePoint)[0] as int == LeadBase(n) as int + codePoint / Pow64(n - 1) &&
            Encoding(codePoint)[1..] == Continuations(codePoint, n - 1)
  {
    var n := CalcChar(codePoint).value;
    DivBelow(codePoint, LeadSpan(n), Pow64(n - 1));
  }

  /** Decoding the bytes of an encoding on their own gives back the code point and its length. */
  lemma DecodeEncoding(codePoint: int)
    requires 0 <= codePoint < CodePointLimit
    ensures Decode(Encoding(codePoint), 0) == Ok(Decoded(codePoint, CalcChar(codePoint).value))
  {
    var n := CalcChar(codePoint).value;
    var e := Encoding(codePoint);
    var p := Pow64(n - 1);
    var c := Continuations(codePoint, n - 1);
    EncodingParts(codePoint);
    var payload := e[0] as int - LeadBase(n) as int;
    assert payload == codePoint / p;
    assert e[1..n] == c;
    AssembleShift(payload, c);
    ContinuationsValue(codePoint, n - 1);
    DivMod(codePoint, p);
    assert LeadLength(e[0]) == Some(n);
    DecodeOk(e, 0, n, codePoint);
  }

  /** The decoder only looks at the bytes of the sequence the lead byte announces. */
  lemma DecodeLocal(s: seq<byte>, offset: nat, n: int)
    requires offset < |s| && LeadLength(s[offset]) == Some(n) && offset + n <= |s|
    ensures Decode(s, offset) == Decode(s[offset..offset + n], 0)
  {
    var w := s[offset..offset + n];
    assert w[0] == s[offset];
    assert w[1..n] == s[offset + 1..offset + n];
  }

  /**
   * Round trip: decoding at `offset` after the encoder wrote a legal code
   * point there gives back the code point and CalcChar's length, whatever
   * the rest of the buffer holds.
   */
  lemma RoundTrip(codePoint: int, s: seq<byte>, offset: nat)
    requires 0 <= codePoint < CodePointLimit
    requires offset + CalcChar(codePoint).value <= |s|
    ensures Decode(Splice(s, offset, Encoding(codePoint)), offset) ==
            Ok(Decoded(codePoint, CalcChar(codePoint).value))
  {
    var n := CalcChar(codePoint).value;
    var e := Encoding(codePoint);
    var t := Splice(s, offset, e);
    assert t[offset..offset + n] == e;
    DecodeEncoding(codePoint);
    DecodeLocal(t, offset, n);
  }

  /**
   * Every decoded value is a legal code point strictly below the capacity of
   * its length class (for two bytes, at most 0x7FF).
   */
  lemma DecodeRange(s: seq<byte>, offset: nat)
    requires Decode(s, offset).Ok?
    ensures 0 <= Decode(s, offset).value.codePoint < Capacity(Decode(s, offset).value.length)
    ensures Capacity(Decode(s, offset).value.length) <= CodePointLimit
  {
    var n := Decode(s, offset).value.length;
    var payload := s[offset] as int - LeadBase(n) as int;
    var w := s[offset + 1..offset + n];
    var p := Pow64(n - 1);
    AssembleSplit(payload, w);
    assert |w| == n - 1;
    MulMono(payload, LeadSpan(n) - 1, p);
    assert (LeadSpan(n) - 1) * p + p == Capacity(n);
    CapacityValues();
  }

  /** The decoder reads nothing outside the sequence it announces. */
  lemma DecodeWindow(s: seq<byte>, t: seq<byte>, offset: nat)
    requires Decode(s, offset).Ok?
    requires offset + Decode(s, offset).value.length <= |t|
    requires t[offset..offset + Decode(s, offset).value.length] ==
             s[offset..offset + Decode(s, offset).value.length]
    ensures Decode(t, offset) == Decode(s, offset)
  {
    var n := Decode(s, offset).value.length;
    assert t[offset] == s[offset..offset + n][0];
    assert t[offset + 1..offset + n] == s[offset..offset + n][1..] == s[offset + 1..offset + n];
  }

  /**
   * The converse of the round trip: when the decoder accepts a sequence
   * whose continuation bytes have the form 10xxxxxx and whose length is the
   * shortest for the decoded value, those bytes are exactly what the encoder
   * writes for that value.
   */
  lemma {:induction false} CanonicalDecode(s: seq<byte>, offset: nat)
    requires Decode(s, offset).Ok?
    requires forall i :: offset < i < offset + Decode(s, offset).value.length ==> IsContinuation(s[i])
    requires CalcChar(Decode(s, offset).value.codePoint) == Ok(Decode(s, offset).value.length)
    ensures s[offset..offset + Decode(s, offset).value.length] == Encoding(Decode(s, offset).value.codePoint)
  {
    var d := Decode(s, offset).value;
    var n := d.length;
    var cp := d.codePoint;
    var p := Pow64(n - 1);
    var payload := s[offset] as int - LeadBase(n) as int;
    var w := s[offset + 1..offset + n];
    DecodeRange(s, offset);
    AssembleSplit(payload, w);
    // cp == payload * p + Assemble(0, w) with the tail below p
    DivModUnique(cp, p, payload, Assemble(0, w));
    assert forall i :: 0 <= i < |w| ==> IsContinuation(w[i]) by {
      forall i | 0 <= i < |w| ensures IsContinuation(w[i]) {
        assert w[i] == s[offset + 1 + i];
      }
    }
    ContinuationsOfValue(cp, w);
    var e := Encoding(cp);
    assert e[0] == s[offset];
    assert e[1..] == w;
    assert s[offset..offset + n] == [s[offset]] + w;
  }

  /** The decoder accepts the overlong two-byte form of U+0000. */
  lemma OverlongAccepted()
    ensures Decode([0xC0, 0x80], 0) == Ok(Decoded(0, 2))
  {
    DecodeFlat2([0xC0, 0x80], 0);
  }

  /** The decoder takes the low 6 bits of a continuation byte without checking its form. */
  lemma ContinuationNotChecked()
    ensures Decode([0xC3, 0x41], 0) == Ok(Decoded(0xC1, 2))
  {
    DecodeFlat2([0xC3, 0x41], 0);
  }

  /** A lead byte 0xFE, or a continuation-shaped one, is invalid and reported after the lead byte. */
  lemma InvalidLeads()
    ensures Decode([0xFE], 0) == Err(InvalidLead(1, 0xFE))
    ensures Decode([0x41, 0x80, 0x41], 1) == Err(InvalidLead(2, 0x80))
  {
  }

  /** A truncated three-byte sequence is out of range after the lead byte, two bytes short. */
  lemma TruncatedSequence()
    ensures Decode([0xE0, 0x80], 0) == Err(OutOfRange(1, 2))
    ensures Decode([], 0) == Err(OutOfRange(0, 1))
  {
  }
}
