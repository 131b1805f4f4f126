/**
 * Byte values and the byte buffer the codec borrows.
 *
 * The container that owns the buffer (allocation, growth, cursors) is not part
 * of this model: the codec only sees a fixed-length array of bytes whose
 * reads and writes are bounds-checked by Dafny itself.
 */
module Bytes {

  /** An unsigned 8-bit value. */
  newtype byte = x: int | 0 <= x < 0x100

  /** The integer conversion a byte store applies: the value modulo 256. */
  function ToUint8(x: int): (r: byte)
    ensures 0 <= x < 0x100 ==> r as int == x
  {
    (x % 0x100) as byte
  }

  /** The byte storage a codec call reads from or writes to (the buffer's `view`). */
  class ByteBuffer {
    const view: array<byte>

    /** Wraps existing storage; the codec never allocates a buffer of its own. */
    constructor (storage: array<byte>)
      ensures view == storage
    {
      view := storage;
    }

    /**
     * Writes one byte (DataView's setUint8): the position must be inside the
     * buffer and the value is stored modulo 256.
     */
    method SetUint8(i: nat, value: int)
      requires i < view.Length
      modifies view
      ensures view[..] == old(view[..])[i := ToUint8(value)]
    {
      view[i] := ToUint8(value);
    }
  }

  /** `s` with the bytes `w` written over positions `[offset, offset + |w|)`. */
  function Splice(s: seq<byte>, offset: nat, w: seq<byte>): (r: seq<byte>)
    requires offset + |w| <= |s|
    ensures |r| == |s|
    ensures forall i :: 0 <= i < |w| ==> r[offset + i] == w[i]
    ensures forall i :: 0 <= i < |s| && !(offset <= i < offset + |w|) ==> r[i] == s[i]
  {
    s[..offset] + w + s[offset + |w|..]
  }
}
