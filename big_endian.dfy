/** Big-endian reads from a byte buffer, as a DataView performs them with
    `littleEndian = false`. Every read requires its bytes to lie inside the
    buffer; callers check the bound first and turn a violation into the
    DataView's RangeError. */
module BigEndian {

  /** Unsigned 32-bit integer stored most significant byte first at `off`
      (DataView.getUint32). */
  function U32(buf: seq<bv8>, off: nat): (r: nat)
    requires off + 4 <= |buf|
    ensures r < 0x1_0000_0000
  {
    var b0, b1, b2, b3 := buf[off] as nat, buf[off + 1] as nat, buf[off + 2] as nat, buf[off + 3] as nat;
    assert b0 < 0x100 && b1 < 0x100 && b2 < 0x100 && b3 < 0x100;
    b0 * 0x100_0000 + b1 * 0x1_0000 + b2 * 0x100 + b3
  }

  /** Unsigned 16-bit integer stored most significant byte first at `off`. */
  function U16(buf: seq<bv8>, off: nat): (r: nat)
    requires off + 2 <= |buf|
    ensures r < 0x1_0000
  {
    (buf[off] as nat) * 0x100 + (buf[off + 1] as nat)
  }

  /** Signed 16-bit two's-complement integer at `off` (DataView.getInt16):
      the one value in [-2^15, 2^15) congruent to the unsigned reading
      modulo 2^16. */
  function I16(buf: seq<bv8>, off: nat): (r: int)
    requires off + 2 <= |buf|
    ensures -0x8000 <= r < 0x8000
    ensures r % 0x1_0000 == U16(buf, off)
  {
    var u := U16(buf, off);
    if u < 0x8000 then u else u - 0x1_0000
  }

  /** A 32-bit reading is its high 16-bit half shifted left by 16 plus its
      low half. */
  lemma U32Halves(buf: seq<bv8>, off: nat)
    requires off + 4 <= |buf|
    ensures U32(buf, off) == U16(buf, off) * 0x1_0000 + U16(buf, off + 2)
  {
  }

  /** The sign of a 16-bit reading is the top bit of its first byte. */
  lemma I16Sign(buf: seq<bv8>, off: nat)
    requires off + 2 <= |buf|
    ensures I16(buf, off) < 0 <==> buf[off] as nat >= 0x80
  {
  }
}
