/** The CRC engine: CRC-8/AUTOSAR as defined in the AUTOSAR "Specification of
    CRC Routines", section 7.2.1.2 (8-bit 0x2F polynomial): width 8, polynomial
    0x2F, initial register 0xFF, no input or output reflection, final XOR 0xFF.
    The driver obtains it from a foreign library; here it is written out as the
    plain bit-at-a-time division that the parameter set defines. */
module Crc8 {

  const Poly: bv8 := 0x2F
  const Init: bv8 := 0xFF
  const XorOut: bv8 := 0xFF

  /** The register left behind by any message followed by its own checksum. */
  const Residue: bv8 := 0x42

  /** One division step: shift left by one bit and subtract (xor) the
      polynomial when the bit shifted out was set. */
  function ShiftBit(r: bv8): bv8 {
    if r & 0x80 != 0 then (r << 1) ^ Poly else r << 1
  }

  /** `k` division steps. */
  function ShiftBits(r: bv8, k: nat): bv8
    decreases k
  {
    if k == 0 then r else ShiftBits(ShiftBit(r), k - 1)
  }

  /** Feeds one message byte (most significant bit first) into the register. */
  function FeedByte(r: bv8, b: bv8): bv8 {
    ShiftBits(r ^ b, 8)
  }

  /** The register after feeding `data`, front to back, starting from `r`. */
  function Register(r: bv8, data: seq<bv8>): bv8
    decreases |data|
  {
    if data == [] then r else Register(FeedByte(r, data[0]), data[1..])
  }

  /** The CRC-8/AUTOSAR checksum of `data`. */
  function Checksum(data: seq<bv8>): bv8 {
    Register(Init, data) ^ XorOut
  }

  /** A division step loses no information: the low bit of the result tells
      which branch was taken. */
  lemma ShiftBitInjective(x: bv8, y: bv8)
    ensures ShiftBit(x) == ShiftBit(y) ==> x == y
  {
  }

  lemma {:induction false} ShiftBitsInjective(x: bv8, y: bv8, k: nat)
    ensures ShiftBits(x, k) == ShiftBits(y, k) ==> x == y
    decreases k
  {
    if k > 0 {
      ShiftBitsInjective(ShiftBit(x), ShiftBit(y), k - 1);
      ShiftBitInjective(x, y);
    }
  }

  /** For a fixed register, different bytes give different registers, and for
      a fixed byte, different registers give different registers. */
  lemma FeedByteInjective(r1: bv8, b1: bv8, r2: bv8, b2: bv8)
    ensures FeedByte(r1, b1) == FeedByte(r2, b2) ==> r1 ^ b1 == r2 ^ b2
  {
    ShiftBitsInjective(r1 ^ b1, r2 ^ b2, 8);
  }

  /** The eight division steps of one byte, written out. */
  lemma FeedByteUnrolled(r: bv8, b: bv8)
    ensures FeedByte(r, b)
            == ShiftBit(ShiftBit(ShiftBit(ShiftBit(ShiftBit(ShiftBit(ShiftBit(ShiftBit(r ^ b))))))))
  {
    var x := r ^ b;
    assert ShiftBits(x, 8) == ShiftBits(ShiftBit(x), 7);
    assert ShiftBits(ShiftBit(x), 7) == ShiftBits(ShiftBit(ShiftBit(x)), 6);
    assert ShiftBits(ShiftBit(ShiftBit(x)), 6) == ShiftBits(ShiftBit(ShiftBit(ShiftBit(x))), 5);
    assert ShiftBits(ShiftBit(ShiftBit(ShiftBit(x))), 5)
        == ShiftBits(ShiftBit(ShiftBit(ShiftBit(ShiftBit(x)))), 4);
    assert ShiftBits(ShiftBit(ShiftBit(ShiftBit(ShiftBit(x)))), 4)
        == ShiftBits(ShiftBit(ShiftBit(ShiftBit(ShiftBit(ShiftBit(x))))), 3);
    assert ShiftBits(ShiftBit(ShiftBit(ShiftBit(ShiftBit(ShiftBit(x))))), 3)
        == ShiftBits(ShiftBit(ShiftBit(ShiftBit(ShiftBit(ShiftBit(ShiftBit(x)))))), 2);
  }

  lemma RegisterCons(r: bv8, b: bv8, rest: seq<bv8>)
    ensures Register(r, [b] + rest) == Register(FeedByte(r, b), rest)
  {
    assert ([b] + rest)[1..] == rest;
  }

  /** Feeding `a + b` is feeding `a` and then `b`: the checksum can be carried
      across a buffer that grows at its end. */
  lemma {:induction false} RegisterAppend(r: bv8, a: seq<bv8>, b: seq<bv8>)
    ensures Register(r, a + b) == Register(Register(r, a), b)
    decreases |a|
  {
    if a == [] {
      assert a + b == b;
    } else {
      assert (a + b)[0] == a[0];
      assert (a + b)[1..] == a[1..] + b;
      RegisterAppend(FeedByte(r, a[0]), a[1..], b);
    }
  }

  /** Registers that differ stay different whatever is fed after them. */
  lemma {:induction false} RegisterInjective(r1: bv8, r2: bv8, data: seq<bv8>)
    requires r1 != r2
    ensures Register(r1, data) != Register(r2, data)
    decreases |data|
  {
    if data != [] {
      FeedByteInjective(r1, data[0], r2, data[0]);
      RegisterInjective(FeedByte(r1, data[0]), FeedByte(r2, data[0]), data[1..]);
    }
  }

  /** Every single-byte error is detected: two messages that differ in exactly
      one byte have different checksums. */
  lemma SingleByteErrorDetected(prefix: seq<bv8>, x: bv8, y: bv8, suffix: seq<bv8>)
    requires x != y
    ensures Checksum(prefix + [x] + suffix) != Checksum(prefix + [y] + suffix)
  {
    var r := Register(Init, prefix);
    RegisterAppend(Init, prefix + [x], suffix);
    RegisterAppend(Init, prefix, [x]);
    RegisterAppend(Init, prefix + [y], suffix);
    RegisterAppend(Init, prefix, [y]);
    RegisterCons(r, x, []);
    RegisterCons(r, y, []);
    FeedByteInjective(r, x, r, y);
    RegisterInjective(FeedByte(r, x), FeedByte(r, y), suffix);
  }

  /** Appending a message's own checksum always leaves the same register,
      whatever the message. */
  lemma ResidueAfterChecksum(data: seq<bv8>)
    ensures Register(Init, data + [Checksum(data)]) == Residue
  {
    var r := Register(Init, data);
    RegisterAppend(Init, data, [Checksum(data)]);
    RegisterCons(r, Checksum(data), []);
    assert r ^ (r ^ XorOut) == 0xFF;
    assert FeedByte(r, r ^ XorOut) == ShiftBits(0xFF, 8);
  }

  /** The catalogue check value of the profile: the checksum of the ASCII
      digits "123456789" is 0xDF. */
  lemma CheckValue()
    ensures Checksum([0x31, 0x32, 0x33, 0x34, 0x35, 0x36, 0x37, 0x38, 0x39]) == 0xDF
  {
    RegisterCons(0xFF, 0x31, [0x32, 0x33, 0x34, 0x35, 0x36, 0x37, 0x38, 0x39]);
    FeedByteUnrolled(0xFF, 0x31);
    assert FeedByte(0xFF, 0x31) == 0xB0;
    RegisterCons(0xB0, 0x32, [0x33, 0x34, 0x35, 0x36, 0x37, 0x38, 0x39]);
    FeedByteUnrolled(0xB0, 0x32);
    assert FeedByte(0xB0, 0x32) == 0xBD;
    RegisterCons(0xBD, 0x33, [0x34, 0x35, 0x36, 0x37, 0x38, 0x39]);
    FeedByteUnrolled(0xBD, 0x33);
    assert FeedByte(0xBD, 0x33) == 0x56;
    RegisterCons(0x56, 0x34, [0x35, 0x36, 0x37, 0x38, 0x39]);
    FeedByteUnrolled(0x56, 0x34);
    assert FeedByte(0x56, 0x34) == 0xCB;
    RegisterCons(0xCB, 0x35, [0x36, 0x37, 0x38, 0x39]);
    FeedByteUnrolled(0xCB, 0x35);
    assert FeedByte(0xCB, 0x35) == 0x6D;
    CheckValueTail();
  }

  /** The last four bytes of the check-value message. */
  lemma CheckValueTail()
    ensures Register(0x6D, [0x36, 0x37, 0x38, 0x39]) == 0x20
  {
    RegisterCons(0x6D, 0x36, [0x37, 0x38, 0x39]);
    FeedByteUnrolled(0x6D, 0x36);
    assert FeedByte(0x6D, 0x36) == 0x6E;
    RegisterCons(0x6E, 0x37, [0x38, 0x39]);
    FeedByteUnrolled(0x6E, 0x37);
    assert FeedByte(0x6E, 0x37) == 0x30;
    RegisterCons(0x30, 0x38, [0x39]);
    FeedByteUnrolled(0x30, 0x38);
    assert FeedByte(0x30, 0x38) == 0x57;
    RegisterCons(0x57, 0x39, []);
    FeedByteUnrolled(0x57, 0x39);
    assert FeedByte(0x57, 0x39) == 0x20;
  }
}
