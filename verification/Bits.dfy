/** Bytes as eight pixels. */
module Bits {
  type byte = bv8

  function Number(b: byte): nat { b as nat }

  /** Bit `k`, counted from the least significant end. */
  function Mask(k: nat): byte
    requires k < 8
  {
    if k == 0 then 0x01 else if k == 1 then 0x02 else if k == 2 then 0x04 else if k == 3 then 0x08
    else if k == 4 then 0x10 else if k == 5 then 0x20 else if k == 6 then 0x40 else 0x80
  }

  /** Bit `k`, counted from the most significant end. */
  function MaskMsb(k: nat): byte
    requires k < 8
  {
    Mask(7 - k)
  }

  /** The masks are the shifts the drivers use. */
  lemma MasksAreShifts(k: nat)
    requires k < 8
    ensures Mask(k) == (1 as bv8) << k && MaskMsb(k) == (0x80 as bv8) >> k
  {
  }

  function Bit(b: byte, k: nat): bool
    requires k < 8
  {
    b & Mask(k) != 0
  }

  function BitMsb(b: byte, k: nat): bool
    requires k < 8
  {
    b & MaskMsb(k) != 0
  }

  function Assign(b: byte, mask: byte, on: bool): byte {
    if on then b | mask else b & !mask
  }

  lemma AssignBit(b: byte, k: nat, on: bool, j: nat)
    requires k < 8 && j < 8
    ensures Bit(Assign(b, Mask(k), on), j) == if j == k then on else Bit(b, j)
  {
  }

  lemma AssignBitMsb(b: byte, k: nat, on: bool, j: nat)
    requires k < 8 && j < 8
    ensures BitMsb(Assign(b, MaskMsb(k), on), j) == if j == k then on else BitMsb(b, j)
  {
  }

  lemma SolidByte(k: nat)
    requires k < 8
    ensures Bit(0xFF, k) && BitMsb(0xFF, k) && !Bit(0, k) && !BitMsb(0, k)
  {
  }

  function ReverseBits(b: byte): byte {
    ((b & 0x01) << 7) | ((b & 0x02) << 5) | ((b & 0x04) << 3) | ((b & 0x08) << 1) |
    ((b & 0x10) >> 1) | ((b & 0x20) >> 3) | ((b & 0x40) >> 5) | ((b & 0x80) >> 7)
  }

  lemma ReverseTwice(b: byte)
    ensures ReverseBits(ReverseBits(b)) == b
  {
  }

  lemma ReverseBit(b: byte, k: nat)
    requires k < 8
    ensures BitMsb(ReverseBits(b), k) == Bit(b, k)
  {
  }

  /** A byte is its bits. */
  lemma SameBits(a: byte, b: byte)
    requires forall k: nat :: k < 8 ==> Bit(a, k) == Bit(b, k)
    ensures a == b
  {
    assert Bit(a, 0) == Bit(b, 0) && Bit(a, 1) == Bit(b, 1) && Bit(a, 2) == Bit(b, 2) && Bit(a, 3) == Bit(b, 3);
    assert Bit(a, 4) == Bit(b, 4) && Bit(a, 5) == Bit(b, 5) && Bit(a, 6) == Bit(b, 6) && Bit(a, 7) == Bit(b, 7);
    BitsOf(a);
    BitsOf(b);
  }

  lemma BitsOf(a: byte)
    ensures a == (if Bit(a, 0) then 1 else 0) | (if Bit(a, 1) then 2 else 0) | (if Bit(a, 2) then 4 else 0)
      | (if Bit(a, 3) then 8 else 0) | (if Bit(a, 4) then 16 else 0) | (if Bit(a, 5) then 32 else 0)
      | (if Bit(a, 6) then 64 else 0) | (if Bit(a, 7) then 128 else 0)
  {
  }

  lemma BitFromEitherEnd(b: byte, k: nat)
    requires k < 8
    ensures BitMsb(b, k) == Bit(b, 7 - k)
  {
  }

  lemma SameBitsMsb(a: byte, b: byte)
    requires forall k: nat :: k < 8 ==> BitMsb(a, k) == BitMsb(b, k)
    ensures a == b
  {
    forall k: nat | k < 8 ensures Bit(a, k) == Bit(b, k) {
      BitFromEitherEnd(a, 7 - k);
      BitFromEitherEnd(b, 7 - k);
      assert BitMsb(a, 7 - k) == BitMsb(b, 7 - k);
    }
    SameBits(a, b);
  }
}
