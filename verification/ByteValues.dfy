/** Bytes as numbers. */
module ByteValues {

  /** x >> k */
  function Shr(x: nat, k: nat): nat {
    if k == 0 then x else Shr(x, k - 1) / 2
  }

  predicate Odd(x: nat) {
    x % 2 == 1
  }

  function Bit(on: bool, mask: bv8): bv8 {
    if on then mask else 0
  }

  /** The low eight bits of a number. */
  function ToByte(x: nat): bv8 {
    Bit(Odd(Shr(x, 0)), 1) | Bit(Odd(Shr(x, 1)), 2) | Bit(Odd(Shr(x, 2)), 4) | Bit(Odd(Shr(x, 3)), 8) |
    Bit(Odd(Shr(x, 4)), 16) | Bit(Odd(Shr(x, 5)), 32) | Bit(Odd(Shr(x, 6)), 64) | Bit(Odd(Shr(x, 7)), 128)
  }

  /** 1 if a bit of the mask is set. */
  function Flag(b: bv8, mask: bv8): nat {
    if b & mask != 0 then 1 else 0
  }

  function OfByte(b: bv8): nat {
    Flag(b, 1) + 2 * Flag(b, 2) + 4 * Flag(b, 4) + 8 * Flag(b, 8) +
    16 * Flag(b, 16) + 32 * Flag(b, 32) + 64 * Flag(b, 64) + 128 * Flag(b, 128)
  }

  /** Binary digit `k` of a number. */
  function Digit(x: nat, k: nat): nat {
    if Odd(Shr(x, k)) then 1 else 0
  }

  /** The number that four binary digits make. */
  function LowDigits(x: nat, k: nat): nat {
    Digit(x, k) + 2 * Digit(x, k + 1) + 4 * Digit(x, k + 2) + 8 * Digit(x, k + 3)
  }

  /** The value of a byte in terms of its shift and lowest bit, which determine it. */
  lemma OfByteShift(b: bv8)
    ensures OfByte(0) == 0 && OfByte(b) == 2 * OfByte(b >> 1) + Flag(b, 1)
    ensures Flag(b, 1) == 1 <==> b & 1 == 1
  {
    ShiftedLow(b);
    ShiftedHigh(b);
    hide Flag;
  }

  lemma ShiftedLow(b: bv8)
    ensures Flag(b >> 1, 1) == Flag(b, 2) && Flag(b >> 1, 2) == Flag(b, 4)
    ensures Flag(b >> 1, 4) == Flag(b, 8) && Flag(b >> 1, 8) == Flag(b, 16)
  {
  }

  lemma ShiftedHigh(b: bv8)
    ensures Flag(b >> 1, 16) == Flag(b, 32) && Flag(b >> 1, 32) == Flag(b, 64)
    ensures Flag(b >> 1, 64) == Flag(b, 128) && Flag(b >> 1, 128) == 0
    ensures Flag(0, 1) == 0 && Flag(0, 2) == 0 && Flag(0, 4) == 0 && Flag(0, 8) == 0
    ensures Flag(0, 16) == 0 && Flag(0, 32) == 0 && Flag(0, 64) == 0 && Flag(0, 128) == 0
    ensures Flag(b, 1) == 1 <==> b & 1 == 1
  {
  }

  lemma LowBits(x: nat)
    ensures Flag(ToByte(x), 1) == Digit(x, 0) && Flag(ToByte(x), 2) == Digit(x, 1)
    ensures Flag(ToByte(x), 4) == Digit(x, 2) && Flag(ToByte(x), 8) == Digit(x, 3)
  {
    hide Odd, Shr;
  }

  lemma HighBits(x: nat)
    ensures Flag(ToByte(x), 16) == Digit(x, 4) && Flag(ToByte(x), 32) == Digit(x, 5)
    ensures Flag(ToByte(x), 64) == Digit(x, 6) && Flag(ToByte(x), 128) == Digit(x, 7)
  {
    hide Odd, Shr;
  }

  lemma Halved(x: nat, k: nat)
    ensures Shr(x, k) == 2 * Shr(x, k + 1) + Digit(x, k)
  {
  }

  lemma FourHalved(x: nat, k: nat)
    ensures Shr(x, k) == 16 * Shr(x, k + 4) + LowDigits(x, k)
  {
    hide Digit, Shr;
    Halved(x, k);
    Halved(x, k + 1);
    Halved(x, k + 2);
    Halved(x, k + 3);
  }

  lemma EightHalved(x: nat)
    ensures x == 256 * Shr(x, 8) + LowDigits(x, 0) + 16 * LowDigits(x, 4)
  {
    assert Shr(x, 0) == x;
    FourHalved(x, 0);
    FourHalved(x, 4);
    hide LowDigits, Shr;
  }

  lemma BitsAreDigits(x: nat)
    ensures OfByte(ToByte(x)) == LowDigits(x, 0) + 16 * LowDigits(x, 4)
  {
    LowBits(x);
    HighBits(x);
    hide ToByte, Flag, Digit;
  }

  lemma ByteRoundTrip(x: nat)
    requires x < 256
    ensures OfByte(ToByte(x)) == x
  {
    hide OfByte, ToByte, Shr, LowDigits;
    EightHalved(x);
    BitsAreDigits(x);
  }
}
