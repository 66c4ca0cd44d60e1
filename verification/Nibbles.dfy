/** The two hexadecimal halves of a byte, by shifting and masking. */
module Nibbles {
  import opened Bytes

  // Shifting and masking a byte are division and remainder by 16.
  lemma NibblesOf(b: bv8)
    ensures (b >> 4) as int == b as int / 16
    ensures (b & 0x0f) as int == b as int % 16
  {
  }

  lemma JoinedOf(hi: bv8, lo: bv8)
    requires hi < 16 && lo < 16
    ensures ((hi << 4) | lo) as int == 16 * (hi as int) + (lo as int)
  {
  }

  lemma SmallBits(x: int)
    requires 0 <= x < 16
    ensures (x as bv8) < 16 && (x as bv8) as int == x
  {
  }

  lemma OneMore(bits: bv8)
    requires bits < 255
    ensures (bits + 1) as int == bits as int + 1
  {
  }

  lemma ThereAndBack(bits: bv8)
    ensures (bits as int) as bv8 == bits
  {
  }

  // Every number below 256 is the value of some bits.
  lemma {:induction false} SomeBits(n: nat) returns (bits: bv8)
    requires n < 256
    ensures bits as int == n
  {
    if n == 0 {
      bits := 0;
    } else {
      bits := SomeBits(n - 1);
      OneMore(bits);
      bits := bits + 1;
    }
  }

  lemma ByteBits(b: byte)
    ensures (b as bv8) as int == b as int
  {
    var bits := SomeBits(b as int);
    ThereAndBack(bits);
  }

  // data[i] >> 4 and data[i] & 0x0f
  method SplitBits(bits: bv8) returns (hi: nat, lo: nat)
    ensures hi == bits as int / 16 && lo == bits as int % 16
  {
    NibblesOf(bits);
    hi := (bits >> 4) as int;
    lo := (bits & 0x0f) as int;
  }

  method SplitByte(b: byte) returns (hi: nat, lo: nat)
    ensures hi == b as int / 16 && lo == b as int % 16
  {
    ByteBits(b);
    hi, lo := SplitBits(b as bv8);
  }

  // (hi << 4) | lo
  method JoinByte(hi: int, lo: int) returns (b: byte)
    requires 0 <= hi < 16 && 0 <= lo < 16
    ensures b as int == 16 * hi + lo
  {
    SmallBits(hi);
    SmallBits(lo);
    JoinedOf(hi as bv8, lo as bv8);
    return (((hi as bv8) << 4) | (lo as bv8)) as byte;
  }
}
