/**
 * One pixel's colour: quantising each channel to 16 levels by masking off
 * its low four bits, and packing the three quantised channels into one
 * 24-bit bucket key, red in the high byte, green in the middle, blue low.
 */
module Channels {
  import opened Bits

  /** One byte of the decoded RGBA buffer. */
  type byte = x: int | 0 <= x < 256

  /** The 16-level bucket of a channel value: rounded down to a multiple of 16. */
  function Quantise(v: byte): (q: byte)
    ensures q % 16 == 0 && q <= 240
    ensures q <= v < q + 16
  {
    v / 16 * 16
  }

  /** `v & 0xF0`, as the handler computes it; it clears the low four bits, which is Quantise. */
  function MaskChannel(v: byte): (q: byte)
    ensures q == Quantise(v)
  {
    AndEvenMask(v, 120);
    AndEvenMask(v / 2, 60);
    AndEvenMask(v / 4, 30);
    AndEvenMask(v / 8, 15);
    assert v / 2 / 2 == v / 4 && v / 4 / 2 == v / 8 && v / 8 / 2 == v / 16;
    assert Pow2(4) == 16;
    AndLowOnes(v / 16, 4);
    And(v, 0xF0)
  }

  /** Quantising twice is quantising once: a bucket representative is its own bucket. */
  lemma QuantiseIdempotent(v: byte)
    ensures Quantise(Quantise(v)) == Quantise(v)
  {
  }

  /** A key is one of the 16^3 quantised colours: every channel a multiple of 16. */
  predicate IsBucketKey(k: nat)
  {
    k < 0x100_0000 && k % 16 == 0 && k / 0x100 % 16 == 0 && k / 0x1_0000 % 16 == 0
  }

  /** The red, green and blue bytes of a 24-bit key. */
  function Red(k: nat): nat { k / 0x1_0000 % 0x100 }
  function Green(k: nat): nat { k / 0x100 % 0x100 }
  function Blue(k: nat): nat { k % 0x100 }

  /** The key of a colour: red in bits 16-23, green in bits 8-15, blue in bits 0-7. */
  function PackKey(r: byte, g: byte, b: byte): (k: nat)
    ensures k < 0x100_0000
  {
    r * 0x1_0000 + g * 0x100 + b
  }

  /** The key as the handler computes it: red shifted up 16 bits, or-ed with green shifted up 8, or-ed with blue; it is PackKey. */
  function PackBits(r: byte, g: byte, b: byte): (k: nat)
    ensures k == PackKey(r, g, b)
  {
    assert Pow2(8) == 0x100 && Pow2(16) == 0x1_0000;
    OrDisjoint(r, g * 0x100, 16);
    assert Or(ShiftLeft(r, 16), ShiftLeft(g, 8)) == (r * 0x100 + g) * Pow2(8);
    OrDisjoint(r * 0x100 + g, b, 8);
    Or(Or(ShiftLeft(r, 16), ShiftLeft(g, 8)), b)
  }

  /** The high and low hexadecimal digit of the low byte of x are the low two nibbles of x. */
  lemma ByteNibbles(x: nat)
    ensures x % 0x100 / 16 == x / 16 % 16 && x % 0x100 % 16 == x % 16
  {
    var a, b := x / 0x100, x % 0x100;
    assert x == 0x100 * a + b;
    assert x == 16 * (16 * a + b / 16) + b % 16;
    assert x / 16 == 16 * a + b / 16;
  }

  /** The high and low hexadecimal digit of each channel are four-bit fields of the key. */
  lemma ChannelNibbles(k: nat)
    requires k < 0x100_0000
    ensures Red(k) / 16 == k / 0x10_0000 % 16 && Red(k) % 16 == k / 0x1_0000 % 16
    ensures Green(k) / 16 == k / 0x1000 % 16 && Green(k) % 16 == k / 0x100 % 16
    ensures Blue(k) / 16 == k / 16 % 16 && Blue(k) % 16 == k % 16
  {
    ByteNibbles(k);
    ByteNibbles(k / 0x100);
    ByteNibbles(k / 0x1_0000);
    assert k / 0x100 / 16 == k / 0x1000;
    assert k / 0x1_0000 / 16 == k / 0x10_0000;
  }

  /** Unpacking a packed key gives back the three channels. */
  lemma UnpackPack(r: byte, g: byte, b: byte)
    ensures Red(PackKey(r, g, b)) == r
    ensures Green(PackKey(r, g, b)) == g
    ensures Blue(PackKey(r, g, b)) == b
  {
    var k := PackKey(r, g, b);
    assert k / 0x100 == r * 0x100 + g;
    assert k / 0x1_0000 == r;
  }

  /** Packing is injective: distinct colours never share a bucket key. */
  lemma PackKeyInjective(r: byte, g: byte, b: byte, r': byte, g': byte, b': byte)
    requires PackKey(r, g, b) == PackKey(r', g', b')
    ensures r == r' && g == g' && b == b'
  {
    UnpackPack(r, g, b);
    UnpackPack(r', g', b');
  }

  /** Channels that are multiples of 16 pack into a bucket key. */
  lemma PackedLevelsAreBucketKey(x: nat, y: nat, z: nat)
    requires x < 16 && y < 16 && z < 16
    ensures IsBucketKey(PackKey(16 * x, 16 * y, 16 * z))
  {
    var k := PackKey(16 * x, 16 * y, 16 * z);
    var lo, mid, hi := x * 0x1_0000 + y * 0x100 + z, x * 0x100 + y, x;
    assert k == 16 * lo;
    assert k / 0x100 == 16 * mid by {
      assert k == 0x100 * (16 * mid) + 16 * z;
    }
    assert k / 0x1_0000 == 16 * hi by {
      assert k == 0x1_0000 * (16 * hi) + (y * 0x1000 + z * 16);
    }
  }

  /** Three channels on the 16-level grid, quantised or not, pack into a bucket key. */
  lemma LevelsAreBucketKey(r: byte, g: byte, b: byte)
    requires r % 16 == 0 && g % 16 == 0 && b % 16 == 0
    ensures IsBucketKey(PackKey(r, g, b))
  {
    PackedLevelsAreBucketKey(r / 16, g / 16, b / 16);
  }
}
