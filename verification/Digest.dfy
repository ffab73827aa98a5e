/** The 64-bit multiply-and-xor digest (src/lib.rs, `digest`). */
module Digest {
  import opened Bytes

  const OFFSET_BASIS: u64 := 0xcbf29ce484222325
  const PRIME := 0x100000001b3

  /** How many numbers have that many bits. */
  function Power(bits: nat): (n: nat)
    ensures n > 0
  {
    if bits == 0 then 1 else 2 * Power(bits - 1)
  }

  /** Exclusive or, bit by bit: a bit of the result is set where exactly one of the two is. */
  function Xor(a: nat, b: nat, bits: nat): (r: nat)
    ensures r < Power(bits)
  {
    if bits == 0 then 0 else 2 * Xor(a / 2, b / 2, bits - 1) + (a % 2 + b % 2) % 2
  }

  function Xor8(a: byte, b: byte): byte {
    assert Power(8) == 2 * Power(7) && Power(7) == 2 * Power(6) && Power(6) == 2 * Power(5) && Power(5) == 2 * Power(4);
    assert Power(4) == 2 * Power(3) && Power(3) == 2 * Power(2) && Power(2) == 4;
    Xor(a, b, 8)
  }

  function WrappingMul(a: u64, b: u64): u64 {
    a * b % 0x1_0000_0000_0000_0000
  }

  function WithLowByte(n: u64, low: byte): u64 {
    n - n % 256 + low
  }

  /** One step: multiply modulo 2^64, then xor the byte into the low eight bits. */
  function Mix(hash: u64, b: byte): u64 {
    var product := WrappingMul(hash, PRIME);
    WithLowByte(product, Xor8(product % 256, b))
  }

  function DigestOf(data: seq<byte>): u64 {
    if data == [] then OFFSET_BASIS else Mix(DigestOf(data[..|data| - 1]), data[|data| - 1])
  }

  /** The digest as the fold that the program runs. */
  method ComputeDigest(data: seq<byte>) returns (hash: u64)
    ensures hash == DigestOf(data)
  {
    hash := OFFSET_BASIS;
    for i := 0 to |data|
      invariant hash == DigestOf(data[..i])
    {
      assert data[..i + 1][..i] == data[..i];
      hash := Mix(hash, data[i]);
    }
    assert data[..|data|] == data;
  }

  // ----- every byte counts

  /** The inverse of the prime modulo 2^64. */
  const INVERSE := 0xce965057aff6957b

  lemma XorStep(a: nat, b: nat, bits: nat)
    requires bits > 0
    ensures Xor(a, b, bits) == 2 * Xor(a / 2, b / 2, bits - 1) + (a % 2 + b % 2) % 2
  {
  }

  lemma XorParts(a: nat, b: nat, bits: nat)
    requires bits > 0
    ensures Half(Xor(a, b, bits)) == Xor(Half(a), Half(b), bits - 1)
    ensures Bit(Xor(a, b, bits)) == BitXor(Bit(a), Bit(b))
  {
  }

  /** A number is its last bit and the rest. */
  function Half(n: nat): nat {
    n / 2
  }

  function Bit(n: nat): (bit: nat)
    ensures bit < 2
  {
    n % 2
  }

  function BitXor(x: nat, y: nat): nat {
    (x + y) % 2
  }

  lemma BitUndone(x: nat, y: nat)
    requires x < 2 && y < 2
    ensures BitXor(BitXor(x, y), y) == x
  {
  }

  lemma SameParts(a: nat, b: nat)
    requires Half(a) == Half(b) && Bit(a) == Bit(b)
    ensures a == b
  {
  }

  lemma HalfFits(a: nat, bits: nat)
    requires bits > 0 && a < Power(bits)
    ensures Half(a) < Power(bits - 1)
  {
  }

  lemma {:induction false} XorUndone(a: nat, b: nat, bits: nat)
    requires a < Power(bits)
    ensures Xor(Xor(a, b, bits), b, bits) == a
  {
    if bits == 0 {
      assert a == 0;
    } else {
      hide Xor, Half, Bit, BitXor, Power;
      var r := Xor(a, b, bits);
      HalfFits(a, bits);
      XorUndone(Half(a), Half(b), bits - 1);
      XorParts(a, b, bits);
      XorParts(r, b, bits);
      BitUndone(Bit(a), Bit(b));
      SameParts(Xor(r, b, bits), a);
    }
  }

  lemma {:induction false} XorCommutes(a: nat, b: nat, bits: nat)
    ensures Xor(a, b, bits) == Xor(b, a, bits)
  {
    if bits > 0 {
      XorCommutes(a / 2, b / 2, bits - 1);
    }
  }

  /** With one operand fixed, exclusive or tells the other operand. */
  lemma Xor8Tells(a: byte, b: byte, c: byte)
    requires Xor8(a, b) == Xor8(c, b) || Xor8(b, a) == Xor8(b, c)
    ensures a == c
  {
    assert Power(8) == 256 by {
      assert Power(8) == 2 * Power(7) && Power(7) == 2 * Power(6) && Power(6) == 2 * Power(5);
      assert Power(5) == 2 * Power(4) && Power(4) == 2 * Power(3) && Power(3) == 2 * Power(2) && Power(2) == 4;
    }
    hide Xor;
    XorUndone(a, b, 8);
    XorUndone(c, b, 8);
    XorCommutes(a, b, 8);
    XorCommutes(c, b, 8);
  }

  /** Multiplication by the prime can be undone. */
  lemma ProductUndone(a: u64)
    ensures WrappingMul(WrappingMul(a, PRIME), INVERSE) == a
  {
    var q := a * 0x100000001b3 / 0x1_0000_0000_0000_0000;
    var r := a * 0x100000001b3 % 0x1_0000_0000_0000_0000;
    InverseUndoes(a, q, r);
    RemainderIs(r * 0xce965057aff6957b, a, a * 887285111055 - q * 0xce965057aff6957b);
  }

  /** All factors are literals, so this is linear. */
  lemma InverseUndoes(a: int, q: int, r: int)
    requires a * 0x100000001b3 == 0x1_0000_0000_0000_0000 * q + r
    ensures r * 0xce965057aff6957b ==
              a + 0x1_0000_0000_0000_0000 * (a * 887285111055 - q * 0xce965057aff6957b)
  {
  }

  lemma RemainderIs(n: int, r: u64, q: int)
    requires n == r + 0x1_0000_0000_0000_0000 * q
    ensures n % 0x1_0000_0000_0000_0000 == r
  {
  }

  lemma LowByteTells(n: u64, m: u64, low: byte, other: byte)
    requires WithLowByte(n, low) == WithLowByte(m, other)
    ensures low == other && n - n % 256 == m - m % 256
  {
  }

  /** One step of the digest tells the byte, given the hash, and the hash, given the byte. */
  lemma MixTells(h: u64, b: byte, g: u64, c: byte)
    requires Mix(h, b) == Mix(g, c)
    ensures h == g <==> b == c
  {
    hide Xor8, WithLowByte, WrappingMul;
    var p, q := WrappingMul(h, PRIME), WrappingMul(g, PRIME);
    LowByteTells(p, q, Xor8(p % 256, b), Xor8(q % 256, c));
    if h == g {
      Xor8Tells(b, p % 256, c);
    }
    if b == c {
      Xor8Tells(p % 256, b, q % 256);
      ProductUndone(h);
      ProductUndone(g);
    }
  }

  /** Changing one byte, and only one, always changes the digest. */
  lemma {:induction false} OneByteChangesDigest(data: seq<byte>, i: nat, b: byte)
    requires i < |data| && b != data[i]
    ensures DigestOf(data[i := b]) != DigestOf(data)
    decreases |data|
  {
    hide Mix;
    var last := |data| - 1;
    var changed := data[i := b];
    if i < last {
      OneByteChangesDigest(data[..last], i, b);
      assert changed[..last] == data[..last][i := b];
      assert changed[last] == data[last];
    } else {
      assert changed[..last] == data[..last];
    }
    if DigestOf(changed) == DigestOf(data) {
      MixTells(DigestOf(changed[..last]), changed[last], DigestOf(data[..last]), data[last]);
      assert false;
    }
  }

  /** The published test vectors of the 64-bit FNV-1 hash for the empty string and for "a". */
  lemma KnownDigests()
    ensures DigestOf([]) == 0xcbf29ce484222325
    ensures DigestOf([0x61]) == 0xaf63bd4c8601b7be
  {
    hide Xor8;
    assert [0x61][..0] == [];
    assert WrappingMul(OFFSET_BASIS, PRIME) == 0xaf63bd4c8601b7df;
    XorKnown();
  }

  lemma XorKnown()
    ensures Xor8(0xdf, 0x61) == 0xbe
  {
    hide Xor;
    XorStep(0xdf, 0x61, 8);
    XorStep(0x6f, 0x30, 7);
    XorStep(0x37, 0x18, 6);
    XorStep(0x1b, 0x0c, 5);
    XorStep(0x0d, 0x06, 4);
    XorStep(0x06, 0x03, 3);
    XorStep(0x03, 0x01, 2);
    XorStep(0x01, 0x00, 1);
    assert Power(0) == 1;
  }
}
