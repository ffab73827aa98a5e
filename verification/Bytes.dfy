/**
  Bytes, fixed-width unsigned integers and their big-endian encoding.
  Machine arithmetic that saturates is spelled out here as functions on `nat`.
 */
module Bytes {

  type byte = n: int | 0 <= n < 0x100
  type u16 = n: int | 0 <= n < 0x1_0000
  type u32 = n: int | 0 <= n < 0x1_0000_0000
  type u64 = n: int | 0 <= n < 0x1_0000_0000_0000_0000

  const U16_MAX := 0xFFFF
  const U32_MAX := 0xFFFF_FFFF
  const U64_MAX := 0xFFFF_FFFF_FFFF_FFFF
  const U128_MAX := 0xFFFF_FFFF_FFFF_FFFF_FFFF_FFFF_FFFF_FFFF

  function Min(a: int, b: int): int {
    if a <= b then a else b
  }

  function Max(a: int, b: int): int {
    if a <= b then b else a
  }

  function SatSub(a: nat, b: nat): nat {
    if b <= a then a - b else 0
  }

  /** `u64::saturating_add`, also used for 64-bit `usize` counters. */
  function SatAdd(a: nat, b: nat): nat {
    Min(a + b, U64_MAX)
  }

  /** The number of distinct values of `width` bytes. */
  function Span(width: nat): nat {
    if width == 0 then 1 else 256 * Span(width - 1)
  }

  /** `to_be_bytes`: the low `width` bytes of `n`, most significant first. */
  function ToBe(n: nat, width: nat): (s: seq<byte>)
    ensures |s| == width
  {
    if width == 0 then [] else ToBe(n / 256, width - 1) + [n % 256]
  }

  /** `from_be_bytes`. */
  function FromBe(s: seq<byte>): (n: nat)
    ensures n < Span(|s|)
  {
    if s == [] then 0 else 256 * FromBe(s[..|s| - 1]) + s[|s| - 1]
  }

  lemma {:induction false} FromBeOfToBe(n: nat, width: nat)
    requires n < Span(width)
    ensures FromBe(ToBe(n, width)) == n
  {
    if width != 0 {
      FromBeOfToBe(n / 256, width - 1);
      var s := ToBe(n, width);
      assert s[..|s| - 1] == ToBe(n / 256, width - 1);
    }
  }

  lemma {:induction false} ToBeOfFromBe(s: seq<byte>)
    ensures ToBe(FromBe(s), |s|) == s
  {
    if s != [] {
      ToBeOfFromBe(s[..|s| - 1]);
      assert s == s[..|s| - 1] + [s[|s| - 1]];
    }
  }

  /** The widths used on the wire, with the span in closed form. */
  lemma RoundTrip16(n: u16)
    ensures FromBe(ToBe(n, 2)) == n
  {
    assert Span(2) == 256 * Span(1) && Span(1) == 256 * Span(0);
    FromBeOfToBe(n, 2);
  }

  lemma RoundTrip32(n: u32)
    ensures FromBe(ToBe(n, 4)) == n
  {
    assert Span(4) == 256 * Span(3) && Span(3) == 256 * Span(2) && Span(2) == 256 * Span(1) && Span(1) == 256;
    FromBeOfToBe(n, 4);
  }

  lemma SpanOf8()
    ensures Span(8) == 0x1_0000_0000_0000_0000
  {
    assert Span(8) == 256 * Span(7) && Span(7) == 256 * Span(6) && Span(6) == 256 * Span(5) && Span(5) == 256 * Span(4);
    assert Span(4) == 256 * Span(3) && Span(3) == 256 * Span(2) && Span(2) == 256 * Span(1) && Span(1) == 256;
  }

  lemma RoundTrip64(n: u64)
    ensures FromBe(ToBe(n, 8)) == n
  {
    SpanOf8();
    FromBeOfToBe(n, 8);
  }

  function Be16(s: seq<byte>): (n: u16)
    requires |s| == 2
  {
    assert Span(2) == 256 * Span(1) && Span(1) == 256;
    FromBe(s)
  }

  function Be32(s: seq<byte>): (n: u32)
    requires |s| == 4
  {
    assert Span(4) == 256 * Span(3) && Span(3) == 256 * Span(2) && Span(2) == 256 * Span(1) && Span(1) == 256;
    FromBe(s)
  }

  function Be64(s: seq<byte>): (n: u64)
    requires |s| == 8
  {
    SpanOf8();
    FromBe(s)
  }

  /** The number that bytes spell, most significant first, in plain arithmetic. */
  function Two(a: int, b: int): int {
    256 * a + b
  }

  function Four(a: int, b: int, c: int, d: int): int {
    0x100_0000 * a + 0x1_0000 * b + 256 * c + d
  }

  lemma Be16Parts(s: seq<byte>)
    requires |s| == 2
    ensures Be16(s) == Two(s[0], s[1])
  {
    assert FromBe(s) == 256 * FromBe(s[..1]) + s[1];
    assert FromBe(s[..1]) == 256 * FromBe(s[..1][..0]) + s[0];
  }

  lemma Be32Parts(s: seq<byte>)
    requires |s| == 4
    ensures Be32(s) == Four(s[0], s[1], s[2], s[3])
  {
    assert s[..3][..2] == s[..2];
    Be16Parts(s[..2]);
    assert FromBe(s) == 256 * FromBe(s[..3]) + s[3];
    assert FromBe(s[..3]) == 256 * FromBe(s[..2]) + s[2];
  }

  lemma Be64Parts(s: seq<byte>)
    requires |s| == 8
    ensures Be64(s) == Four(s[0], s[1], s[2], s[3]) * 0x1_0000_0000 + Four(s[4], s[5], s[6], s[7])
  {
    Be32Parts(s[..4]);
    FromBeSnoc(s, 5);
    FromBeSnoc(s, 6);
    FromBeSnoc(s, 7);
    FromBeSnoc(s, 8);
    assert s[..8] == s;
  }

  lemma FromBeSnoc(s: seq<byte>, n: nat)
    requires 0 < n <= |s|
    ensures FromBe(s[..n]) == 256 * FromBe(s[..n - 1]) + s[n - 1]
  {
    assert s[..n][..n - 1] == s[..n - 1];
  }

  /** The ceiling of `a / b`, Rust's `div_ceil`. */
  function DivCeil(a: nat, b: nat): nat
    requires b > 0
  {
    (a + b - 1) / b
  }
}
