/** Which addresses may be used inside the tunnel (src/vpn_control.rs, the two `valid_..._tunnel_address`). */
module TunnelAddress {
  import opened Bytes

  /** Not unspecified, loopback, link-local, multicast or broadcast. */
  predicate ValidIpv4(a: seq<byte>) {
    && |a| == 4
    && a != [0, 0, 0, 0]
    && a[0] != 127
    && !(a[0] == 169 && a[1] == 254)
    && !(224 <= a[0] < 240)
    && a != [255, 255, 255, 255]
  }

  /** Not unspecified, loopback, link-local (fe80::/10) or multicast (ff00::/8). */
  predicate ValidIpv6(a: seq<byte>) {
    && |a| == 16
    && a != ZEROS_16
    && a != ZEROS_16[15 := 1]
    && !(a[0] == 0xFE && 0x80 <= a[1] < 0xC0)
    && a[0] != 0xFF
  }

  const ZEROS_4: seq<byte> := [0, 0, 0, 0]
  const ZEROS_16: seq<byte> := [0, 0, 0, 0, 0, 0, 0, 0, 0, 0, 0, 0, 0, 0, 0, 0]

  /** By its two halves: zero, 127/8, 169.254/16, 224/4 and the highest address are out, and all others in. */
  lemma Ipv4Exactly(a: seq<byte>)
    requires |a| == 4
    ensures var high, low := Two(a[0], a[1]), Two(a[2], a[3]);
            ValidIpv4(a) <==>
              && !(high == low == 0) && !(high == low == 0xFFFF) && high != 0xA9FE
              && !(0x7F00 <= high <= 0x7FFF) && !(0xE000 <= high <= 0xEFFF)
  {
    assert a == [a[0], a[1], a[2], a[3]];
  }

  /** By its first two bytes: fe80::/10 and ff00::/8 are out, and so are the unspecified and the loopback address. */
  lemma Ipv6Exactly(a: seq<byte>)
    requires |a| == 16
    ensures ValidIpv6(a) <==>
              && Two(a[0], a[1]) < 0xFF00 && !(0xFE80 <= Two(a[0], a[1]) <= 0xFEBF)
              && ((exists i :: 0 <= i < 15 && a[i] != 0) || a[15] > 1)
  {
    if forall i :: 0 <= i < 15 ==> a[i] == 0 {
      assert a == ZEROS_16[15 := a[15]];
    }
  }
}
