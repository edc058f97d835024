/**
 * IPv4 prefix matching (RFC 4632 section 3.1). Both rule engines carry the
 * same two helpers, `is_subnet` and `ipv4_subnet_mask`
 * (proxy-rules/src/lib.rs and src/rule/rules.rs); they are modelled once here.
 */
module Cidr {
  import opened Wrappers
  import opened Text
  import opened IpAddrs

  /** The octet whose `k` leading bits are set. */
  function OctetMask(k: nat): bv8
    requires k <= 8
  {
    if k == 0 then 0x00 else if k == 1 then 0x80 else if k == 2 then 0xc0
    else if k == 3 then 0xe0 else if k == 4 then 0xf0 else if k == 5 then 0xf8
    else if k == 6 then 0xfc else if k == 7 then 0xfe else 0xff
  }

  /** How many leading bits of octet `i` a prefix of `mask` bits covers. */
  function PrefixBits(mask: nat, i: nat): (k: nat)
    ensures k <= 8
    ensures mask >= 8 * (i + 1) ==> k == 8
    ensures mask <= 8 * i ==> k == 0
    ensures 8 * i <= mask <= 8 * (i + 1) ==> k == mask - 8 * i
  {
    if mask >= 8 * (i + 1) then 8 else if mask <= 8 * i then 0 else mask - 8 * i
  }

  /** The leading `k` bits of an octet. */
  function Top(o: bv8, k: nat): bv8
    requires k <= 8
  {
    o >> (8 - k)
  }

  /**
   * The first `mask` bits of two addresses agree: the prefix relation of
   * RFC 4632 section 3.1, read octet by octet (a mask of 32 or more is the whole address).
   */
  ghost predicate SamePrefix(a: Ipv4, b: Ipv4, mask: nat)
  {
    PrefixEq(Bits(a), Bits(b), mask)
  }

  ghost predicate PrefixEq(x: seq<bv8>, y: seq<bv8>, mask: nat)
    requires |x| == 4 && |y| == 4
  {
    forall i :: 0 <= i < 4 ==> Top(x[i], PrefixBits(mask, i)) == Top(y[i], PrefixBits(mask, i))
  }

  /** `Ipv4Addr::octets` as the `u8` values the mask is applied to. */
  function Bits(ip: Ipv4): (r: seq<bv8>)
    ensures |r| == 4
  {
    [ip.a as bv8, ip.b as bv8, ip.c as bv8, ip.d as bv8]
  }

  function MaskTable(n: nat): seq<bv8>
    requires n < 4
  {
    if n == 0 then [0x00, 0x00, 0x00, 0x00]
    else if n == 1 then [0xff, 0x00, 0x00, 0x00]
    else if n == 2 then [0xff, 0xff, 0x00, 0x00]
    else [0xff, 0xff, 0xff, 0x00]
  }

  /**
   * `ipv4_subnet_mask` as the source writes it: the octet for the remaining
   * `mask % 8` bits is stored at index `mask / 8 + 1` instead of `mask / 8`.
   * None is the out-of-bounds panic, which index 4 raises for masks 24 to 31.
   */
  function Ipv4SubnetMaskAsWritten(mask: nat): (r: Option<seq<bv8>>)
    ensures r.None? <==> 24 <= mask < 32
    ensures r.Some? ==> |r.value| == 4
  {
    var n := mask / 8;
    var m := mask % 8;
    if n >= 4 then Some([0xff, 0xff, 0xff, 0xff])
    else if n + 1 < 4 then Some(MaskTable(n)[n + 1 := OctetMask(m)])
    else None
  }

  /** The prefix mask the function evidently means: octet `i` keeps its `PrefixBits(mask, i)` leading bits. */
  function Ipv4SubnetMask(mask: nat): (r: seq<bv8>)
    ensures |r| == 4
    ensures forall i :: 0 <= i < 4 ==> r[i] == OctetMask(PrefixBits(mask, i))
  {
    var n := mask / 8;
    var m := mask % 8;
    assert mask == 8 * n + m;
    if n >= 4 then [0xff, 0xff, 0xff, 0xff]
    else MaskTable(n)[n := OctetMask(m)]
  }

  /** The two agree exactly on masks that are a multiple of 8 below 24, and on masks of 32 or more. */
  lemma SubnetMaskAsWrittenAgrees(mask: nat)
    requires (mask % 8 == 0 && mask < 24) || mask >= 32
    ensures Ipv4SubnetMaskAsWritten(mask) == Some(Ipv4SubnetMask(mask))
  {
    var r := Ipv4SubnetMask(mask);
    if mask < 32 {
      assert mask == 0 || mask == 8 || mask == 16;
      var n := mask / 8;
      var w := MaskTable(n)[n + 1 := OctetMask(0)];
      assert Ipv4SubnetMaskAsWritten(mask) == Some(w);
      assert r[0] == w[0] && r[1] == w[1] && r[2] == w[2] && r[3] == w[3];
      assert r == w;
    }
  }

  /** Any other mask below 24 leaves the partial octet empty and puts its bits in the next octet. */
  lemma SubnetMaskAsWrittenShifted(mask: nat)
    requires mask % 8 != 0 && mask < 24
    ensures Ipv4SubnetMaskAsWritten(mask).Some?
    ensures Ipv4SubnetMaskAsWritten(mask).value[mask / 8] == 0x00
    ensures Ipv4SubnetMaskAsWritten(mask).value[mask / 8 + 1] == OctetMask(mask % 8)
    ensures Ipv4SubnetMaskAsWritten(mask) != Some(Ipv4SubnetMask(mask))
  {
    var n := mask / 8;
    assert Ipv4SubnetMask(mask)[n] == OctetMask(mask % 8);
  }

  /** The masks of an AND agree exactly when the covered leading bits agree. */
  lemma AndMaskIsPrefix(x: bv8, y: bv8, k: nat)
    requires k <= 8
    ensures (x & OctetMask(k) == y & OctetMask(k)) <==> (x >> (8 - k) == y >> (8 - k))
  {
    if k == 0 {
    } else if k == 1 {
    } else if k == 2 {
    } else if k == 3 {
    } else if k == 4 {
    } else if k == 5 {
    } else if k == 6 {
    } else if k == 7 {
    } else {
    }
  }

  /** `a & m == b & m` on one octet. */
  predicate MaskedEq(a: bv8, b: bv8, m: bv8)
  {
    a & m == b & m
  }

  /** The four masked comparisons of `is_subnet`. */
  predicate MaskedOctetsEq(net: seq<bv8>, sub: seq<bv8>, sm: seq<bv8>)
    requires |net| == 4 && |sub| == 4 && |sm| == 4
  {
    MaskedEq(net[0], sub[0], sm[0]) && MaskedEq(net[1], sub[1], sm[1])
    && MaskedEq(net[2], sub[2], sm[2]) && MaskedEq(net[3], sub[3], sm[3])
  }

  lemma MaskedOctetPrefix(x: bv8, y: bv8, mask: nat, i: nat)
    requires i < 4
    ensures MaskedEq(x, y, Ipv4SubnetMask(mask)[i]) <==> Top(x, PrefixBits(mask, i)) == Top(y, PrefixBits(mask, i))
  {
    var k := PrefixBits(mask, i);
    var m := Ipv4SubnetMask(mask)[i];
    assert m == OctetMask(k);
    OctetPrefix(x, y, k, m);
  }

  lemma OctetPrefix(x: bv8, y: bv8, k: nat, m: bv8)
    requires k <= 8 && m == OctetMask(k)
    ensures MaskedEq(x, y, m) <==> Top(x, k) == Top(y, k)
  {
    AndMaskIsPrefix(x, y, k);
  }

  lemma MaskedOctetsArePrefix(x: seq<bv8>, y: seq<bv8>, mask: nat)
    requires |x| == 4 && |y| == 4
    ensures MaskedOctetsEq(x, y, Ipv4SubnetMask(mask)) <==> PrefixEq(x, y, mask)
  {
    MaskedOctetPrefix(x[0], y[0], mask, 0);
    MaskedOctetPrefix(x[1], y[1], mask, 1);
    MaskedOctetPrefix(x[2], y[2], mask, 2);
    MaskedOctetPrefix(x[3], y[3], mask, 3);
    PrefixEqFour(x, y, mask);
  }

  /** `PrefixEq` octet by octet. */
  lemma PrefixEqFour(x: seq<bv8>, y: seq<bv8>, mask: nat)
    requires |x| == 4 && |y| == 4
    ensures PrefixEq(x, y, mask)
            <==> Top(x[0], PrefixBits(mask, 0)) == Top(y[0], PrefixBits(mask, 0))
                 && Top(x[1], PrefixBits(mask, 1)) == Top(y[1], PrefixBits(mask, 1))
                 && Top(x[2], PrefixBits(mask, 2)) == Top(y[2], PrefixBits(mask, 2))
                 && Top(x[3], PrefixBits(mask, 3)) == Top(y[3], PrefixBits(mask, 3))
  {
    if Top(x[0], PrefixBits(mask, 0)) == Top(y[0], PrefixBits(mask, 0))
       && Top(x[1], PrefixBits(mask, 1)) == Top(y[1], PrefixBits(mask, 1))
       && Top(x[2], PrefixBits(mask, 2)) == Top(y[2], PrefixBits(mask, 2))
       && Top(x[3], PrefixBits(mask, 3)) == Top(y[3], PrefixBits(mask, 3))
    {
      forall i | 0 <= i < 4 ensures Top(x[i], PrefixBits(mask, i)) == Top(y[i], PrefixBits(mask, i)) {
        if i == 0 { } else if i == 1 { } else if i == 2 { } else { }
      }
    }
  }

  /**
   * `is_subnet` with an IPv4 subnet and the corrected mask: an IPv4 address is
   * in the subnet exactly when its first `mask` bits are the subnet's, and an
   * IPv6 address never is. An IPv6 subnet is `unimplemented!()` in the source.
   */
  function IsSubnet(ip: IpAddr, subnet: IpAddr, mask: nat): (r: bool)
    requires subnet.V4?
    ensures ip.V6? ==> !r
    ensures ip.V4? ==> (r <==> SamePrefix(ip.v4, subnet.v4, mask))
  {
    match ip
    case V6(_) => false
    case V4(net) =>
      MaskedOctetsArePrefix(Bits(net), Bits(subnet.v4), mask);
      MaskedOctetsEq(Bits(net), Bits(subnet.v4), Ipv4SubnetMask(mask))
  }

  /** `is_subnet` over the mask as written; None is the panic of the mask builder. */
  function IsSubnetAsWritten(ip: IpAddr, subnet: IpAddr, mask: nat): (r: Option<bool>)
    requires subnet.V4?
    ensures r.None? <==> ip.V4? && 24 <= mask < 32
    ensures ip.V6? ==> r == Some(false)
  {
    match ip
    case V6(_) => Some(false)
    case V4(net) =>
      match Ipv4SubnetMaskAsWritten(mask)
      case None => None
      case Some(sm) => Some(MaskedOctetsEq(Bits(net), Bits(subnet.v4), sm))
  }

  /**
   * Which matchers the rule engines use: the source's, or the corrected
   * ones of this model (here the prefix mask; in `ProxyRules` also the
   * domain tests on the host part).
   */
  datatype Matching = AsWritten | Corrected

  /**
   * The panics of `is_subnet`: `unimplemented!()` for an IPv6 subnet, and
   * the mask builder as written indexing past its array (masks 24 to 31).
   */
  datatype Panic = Unimplemented | MaskOutOfBounds

  /** `is_subnet` with its panics, over the mask as written or the corrected one. */
  function Subnet(ip: IpAddr, subnet: IpAddr, mask: nat, m: Matching): (r: Result<bool, Panic>)
    ensures r == Err(Unimplemented) <==> subnet.V6?
    ensures r == Err(MaskOutOfBounds) <==> subnet.V4? && ip.V4? && m == AsWritten && 24 <= mask < 32
    ensures subnet.V4? && m == Corrected ==> r == Ok(IsSubnet(ip, subnet, mask))
    ensures subnet.V4? && ip.V6? ==> r == Ok(false)
  {
    if subnet.V6? then Err(Unimplemented)
    else if m == Corrected then Ok(IsSubnet(ip, subnet, mask))
    else
      assert m == AsWritten;
      match IsSubnetAsWritten(ip, subnet, mask)
      case None => Err(MaskOutOfBounds)
      case Some(b) => Ok(b)
  }

  /** As written, `is_subnet` agrees with the prefix test on masks of 0, 8, 16 and 32 or more. */
  lemma SubnetAsWrittenAgrees(a: Ipv4, subnet: Ipv4, mask: nat)
    requires (mask % 8 == 0 && mask < 24) || mask >= 32
    ensures Subnet(V4(a), V4(subnet), mask, AsWritten) == Ok(SamePrefix(a, subnet, mask))
  {
    SubnetMaskAsWrittenAgrees(mask);
    assert IsSubnetAsWritten(V4(a), V4(subnet), mask) == Some(IsSubnet(V4(a), V4(subnet), mask));
  }

  /**
   * Two inputs that show the defect: 10.0.0.1 is reported inside 10.16.0.0/12
   * (which spans 10.16.0.0 to 10.31.255.255), and any IPv4 address against a
   * /24 subnet panics.
   */
  lemma IsSubnetAsWrittenWrong()
    ensures IsSubnetAsWritten(V4(Ipv4(10, 0, 0, 1)), V4(Ipv4(10, 16, 0, 0)), 12) == Some(true)
    ensures !IsSubnet(V4(Ipv4(10, 0, 0, 1)), V4(Ipv4(10, 16, 0, 0)), 12)
    ensures IsSubnetAsWritten(V4(Ipv4(192, 168, 1, 7)), V4(Ipv4(192, 168, 1, 0)), 24).None?
    ensures IsSubnet(V4(Ipv4(192, 168, 1, 7)), V4(Ipv4(192, 168, 1, 0)), 24)
  {
    SlashTwelveAsWritten();
    SlashTwelve();
    SlashTwentyFour();
  }

  lemma SlashTwelveAsWritten()
    ensures IsSubnetAsWritten(V4(Ipv4(10, 0, 0, 1)), V4(Ipv4(10, 16, 0, 0)), 12) == Some(true)
  {
    assert 12 / 8 == 1 && 12 % 8 == 4;
    var sm := MaskTable(1)[2 := OctetMask(4)];
    assert Ipv4SubnetMaskAsWritten(12) == Some(sm);
    assert sm[0] == 0xff && sm[1] == 0x00 && sm[2] == 0xf0 && sm[3] == 0x00;
  }

  lemma SlashTwelve()
    ensures !IsSubnet(V4(Ipv4(10, 0, 0, 1)), V4(Ipv4(10, 16, 0, 0)), 12)
  {
    assert 12 / 8 == 1 && 12 % 8 == 4;
    assert Ipv4SubnetMask(12)[1] == 0xf0;
  }

  lemma SlashTwentyFour()
    ensures IsSubnetAsWritten(V4(Ipv4(192, 168, 1, 7)), V4(Ipv4(192, 168, 1, 0)), 24).None?
    ensures IsSubnet(V4(Ipv4(192, 168, 1, 7)), V4(Ipv4(192, 168, 1, 0)), 24)
  {
    SlashTwentyFourPrefix(Ipv4(192, 168, 1, 7), Ipv4(192, 168, 1, 0));
  }

  lemma SlashTwentyFourPrefix(a: Ipv4, b: Ipv4)
    requires a.a == b.a && a.b == b.b && a.c == b.c
    ensures IsSubnet(V4(a), V4(b), 24)
  {
    var x, y := Bits(a), Bits(b);
    assert x[..3] == y[..3];
    LastOctetFree(x, y);
  }

  /** Addresses that agree on their first three octets share a 24-bit prefix. */
  lemma LastOctetFree(x: seq<bv8>, y: seq<bv8>)
    requires |x| == 4 && |y| == 4 && x[..3] == y[..3]
    ensures PrefixEq(x, y, 24)
  {
    forall i | 0 <= i < 4 ensures Top(x[i], PrefixBits(24, i)) == Top(y[i], PrefixBits(24, i)) {
      if i < 3 {
        assert x[i] == x[..3][i];
      } else {
        TopNone(x[i], y[i]);
      }
    }
  }

  /** A zero-length prefix holds every IPv4 address. */
  lemma ZeroMaskMatchesAll(a: Ipv4, b: Ipv4)
    ensures IsSubnet(V4(a), V4(b), 0)
  {
    TopNone(a.a as bv8, b.a as bv8);
    TopNone(a.b as bv8, b.b as bv8);
    TopNone(a.c as bv8, b.c as bv8);
    TopNone(a.d as bv8, b.d as bv8);
  }

  lemma TopNone(x: bv8, y: bv8)
    ensures Top(x, 0) == Top(y, 0)
  {
  }

  lemma TopAll(x: bv8)
    ensures Top(x, 8) == x
  {
  }

  lemma Bv8RoundTrip(x: Byte)
    ensures (x as bv8) as int == x
  {
    // The solver finds the conversion easier on quarters of the range.
    if x < 128 {
      if x < 64 { } else { }
    } else {
      if x < 192 { } else { }
    }
  }

  lemma ByteAsBv8(x: Byte, y: Byte)
    requires Top(x as bv8, 8) == Top(y as bv8, 8)
    ensures x == y
  {
    TopAll(x as bv8);
    TopAll(y as bv8);
    Bv8RoundTrip(x);
    Bv8RoundTrip(y);
  }

  /** A prefix of 32 bits or more holds only the subnet address itself. */
  lemma FullMaskIsEquality(a: Ipv4, b: Ipv4, mask: nat)
    requires mask >= 32
    ensures IsSubnet(V4(a), V4(b), mask) <==> a == b
  {
    if IsSubnet(V4(a), V4(b), mask) {
      ByteAsBv8(a.a, b.a);
      ByteAsBv8(a.b, b.b);
      ByteAsBv8(a.c, b.c);
      ByteAsBv8(a.d, b.d);
    }
  }
}
