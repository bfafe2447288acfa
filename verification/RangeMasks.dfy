/**
 The IPv4 mask forms of a range: `netmaskV4` (Networking/src/IpAddress.cpp) and the 32-bit pair that
 `addRangeFilter` (Firewall/src/WfpEngine.cpp) hands to the filtering platform.
 */
module RangeMasks {
  import opened Types
  import opened Bits
  import opened Wrappers
  import opened IpText
  import opened IpRanges

  function Octet(b: Byte): bv8 { b as bv8 }

  /** Four octets as one 32-bit word, first octet highest. */
  function Packed(q: seq<Byte>): bv32
    requires |q| == 4
  {
    Cat(Octet(q[0]), Octet(q[1]), Octet(q[2]), Octet(q[3]))
  }

  /** The mask `addRangeFilter` computes; a shift by 32 is avoided for prefix 0. */
  function FilterMask(prefix: nat): bv32
    requires prefix <= 32
  {
    if prefix == 0 then 0 else (0xFFFF_FFFF as bv32) << (32 - prefix)
  }

  /** How the platform matches an address against an address and mask. */
  predicate FilterMatches(network: bv32, mask: bv32, address: bv32) {
    address & mask == network & mask
  }

  function ByteMask(keep: int): bv8 {
    if keep <= 0 then 0 else if keep < 8 then HighMask(keep) else 0xFF
  }

  lemma AllOrNothing(b: bv8)
    ensures b & 0 == 0 && b & 0xFF == b
  {
  }

  lemma AndIsBits(b: Byte, m: bv8)
    ensures Octet(And(b, m)) == Octet(b) & m
  {
    FromBits(Octet(b) & m);
  }

  lemma MaskByteIsAnd(b: Byte, keep: int)
    ensures Octet(MaskByte(b, keep)) == Octet(b) & ByteMask(keep)
  {
    hide HighMask, And;
    AllOrNothing(Octet(b));
    if 0 < keep < 8 {
      AndIsBits(b, HighMask(keep));
    }
  }

  lemma BitsInjective(a: Byte, b: Byte)
    ensures Octet(a) == Octet(b) <==> a == b
  {
    ToBits(a);
    ToBits(b);
  }

  lemma SameMasked(a: Byte, b: Byte, keep: int)
    ensures MaskByte(a, keep) == MaskByte(b, keep) <==> SameBits(a, b, keep)
  {
    hide MaskByte, ByteMask, Octet;
    MaskByteIsAnd(a, keep);
    MaskByteIsAnd(b, keep);
    BitsInjective(MaskByte(a, keep), MaskByte(b, keep));
  }

  predicate SameUnder(a: bv8, b: bv8, m: bv8) { a & m == b & m }

  lemma SameWord(a0: bv8, a1: bv8, a2: bv8, a3: bv8, b0: bv8, b1: bv8, b2: bv8, b3: bv8, m0: bv8, m1: bv8, m2: bv8,
      m3: bv8)
    ensures FilterMatches(Cat(b0, b1, b2, b3), Cat(m0, m1, m2, m3), Cat(a0, a1, a2, a3)) <==>
      (SameUnder(a0, b0, m0) && SameUnder(a1, b1, m1) && SameUnder(a2, b2, m2) && SameUnder(a3, b3, m3))
  {
    hide Cat;
    CatAnd(a0, a1, a2, a3, m0, m1, m2, m3);
    CatAnd(b0, b1, b2, b3, m0, m1, m2, m3);
    if FilterMatches(Cat(b0, b1, b2, b3), Cat(m0, m1, m2, m3), Cat(a0, a1, a2, a3)) {
      CatInjective(a0 & m0, a1 & m1, a2 & m2, a3 & m3, b0 & m0, b1 & m1, b2 & m2, b3 & m3);
    }
  }

  function MaskWord(prefix: int): bv32 {
    Cat(ByteMask(prefix), ByteMask(prefix - 8), ByteMask(prefix - 16), ByteMask(prefix - 24))
  }

  lemma FilterMaskBytes1(prefix: nat)
    requires prefix <= 8
    ensures FilterMask(prefix) == MaskWord(prefix)
  {
    Masks();
    if prefix == 1 {} else if prefix == 2 {} else if prefix == 3 {} else if prefix == 4 {}
    else if prefix == 5 {} else if prefix == 6 {} else if prefix == 7 {} else if prefix == 8 {}
  }

  lemma FilterMaskBytes2(prefix: nat)
    requires 8 < prefix <= 16
    ensures FilterMask(prefix) == MaskWord(prefix)
  {
    Masks();
    if prefix == 9 {} else if prefix == 10 {} else if prefix == 11 {} else if prefix == 12 {}
    else if prefix == 13 {} else if prefix == 14 {} else if prefix == 15 {} else {}
  }

  lemma FilterMaskBytes3(prefix: nat)
    requires 16 < prefix <= 24
    ensures FilterMask(prefix) == MaskWord(prefix)
  {
    Masks();
    if prefix == 17 {} else if prefix == 18 {} else if prefix == 19 {} else if prefix == 20 {}
    else if prefix == 21 {} else if prefix == 22 {} else if prefix == 23 {} else {}
  }

  lemma FilterMaskBytes4(prefix: nat)
    requires 24 < prefix <= 32
    ensures FilterMask(prefix) == MaskWord(prefix)
  {
    Masks();
    if prefix == 25 {} else if prefix == 26 {} else if prefix == 27 {} else if prefix == 28 {}
    else if prefix == 29 {} else if prefix == 30 {} else if prefix == 31 {} else {}
  }

  lemma FilterMaskBytes(prefix: nat)
    requires prefix <= 32
    ensures FilterMask(prefix) == MaskWord(prefix)
  {
    hide FilterMask, MaskWord;
    if prefix <= 8 { FilterMaskBytes1(prefix); }
    else if prefix <= 16 { FilterMaskBytes2(prefix); }
    else if prefix <= 24 { FilterMaskBytes3(prefix); }
    else { FilterMaskBytes4(prefix); }
  }

  predicate SameByByte(x: seq<Byte>, n: seq<Byte>, p: int)
    requires |x| == 4 && |n| == 4
  {
    && MaskByte(x[0], p) == MaskByte(n[0], p)
    && MaskByte(x[1], p - 8) == MaskByte(n[1], p - 8)
    && MaskByte(x[2], p - 16) == MaskByte(n[2], p - 16)
    && MaskByte(x[3], p - 24) == MaskByte(n[3], p - 24)
  }

  predicate SameBits(a: Byte, b: Byte, keep: int) {
    SameUnder(Octet(a), Octet(b), ByteMask(keep))
  }

  lemma FilterByBits(x: seq<Byte>, n: seq<Byte>, p: int)
    requires |x| == 4 && |n| == 4 && 0 <= p <= 32
    ensures FilterMatches(Packed(n), FilterMask(p), Packed(x)) <==>
      (SameBits(x[0], n[0], p) && SameBits(x[1], n[1], p - 8) && SameBits(x[2], n[2], p - 16)
        && SameBits(x[3], n[3], p - 24))
  {
    hide FilterMatches, FilterMask, Cat, Octet, ByteMask, SameUnder;
    FilterMaskBytes(p);
    SameWord(Octet(x[0]), Octet(x[1]), Octet(x[2]), Octet(x[3]), Octet(n[0]), Octet(n[1]), Octet(n[2]), Octet(n[3]),
      ByteMask(p), ByteMask(p - 8), ByteMask(p - 16), ByteMask(p - 24));
  }

  lemma FilterByByte(x: seq<Byte>, n: seq<Byte>, p: int)
    requires |x| == 4 && |n| == 4 && 0 <= p <= 32
    ensures FilterMatches(Packed(n), FilterMask(p), Packed(x)) <==> SameByByte(x, n, p)
  {
    hide FilterMatches, FilterMask, Packed, SameBits, MaskByte;
    FilterByBits(x, n, p);
    SameMasked(x[0], n[0], p);
    SameMasked(x[1], n[1], p - 8);
    SameMasked(x[2], n[2], p - 16);
    SameMasked(x[3], n[3], p - 24);
  }

  /** The filter built from an IPv4 range matches exactly the addresses the range contains. */
  lemma FilterAgrees(r: IpRange, a: IpAddress)
    requires r.network.V4? && a.V4?
    ensures FilterMatches(Packed(r.network.octets), FilterMask(r.prefix), Packed(a.octets)) <==> Covers(r, a)
  {
    hide FilterMatches, FilterMask, Packed, SameByByte, MaskBytes;
    FilterByByte(a.octets, r.network.octets, r.prefix);
    FourBytes(a.octets, r.network.octets, r.prefix);
  }

  lemma FourBytes(x: seq<Byte>, n: seq<Byte>, p: nat)
    requires |x| == 4 && |n| == 4
    ensures MaskBytes(x, p) == MaskBytes(n, p) <==> SameByByte(x, n, p)
  {
    hide MaskByte;
    var s, t := MaskBytes(x, p), MaskBytes(n, p);
    assert s[0] == MaskByte(x[0], p) && s[1] == MaskByte(x[1], p - 8);
    assert s[2] == MaskByte(x[2], p - 16) && s[3] == MaskByte(x[3], p - 24);
    assert t[0] == MaskByte(n[0], p) && t[1] == MaskByte(n[1], p - 8);
    assert t[2] == MaskByte(n[2], p - 16) && t[3] == MaskByte(n[3], p - 24);
  }

  function NetmaskOctet(keep: int): Byte { ByteMask(keep) as int }

  /** `netmaskV4`: none for IPv6, else the dotted form of the very mask the filter uses. */
  method NetmaskV4(range: IpRange) returns (r: Option<IpAddress>)
    ensures r.Some? <==> range.network.V4?
    ensures r.Some? ==> r.value.V4? && Packed(r.value.octets) == FilterMask(range.prefix)
  {
    hide Packed, FilterMask, HighMask;
    if !range.network.V4? {
      return None;
    }
    var mask := new Byte[4](i => 0);
    var remaining := range.prefix as int;
    for i := 0 to 4
      invariant remaining == if range.prefix >= 8 * i then range.prefix - 8 * i else 0
      invariant forall j | 0 <= j < 4 :: mask[j] == if j < i then NetmaskOctet(range.prefix - 8 * j) else 0
    {
      if remaining >= 8 {
        mask[i] := 0xFF;
        remaining := remaining - 8;
      } else if remaining > 0 {
        mask[i] := HighMask(remaining) as int;
        remaining := 0;
      }
    }
    var octets := mask[..];
    NetmaskIsFilterMask(octets, range.prefix);
    return Some(V4(octets));
  }

  lemma NetmaskIsFilterMask(q: seq<Byte>, prefix: nat)
    requires |q| == 4 && prefix <= 32
    requires forall j | 0 <= j < 4 :: q[j] == NetmaskOctet(prefix - 8 * j)
    ensures Packed(q) == FilterMask(prefix)
  {
    hide Cat, FilterMask, ByteMask;
    FilterMaskBytes(prefix);
    FromBits(ByteMask(prefix));
    FromBits(ByteMask(prefix - 8));
    FromBits(ByteMask(prefix - 16));
    FromBits(ByteMask(prefix - 24));
    assert q[0] == NetmaskOctet(prefix - 8 * 0);
    assert q[1] == NetmaskOctet(prefix - 8 * 1);
    assert q[2] == NetmaskOctet(prefix - 8 * 2);
    assert q[3] == NetmaskOctet(prefix - 8 * 3);
  }
}
