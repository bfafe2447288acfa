/** One byte as bits: what `&` and `|` with the masks of a prefix do to its value. */
module Bits {

  lemma AddOne(x: bv8)
    requires x as nat < 255
    ensures (x + 1) as nat == x as nat + 1
  {
  }

  lemma {:induction false} SomeBits(b: nat) returns (x: bv8)
    requires b < 256
    ensures x as nat == b
  {
    if b == 0 {
      x := 0;
    } else {
      var y := SomeBits(b - 1);
      AddOne(y);
      x := y + 1;
    }
  }

  lemma ToBits(b: nat)
    requires b < 256
    ensures (b as bv8) as nat == b
  {
    var x := SomeBits(b);
    FromBits(x);
  }

  lemma High1(b: bv8) ensures (b & 0x80) as int == b as int / 128 * 128 {}
  lemma High2(b: bv8) ensures (b & 0xC0) as int == b as int / 64 * 64 {}
  lemma High3(b: bv8) ensures (b & 0xE0) as int == b as int / 32 * 32 {}
  lemma High4(b: bv8) ensures (b & 0xF0) as int == b as int / 16 * 16 {}
  lemma High5(b: bv8) ensures (b & 0xF8) as int == b as int / 8 * 8 {}
  lemma High6(b: bv8) ensures (b & 0xFC) as int == b as int / 4 * 4 {}
  lemma High7(b: bv8) ensures (b & 0xFE) as int == b as int / 2 * 2 {}
  lemma Low1(b: bv8) ensures (b | 0x7F) as int == b as int / 128 * 128 + 127 {}
  lemma Low2(b: bv8) ensures (b | 0x3F) as int == b as int / 64 * 64 + 63 {}
  lemma Low3(b: bv8) ensures (b | 0x1F) as int == b as int / 32 * 32 + 31 {}
  lemma Low4(b: bv8) ensures (b | 0x0F) as int == b as int / 16 * 16 + 15 {}
  lemma Low5(b: bv8) ensures (b | 0x07) as int == b as int / 8 * 8 + 7 {}
  lemma Low6(b: bv8) ensures (b | 0x03) as int == b as int / 4 * 4 + 3 {}
  lemma Low7(b: bv8) ensures (b | 0x01) as int == b as int / 2 * 2 + 1 {}

  lemma FromBits(b: bv8)
    ensures (b as int) as bv8 == b
  {
  }

  /** Four bytes as one word, first byte highest. */
  function Cat(b0: bv8, b1: bv8, b2: bv8, b3: bv8): bv32 {
    ((b0 as bv32) << 24) | ((b1 as bv32) << 16) | ((b2 as bv32) << 8) | (b3 as bv32)
  }

  lemma CatAnd(a0: bv8, a1: bv8, a2: bv8, a3: bv8, m0: bv8, m1: bv8, m2: bv8, m3: bv8)
    ensures Cat(a0, a1, a2, a3) & Cat(m0, m1, m2, m3) == Cat(a0 & m0, a1 & m1, a2 & m2, a3 & m3)
  {
  }

  lemma CatInjective(a0: bv8, a1: bv8, a2: bv8, a3: bv8, b0: bv8, b1: bv8, b2: bv8, b3: bv8)
    requires Cat(a0, a1, a2, a3) == Cat(b0, b1, b2, b3)
    ensures a0 == b0 && a1 == b1 && a2 == b2 && a3 == b3
  {
  }
}

/**
 Address ranges (Networking/src/IpAddress.cpp): masking, containment and the last address are computed
 byte by byte; here they are shown to be what section 3.1 of RFC 4632 means numerically.
 */
module IpRanges {
  import opened Types
  import opened Wrappers
  import opened StringUtil
  import opened Digits
  import opened IpText
  import opened IpV6Text
  import opened IpV6Format
  import opened Bits

  // ---------- bit operations on one byte ----------

  function And(a: Byte, m: bv8): Byte { ((a as bv8) & m) as int }

  function Or(a: Byte, m: bv8): Byte { ((a as bv8) | m) as int }

  /** `0xFF << (8 - keep)`, narrowed to a byte. */
  function HighMask(keep: nat): bv8
    requires keep <= 8
  {
    (0xFF as bv8) << (8 - keep)
  }

  /** `0xFF >> keep`. */
  function LowMask(keep: nat): bv8
    requires keep <= 8
  {
    (0xFF as bv8) >> keep
  }

  /** The byte with only its first `keep` bits left standing. */
  function MaskByte(b: Byte, keep: int): Byte {
    if keep <= 0 then 0 else if keep < 8 then And(b, HighMask(keep)) else b
  }

  /** The byte with every bit after the first `keep` set. */
  function FillByte(b: Byte, keep: int): Byte {
    if keep <= 0 then 0xFF else if keep < 8 then Or(b, LowMask(keep)) else b
  }

  lemma And1(b: Byte) ensures And(b, 0x80) == b / 128 * 128 { ToBits(b); High1(b as bv8); }
  lemma And2(b: Byte) ensures And(b, 0xC0) == b / 64 * 64 { ToBits(b); High2(b as bv8); }
  lemma And3(b: Byte) ensures And(b, 0xE0) == b / 32 * 32 { ToBits(b); High3(b as bv8); }
  lemma And4(b: Byte) ensures And(b, 0xF0) == b / 16 * 16 { ToBits(b); High4(b as bv8); }
  lemma And5(b: Byte) ensures And(b, 0xF8) == b / 8 * 8 { ToBits(b); High5(b as bv8); }
  lemma And6(b: Byte) ensures And(b, 0xFC) == b / 4 * 4 { ToBits(b); High6(b as bv8); }
  lemma And7(b: Byte) ensures And(b, 0xFE) == b / 2 * 2 { ToBits(b); High7(b as bv8); }
  lemma Or1(b: Byte) ensures Or(b, 0x7F) == b / 128 * 128 + 127 { ToBits(b); Low1(b as bv8); }
  lemma Or2(b: Byte) ensures Or(b, 0x3F) == b / 64 * 64 + 63 { ToBits(b); Low2(b as bv8); }
  lemma Or3(b: Byte) ensures Or(b, 0x1F) == b / 32 * 32 + 31 { ToBits(b); Low3(b as bv8); }
  lemma Or4(b: Byte) ensures Or(b, 0x0F) == b / 16 * 16 + 15 { ToBits(b); Low4(b as bv8); }
  lemma Or5(b: Byte) ensures Or(b, 0x07) == b / 8 * 8 + 7 { ToBits(b); Low5(b as bv8); }
  lemma Or6(b: Byte) ensures Or(b, 0x03) == b / 4 * 4 + 3 { ToBits(b); Low6(b as bv8); }
  lemma Or7(b: Byte) ensures Or(b, 0x01) == b / 2 * 2 + 1 { ToBits(b); Low7(b as bv8); }

  /** 2 to the power of the bits of a byte that are not kept. */
  function HostSize(keep: nat): (n: nat)
    requires keep <= 8
    ensures n > 0
  {
    [256, 128, 64, 32, 16, 8, 4, 2, 1][keep]
  }

  lemma HostSizeIsPower(keep: nat)
    requires keep <= 8
    ensures HostSize(keep) == Power(2, 8 - keep)
  {
    assert Power(2, 1) == 2 && Power(2, 2) == 4 && Power(2, 3) == 8 && Power(2, 4) == 16;
    assert Power(2, 5) == 32 && Power(2, 6) == 64 && Power(2, 7) == 128 && Power(2, 8) == 256;
  }

  lemma Masks()
    ensures HighMask(1) == 0x80 && HighMask(2) == 0xC0 && HighMask(3) == 0xE0 && HighMask(4) == 0xF0
    ensures HighMask(5) == 0xF8 && HighMask(6) == 0xFC && HighMask(7) == 0xFE
    ensures LowMask(1) == 0x7F && LowMask(2) == 0x3F && LowMask(3) == 0x1F && LowMask(4) == 0x0F
    ensures LowMask(5) == 0x07 && LowMask(6) == 0x03 && LowMask(7) == 0x01
  {
  }

  lemma HostSizes()
    ensures HostSize(1) == 128 && HostSize(2) == 64 && HostSize(3) == 32 && HostSize(4) == 16
    ensures HostSize(5) == 8 && HostSize(6) == 4 && HostSize(7) == 2
  {
  }

  lemma AndByBits(b: Byte, keep: nat)
    requires 1 <= keep <= 7
    ensures And(b, HighMask(keep)) == b / HostSize(keep) * HostSize(keep)
  {
    hide And, HighMask, HostSize;
    Masks();
    HostSizes();
    if keep == 1 { And1(b); } else if keep == 2 { And2(b); } else if keep == 3 { And3(b); }
    else if keep == 4 { And4(b); } else if keep == 5 { And5(b); } else if keep == 6 { And6(b); }
    else { And7(b); }
  }

  lemma OrByBits(b: Byte, keep: nat)
    requires 1 <= keep <= 7
    ensures Or(b, LowMask(keep)) == b / HostSize(keep) * HostSize(keep) + HostSize(keep) - 1
  {
    hide Or, LowMask, HostSize;
    Masks();
    HostSizes();
    if keep == 1 { Or1(b); } else if keep == 2 { Or2(b); } else if keep == 3 { Or3(b); }
    else if keep == 4 { Or4(b); } else if keep == 5 { Or5(b); } else if keep == 6 { Or6(b); }
    else { Or7(b); }
  }

  /** Masking a byte rounds it down to a multiple of a power of two; filling it rounds it up, less one. */
  lemma ByteMeaning(b: Byte, keep: nat)
    requires keep <= 8
    ensures MaskByte(b, keep) == b / HostSize(keep) * HostSize(keep)
    ensures FillByte(b, keep) == b / HostSize(keep) * HostSize(keep) + HostSize(keep) - 1
  {
    hide And, Or, HighMask, LowMask;
    if 1 <= keep <= 7 {
      AndByBits(b, keep);
      OrByBits(b, keep);
    }
  }

  // ---------- ranges ----------

  function Width(a: IpAddress): nat { if a.V4? then 32 else 128 }

  function MaskBytes(s: seq<Byte>, prefix: int): (r: seq<Byte>)
    ensures |r| == |s|
  {
    seq(|s|, i requires 0 <= i < |s| => MaskByte(s[i], prefix - 8 * i))
  }

  function FillBytes(s: seq<Byte>, prefix: int): (r: seq<Byte>)
    ensures |r| == |s|
  {
    seq(|s|, i requires 0 <= i < |s| => FillByte(s[i], prefix - 8 * i))
  }

  function WithOctets(a: IpAddress, octets: seq<Byte>): IpAddress
    requires |octets| == |a.octets|
  {
    if a.V4? then V4(octets) else V6(octets)
  }

  datatype RawRange = Range(network: IpAddress, prefix: nat)

  /** A range whose host bits are zero, as `make` always leaves it. */
  type IpRange = r: RawRange
    | r.prefix <= Width(r.network) && MaskBytes(r.network.octets, r.prefix) == r.network.octets
    witness Range(V4([0, 0, 0, 0]), 0)

  function Covers(r: IpRange, a: IpAddress): bool {
    && a.V4? == r.network.V4?
    && MaskBytes(a.octets, r.prefix) == MaskBytes(r.network.octets, r.prefix)
  }

  function MakeRange(a: IpAddress, prefix: Byte): Option<IpRange> {
    if prefix > Width(a) then None
    else
      MaskTwice(a.octets, prefix);
      Some(Range(WithOctets(a, MaskBytes(a.octets, prefix)), prefix))
  }

  lemma MaskTwice(s: seq<Byte>, prefix: nat)
    ensures MaskBytes(MaskBytes(s, prefix), prefix) == MaskBytes(s, prefix)
  {
    hide MaskByte;
    forall i | 0 <= i < |s| ensures MaskByte(MaskByte(s[i], prefix - 8 * i), prefix - 8 * i)
      == MaskByte(s[i], prefix - 8 * i) {
      MaskByteTwice(s[i], prefix - 8 * i);
    }
  }

  lemma MaskByteTwice(b: Byte, keep: int)
    ensures MaskByte(MaskByte(b, keep), keep) == MaskByte(b, keep)
  {
    hide And, HighMask, HostSize, MaskByte;
    if 0 <= keep <= 8 {
      ByteMeaning(b, keep);
      ByteMeaning(MaskByte(b, keep), keep);
      RoundTwice(b, HostSize(keep));
    } else {
      OutsideByte(b, keep);
      OutsideByte(MaskByte(b, keep), keep);
    }
  }

  lemma RoundTwice(b: nat, size: nat)
    requires size > 0
    ensures b / size * size / size * size == b / size * size
  {
    DivModOfSum(b / size, 0, size);
  }

  lemma OutsideByte(b: Byte, keep: int)
    requires keep <= 0 || keep >= 8
    ensures MaskByte(b, keep) == if keep <= 0 then 0 else b
    ensures FillByte(b, keep) == if keep <= 0 then 0xFF else b
  {
  }

  /** `IpRange::make`. */
  method Make(address: IpAddress, prefixLength: Byte) returns (r: Option<IpRange>)
    ensures r == MakeRange(address, prefixLength)
  {
    if prefixLength > (if address.V4? then 32 else 128) {
      return None;
    }
    var size := |address.octets|;
    var bytes := new Byte[size](i requires 0 <= i < size => address.octets[i]);
    for i := 0 to size
      invariant forall j | 0 <= j < size ::
        bytes[j] == if j < i then MaskByte(address.octets[j], prefixLength - 8 * j) else address.octets[j]
    {
      var bitOffset := i * 8;
      if bitOffset >= prefixLength {
        bytes[i] := 0;
      } else if bitOffset + 8 > prefixLength {
        bytes[i] := And(bytes[i], HighMask(prefixLength - bitOffset));
      }
    }
    assert bytes[..] == MaskBytes(address.octets, prefixLength);
    MaskTwice(address.octets, prefixLength);
    r := Some(Range(WithOctets(address, bytes[..]), prefixLength));
  }

  /** `IpRange::contains` for an address. */
  method Contains(range: IpRange, address: IpAddress) returns (r: bool)
    ensures r == Covers(range, address)
  {
    hide And, HighMask;
    if address.V4? != range.network.V4? {
      return false;
    }
    var candidate, network := address.octets, range.network.octets;
    var remaining, i := range.prefix, 0;
    while i < |network| && remaining > 0
      invariant 0 <= i <= |network|
      invariant remaining == if range.prefix >= 8 * i then range.prefix - 8 * i else 0
      invariant forall j | 0 <= j < i :: MaskByte(candidate[j], range.prefix - 8 * j) == MaskByte(network[j], range.prefix - 8 * j)
    {
      if remaining >= 8 {
        if candidate[i] != network[i] {
          assert MaskBytes(candidate, range.prefix)[i] != MaskBytes(network, range.prefix)[i];
          return false;
        }
        remaining := remaining - 8;
      } else {
        var mask := HighMask(remaining);
        if And(candidate[i], mask) != And(network[i], mask) {
          assert MaskBytes(candidate, range.prefix)[i] != MaskBytes(network, range.prefix)[i];
          return false;
        }
        remaining := 0;
      }
      i := i + 1;
    }
    assert MaskBytes(candidate, range.prefix) == MaskBytes(network, range.prefix);
    return true;
  }

  function Last(r: IpRange): IpAddress {
    WithOctets(r.network, FillBytes(r.network.octets, r.prefix))
  }

  /** `IpRange::lastAddress`. */
  method LastAddress(range: IpRange) returns (a: IpAddress)
    ensures a == Last(range)
  {
    var network := range.network.octets;
    var size := |network|;
    var bytes := new Byte[size](i requires 0 <= i < size => network[i]);
    for i := 0 to size
      invariant forall j | 0 <= j < size ::
        bytes[j] == if j < i then FillByte(network[j], range.prefix - 8 * j) else network[j]
    {
      var bitOffset := i * 8;
      if bitOffset >= range.prefix {
        bytes[i] := 0xFF;
      } else if bitOffset + 8 > range.prefix {
        bytes[i] := Or(bytes[i], LowMask(range.prefix - bitOffset));
      }
    }
    assert bytes[..] == FillBytes(network, range.prefix);
    a := WithOctets(range.network, bytes[..]);
  }
}
