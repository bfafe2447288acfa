/**
 What the byte loops of Networking/src/IpAddress.cpp mean on addresses read as numbers (section 3.1 of
 RFC 4632), and their agreement with the 32-bit mask that Firewall/src/WfpEngine.cpp hands to the system.
 */
module RangeMath {
  import opened Types
  import opened Bits
  import opened Digits
  import opened IpText
  import opened IpRanges

  /** An address read as one big-endian number. */
  function Number(s: seq<Byte>): nat {
    if s == [] then 0 else s[0] * Power(2, 8 * (|s| - 1)) + Number(s[1..])
  }

  // ---------- powers and rounding ----------

  lemma {:induction false} PowerSum(b: nat, d: nat, e: nat)
    ensures Power(b, d + e) == Power(b, d) * Power(b, e)
  {
    if d > 0 {
      PowerSum(b, d - 1, e);
      Associate(b, Power(b, d - 1), Power(b, e));
    }
  }

  lemma Associate(a: int, b: int, c: int)
    ensures a * (b * c) == (a * b) * c
  {
  }

  lemma PowerPositive(e: nat)
    ensures Power(2, e) >= 1
  {
    PowerMonotone(2, 0, e);
  }

  /** Rounding down to a multiple of `q` ignores whole multiples of `q`. */
  lemma RoundSum(a: nat, q: nat, t: nat)
    requires q > 0
    ensures (a * q + t) / q == a + t / q
    ensures (a * q + t) / q * q == a * q + t / q * q
  {
    var quotient := t / q;
    assert t == quotient * q + t % q;
    Distribute(a, quotient, q);
    DivModOfSum(a + quotient, t % q, q);
  }

  lemma Distribute(a: int, b: int, q: int)
    ensures (a + b) * q == a * q + b * q
  {
  }

  /** Dividing by `h * p` in one step or in two. */
  lemma DivideTwice(n: nat, p: nat, h: nat, q: nat)
    requires p > 0 && h > 0 && q == h * p
    ensures q > 0 && n / q == n / p / h
  {
    var a, u := n / p, n % p;
    var b, v := a / h, a % h;
    Regroup(a, u, b, v, p, h);
    Quotient(n, q, b, v * p + u);
  }

  lemma Quotient(n: nat, d: nat, q: nat, r: nat)
    requires n == q * d + r && r < d
    ensures n / d == q
  {
    DivModOfSum(q, r, d);
  }

  lemma Regroup(a: nat, u: nat, b: nat, v: nat, p: nat, h: nat)
    requires u < p && v < h && a == b * h + v
    ensures a * p + u == b * (h * p) + (v * p + u)
    ensures 0 <= v * p + u < h * p
  {
    Distribute(b * h, v, p);
    Associate(b, h, p);
    MulMonotone(v + 1, h, p);
    Distribute(v, 1, p);
    MulMonotone(0, v, p);
  }

  lemma NumberUnfold(s: seq<Byte>)
    ensures Number([]) == 0
    ensures s != [] ==> Number(s) == s[0] * Power(2, 8 * (|s| - 1)) + Number(s[1..])
  {
  }

  lemma {:induction false} NumberBound(s: seq<Byte>)
    ensures Number(s) < Power(2, 8 * |s|)
  {
    if s != [] {
      NumberBound(s[1..]);
      var p := Power(2, 8 * (|s| - 1));
      PowerSum(2, 8, 8 * (|s| - 1));
      assert Power(2, 8) == 256 by { HostSizeIsPower(0); }
      MulMonotone(s[0] as int + 1, 256, p);
      Distribute(s[0], 1, p);
    }
  }

  lemma {:induction false} NumberInjective(s: seq<Byte>, t: seq<Byte>)
    requires |s| == |t| && Number(s) == Number(t)
    ensures s == t
  {
    if s != [] {
      var p := Power(2, 8 * (|s| - 1));
      NumberBound(s[1..]);
      NumberBound(t[1..]);
      DivModOfSum(s[0], Number(s[1..]), p);
      DivModOfSum(t[0], Number(t[1..]), p);
      NumberInjective(s[1..], t[1..]);
      assert s == [s[0]] + s[1..] && t == [t[0]] + t[1..];
    }
  }

  // ---------- masking and filling, numerically ----------

  /** The number of addresses a prefix leaves free. */
  function Block(bytes: nat, prefix: nat): (q: nat)
    requires prefix <= 8 * bytes
    ensures q > 0
  {
    PowerPositive(8 * bytes - prefix);
    Power(2, 8 * bytes - prefix)
  }

  lemma {:induction false} ZeroTail(s: seq<Byte>, prefix: int)
    requires prefix <= 0
    ensures Number(MaskBytes(s, prefix)) == 0
    ensures Number(FillBytes(s, prefix)) == Power(2, 8 * |s|) - 1
  {
    hide Number, MaskByte, FillByte, Power;
    NumberUnfold(MaskBytes(s, prefix));
    NumberUnfold(FillBytes(s, prefix));
    if s == [] {
      PowerZero();
    } else {
      ZeroTail(s[1..], prefix - 8);
      Tails(s, prefix);
      OutsideByte(s[0], prefix);
      NextByte(|s|);
    }
  }

  lemma NextByte(n: nat)
    requires n >= 1
    ensures Power(2, 8 * n) == 256 * Power(2, 8 * (n - 1))
  {
    PowerSum(2, 8, 8 * (n - 1));
    assert Power(2, 8) == 256 by { HostSizeIsPower(0); }
  }

  lemma Tails(s: seq<Byte>, prefix: int)
    requires s != []
    ensures MaskBytes(s, prefix)[1..] == MaskBytes(s[1..], prefix - 8)
    ensures FillBytes(s, prefix)[1..] == FillBytes(s[1..], prefix - 8)
  {
    hide MaskByte, FillByte;
  }

  /** Masking rounds the number down to a multiple of the block size; filling goes to the end of the block. */
  lemma {:induction false} MaskValue(s: seq<Byte>, prefix: nat)
    requires prefix <= 8 * |s|
    ensures var q := Block(|s|, prefix);
      && Number(MaskBytes(s, prefix)) == Number(s) / q * q
      && Number(FillBytes(s, prefix)) == Number(s) / q * q + q - 1
  {
    hide MaskByte, FillByte, Power;
    if s == [] {
      assert Power(2, 0) == 1 by { PowerZero(); }
    } else if prefix >= 8 {
      MaskValue(s[1..], prefix - 8);
      WholeByte(s, prefix);
    } else {
      PartByte(s, prefix);
    }
  }

  lemma PowerZero()
    ensures Power(2, 0) == 1
  {
  }

  lemma WholeByte(s: seq<Byte>, prefix: nat)
    requires s != [] && 8 <= prefix <= 8 * |s|
    requires var q := Block(|s| - 1, prefix - 8);
      && Number(MaskBytes(s[1..], prefix - 8)) == Number(s[1..]) / q * q
      && Number(FillBytes(s[1..], prefix - 8)) == Number(s[1..]) / q * q + q - 1
    ensures var q := Block(|s|, prefix);
      && Number(MaskBytes(s, prefix)) == Number(s) / q * q
      && Number(FillBytes(s, prefix)) == Number(s) / q * q + q - 1
  {
    hide MaskByte, FillByte, Power, Number;
    WholeSums(s, prefix);
    var q, hi := Block(|s|, prefix), Power(2, prefix - 8);
    PowerSum(2, prefix - 8, 8 * |s| - prefix);
    WholeRounds(Number(s), s[0], hi, Power(2, 8 * (|s| - 1)), q, Number(s[1..]));
  }

  lemma WholeRounds(n: nat, b: nat, hi: nat, p: nat, q: nat, t: nat)
    requires q > 0 && p == hi * q && n == b * p + t
    ensures n / q * q == b * p + t / q * q
  {
    Associate(b, hi, q);
    MulMonotone(0, b, hi);
    RoundSum(b * hi, q, t);
  }

  lemma WholeSums(s: seq<Byte>, prefix: nat)
    requires s != [] && 8 <= prefix <= 8 * |s|
    ensures var p := Power(2, 8 * (|s| - 1));
      && Number(s) == s[0] * p + Number(s[1..])
      && Number(MaskBytes(s, prefix)) == s[0] * p + Number(MaskBytes(s[1..], prefix - 8))
      && Number(FillBytes(s, prefix)) == s[0] * p + Number(FillBytes(s[1..], prefix - 8))
  {
    hide MaskByte, FillByte, Power, Number;
    NumberUnfold(s);
    NumberUnfold(MaskBytes(s, prefix));
    NumberUnfold(FillBytes(s, prefix));
    OutsideByte(s[0], prefix);
    Tails(s, prefix);
  }

  lemma PartByte(s: seq<Byte>, prefix: nat)
    requires s != [] && prefix < 8
    ensures var q := Block(|s|, prefix);
      && Number(MaskBytes(s, prefix)) == Number(s) / q * q
      && Number(FillBytes(s, prefix)) == Number(s) / q * q + q - 1
  {
    hide MaskByte, FillByte, HostSize, Power, Number;
    var n, t, p, h := Number(s), Number(s[1..]), Power(2, 8 * (|s| - 1)), HostSize(prefix);
    var b, m, f, q := s[0], MaskByte(s[0], prefix), FillByte(s[0], prefix), Block(|s|, prefix);
    assert q == h * p by { BlockSplits(|s|, prefix); }
    assert t < p by { NumberBound(s[1..]); }
    assert n == b * p + t && Number(MaskBytes(s, prefix)) == m * p && Number(FillBytes(s, prefix)) == f * p + p - 1 by {
      PartSums(s, prefix);
    }
    assert m == b / h * h && f == m + h - 1 by { ByteMeaning(b, prefix); }
    PartRounds(n, b, m, f, h, p, q, t);
  }

  lemma BlockSplits(n: nat, prefix: nat)
    requires n >= 1 && prefix < 8
    ensures Block(n, prefix) == HostSize(prefix) * Power(2, 8 * (n - 1))
  {
    hide HostSize, Power;
    HostSizeIsPower(prefix);
    PowerSum(2, 8 - prefix, 8 * (n - 1));
    assert (8 - prefix) + 8 * (n - 1) == 8 * n - prefix;
  }

  lemma PartSums(s: seq<Byte>, prefix: nat)
    requires s != [] && prefix < 8
    ensures Number(s) == s[0] * Power(2, 8 * (|s| - 1)) + Number(s[1..])
    ensures Number(MaskBytes(s, prefix)) == MaskByte(s[0], prefix) * Power(2, 8 * (|s| - 1))
    ensures Number(FillBytes(s, prefix))
         == FillByte(s[0], prefix) * Power(2, 8 * (|s| - 1)) + Power(2, 8 * (|s| - 1)) - 1
  {
    hide MaskByte, FillByte, Power, Number;
    NumberUnfold(s);
    NumberUnfold(MaskBytes(s, prefix));
    NumberUnfold(FillBytes(s, prefix));
    Tails(s, prefix);
    ZeroTail(s[1..], prefix - 8);
  }

  lemma PartRounds(n: nat, b: nat, m: nat, f: nat, h: nat, p: nat, q: nat, t: nat)
    requires h > 0 && t < p && q == h * p && n == b * p + t && m == b / h * h && f == m + h - 1
    ensures q > 0 && n / q * q == m * p
    ensures n / q * q + q - 1 == f * p + p - 1
  {
    DivideTwice(n, p, h, q);
    Quotient(n, p, b, t);
    Associate(b / h, h, p);
    Distribute(m, h - 1, p);
    Distribute(h - 1, 1, p);
  }

  // ---------- containment ----------

  function BlockOf(r: IpRange): (q: nat)
    ensures q > 0
  {
    Block(|r.network.octets|, r.prefix)
  }

  /** Byte-wise containment is the same block number, and the interval from the network to the last address. */
  lemma CoversNumerically(r: IpRange, a: IpAddress)
    requires a.V4? == r.network.V4?
    ensures Covers(r, a) <==> Number(a.octets) / BlockOf(r) == Number(r.network.octets) / BlockOf(r)
    ensures Covers(r, a) <==> Number(r.network.octets) <= Number(a.octets) <= Number(Last(r).octets)
    ensures Number(Last(r).octets) == Number(r.network.octets) + BlockOf(r) - 1
  {
    hide MaskBytes, FillBytes, Number, Block;
    MaskValue(a.octets, r.prefix);
    MaskValue(r.network.octets, r.prefix);
    var q, x, n := BlockOf(r), Number(a.octets), Number(r.network.octets);
    MasksAgree(a.octets, r.network.octets, r.prefix);
    SameBlock(x, n, q);
  }

  lemma MasksAgree(s: seq<Byte>, t: seq<Byte>, prefix: nat)
    requires |s| == |t| && prefix <= 8 * |s|
    ensures MaskBytes(s, prefix) == MaskBytes(t, prefix)
       <==> Number(MaskBytes(s, prefix)) == Number(MaskBytes(t, prefix))
  {
    if Number(MaskBytes(s, prefix)) == Number(MaskBytes(t, prefix)) {
      NumberInjective(MaskBytes(s, prefix), MaskBytes(t, prefix));
    }
  }

  lemma SameBlock(x: nat, n: nat, q: nat)
    requires q > 0 && n == n / q * q
    ensures x / q == n / q <==> x / q * q == n / q * q
    ensures x / q == n / q <==> n <= x <= n + q - 1
  {
    var i, j := x / q, n / q;
    assert i * q <= x < i * q + q;
    Distribute(i, 1, q);
    Distribute(j, 1, q);
    MulMonotone(i + 1, j, q);
    MulMonotone(j + 1, i, q);
  }

  lemma CoversItsEnds(r: IpRange)
    ensures Covers(r, r.network) && Covers(r, Last(r))
  {
    CoversNumerically(r, r.network);
    CoversNumerically(r, Last(r));
  }

  /** Of two ranges that share an address, the one with the longer prefix lies inside the other. */
  lemma Nested(outer: IpRange, inner: IpRange, shared: IpAddress, a: IpAddress)
    requires outer.prefix <= inner.prefix && Covers(outer, shared) && Covers(inner, shared)
    ensures Covers(inner, a) ==> Covers(outer, a)
  {
    hide Number, Covers;
    if Covers(inner, a) {
      assert a.V4? == inner.network.V4? == outer.network.V4? == shared.V4? by { SameFamily(outer, inner, shared, a); }
      CoversNumerically(inner, a);
      CoversNumerically(inner, shared);
      CoversNumerically(outer, a);
      CoversNumerically(outer, shared);
      Coarser(|a.octets|, outer.prefix, inner.prefix, Number(a.octets), Number(shared.octets));
    }
  }

  lemma SameFamily(outer: IpRange, inner: IpRange, shared: IpAddress, a: IpAddress)
    requires Covers(outer, shared) && Covers(inner, shared) && Covers(inner, a)
    ensures a.V4? == inner.network.V4? == outer.network.V4? == shared.V4?
  {
  }

  lemma Coarser(bytes: nat, outer: nat, inner: nat, x: nat, y: nat)
    requires outer <= inner <= 8 * bytes
    requires x / Block(bytes, inner) == y / Block(bytes, inner)
    ensures x / Block(bytes, outer) == y / Block(bytes, outer)
  {
    hide Power;
    PowerSum(2, inner - outer, 8 * bytes - inner);
    PowerPositive(inner - outer);
    DivideTwice(x, Block(bytes, inner), Power(2, inner - outer), Block(bytes, outer));
    DivideTwice(y, Block(bytes, inner), Power(2, inner - outer), Block(bytes, outer));
  }

  /** `IpRange::contains` for a range. */
  predicate CoversRange(r: IpRange, other: IpRange) {
    other.network.V4? == r.network.V4? && other.prefix >= r.prefix && Covers(r, other.network)
  }

  ghost predicate Within(other: IpRange, r: IpRange) {
    forall a: IpAddress | Covers(other, a) :: Covers(r, a)
  }

  /** A range contains another exactly when it contains every address of it. */
  lemma CoversRangeMeaning(r: IpRange, other: IpRange)
    ensures CoversRange(r, other) <==> Within(other, r)
  {
    hide Covers;
    CoversItsEnds(other);
    if CoversRange(r, other) {
      forall a: IpAddress | Covers(other, a) ensures Covers(r, a) {
        Nested(r, other, other.network, a);
      }
    } else if Within(other, r) {
      SameFamily(r, other, other.network, other.network);
      TooWide(r, other);
    }
  }

  lemma TooWide(r: IpRange, other: IpRange)
    requires Covers(r, other.network) && Covers(r, Last(other))
    ensures other.prefix >= r.prefix
  {
    hide Number;
    if other.prefix < r.prefix {
      CoversNumerically(r, other.network);
      CoversNumerically(r, Last(other));
      CoversNumerically(other, other.network);
      BlockShrinks(|r.network.octets|, other.prefix, r.prefix);
    }
  }

  lemma BlockShrinks(bytes: nat, outer: nat, inner: nat)
    requires outer < inner <= 8 * bytes
    ensures Block(bytes, outer) >= 2 * Block(bytes, inner)
  {
    hide Power;
    PowerSum(2, inner - outer, 8 * bytes - inner);
    PowerGrows(2, inner - outer);
    MulMonotone(2, Power(2, inner - outer), Block(bytes, inner));
  }
}
