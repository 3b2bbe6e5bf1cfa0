/**
 * IPv4 addresses as the scripts see them: scapy hands out dotted-quad strings,
 * `is_internal` parses them with Python's `ipaddress` and tests membership in
 * the private blocks of section 3 of RFC 1918. Addresses are modelled already
 * parsed, as four octets; `Format` gives back the dotted-quad string the
 * scripts compare and use as cache keys.
 */
module Address {
  import opened Text
  import Bytes

  /** One octet of an address. */
  type Octet = Bytes.Byte

  datatype IPv4 = IPv4(a: Octet, b: Octet, c: Octet, d: Octet)

  /** The address as a 32-bit number, most significant octet first. */
  function ToNat(ip: IPv4): (n: nat)
    ensures n < 0x1_0000_0000
  {
    ip.a * 0x100_0000 + ip.b * 0x1_0000 + ip.c * 0x100 + ip.d
  }

  /** A network `base/prefix`, as `ipaddress.ip_network` reads it. */
  datatype Network = Network(base: IPv4, prefix: nat)

  function Pow2(n: nat): (p: nat)
    ensures p >= 1
  {
    if n == 0 then 1 else 2 * Pow2(n - 1)
  }

  /** `x >> k` */
  function ShiftRight(x: nat, k: nat): nat {
    if k == 0 then x else ShiftRight(x / 2, k - 1)
  }

  /** A quotient is fixed by any remainder in range. */
  lemma DivideUnique(x: int, d: int, t: int, r: int)
    requires d > 0 && 0 <= r < d && x == d * t + r
    ensures x / d == t
  {
    var k := x / d - t;
    assert d * k == r - x % d;
  }

  /** Halving and then dividing by `p` is dividing by `2 * p`. */
  lemma HalveThenDivide(x: nat, p: nat)
    requires p >= 1
    ensures x / 2 / p == x / (2 * p)
  {
    var q, t := x / 2, x / 2 / p;
    var r := 2 * (q % p) + x % 2;
    assert 2 * (p * t) == (2 * p) * t;
    assert x == (2 * p) * t + r;
    DivideUnique(x, 2 * p, t, r);
  }

  /** Shifting right by `k` bits divides by `2^k`. */
  lemma {:induction false} ShiftRightDivides(x: nat, k: nat)
    ensures ShiftRight(x, k) == x / Pow2(k)
  {
    if k > 0 {
      ShiftRightDivides(x / 2, k - 1);
      HalveThenDivide(x, Pow2(k - 1));
    }
  }

  /** `ip in ip_network(cidr)`: the first `prefix` bits of the address equal the network's. */
  predicate InNetwork(ip: IPv4, net: Network)
    requires net.prefix <= 32
  {
    ShiftRight(ToNat(ip), 32 - net.prefix) == ShiftRight(ToNat(net.base), 32 - net.prefix)
  }

  /** `INTERNAL_RANGES`: 10.0.0.0/8, 172.16.0.0/12 and 192.168.0.0/16. */
  const InternalRanges: seq<Network> := [
    Network(IPv4(10, 0, 0, 0), 8),
    Network(IPv4(172, 16, 0, 0), 12),
    Network(IPv4(192, 168, 0, 0), 16)
  ]

  /** The loop of `is_internal`: true at the first range that holds the address. */
  predicate InAnyRange(ip: IPv4, ranges: seq<Network>)
    requires forall i :: 0 <= i < |ranges| ==> ranges[i].prefix <= 32
  {
    if |ranges| == 0 then false
    else if InNetwork(ip, ranges[0]) then true
    else InAnyRange(ip, ranges[1..])
  }

  /** `is_internal`: some range of `INTERNAL_RANGES` holds the address. */
  predicate IsInternal(ip: IPv4) {
    exists i :: 0 <= i < |InternalRanges| && InNetwork(ip, InternalRanges[i])
  }

  /** The loop answers exactly whether some range holds the address, so
      `InAnyRange(ip, InternalRanges)` is `IsInternal(ip)`. */
  lemma {:induction false} InAnyRangeIsSome(ip: IPv4, ranges: seq<Network>)
    requires forall i :: 0 <= i < |ranges| ==> ranges[i].prefix <= 32
    ensures InAnyRange(ip, ranges) <==> exists i :: 0 <= i < |ranges| && InNetwork(ip, ranges[i])
  {
    if |ranges| > 0 {
      InAnyRangeIsSome(ip, ranges[1..]);
      if InAnyRange(ip, ranges[1..]) {
        var i :| 0 <= i < |ranges| - 1 && InNetwork(ip, ranges[1..][i]);
        assert InNetwork(ip, ranges[i + 1]);
      }
      if exists i :: 0 <= i < |ranges| && InNetwork(ip, ranges[i]) {
        var i :| 0 <= i < |ranges| && InNetwork(ip, ranges[i]);
        if i > 0 {
          assert InNetwork(ip, ranges[1..][i - 1]);
        }
      }
    }
  }

  lemma Pow2Values()
    ensures Pow2(24) == 0x100_0000 && Pow2(20) == 0x10_0000 && Pow2(16) == 0x1_0000
  {
    assert Pow2(16) == 0x1_0000 by {
      assert Pow2(8) == 256 by {
        assert Pow2(4) == 16;
      }
    }
    assert Pow2(20) == 16 * Pow2(16);
    assert Pow2(24) == 16 * Pow2(20);
  }

  lemma TopOctet(ip: IPv4)
    ensures ToNat(ip) / 0x100_0000 == ip.a
  {
  }

  lemma TopTwelveBits(ip: IPv4)
    ensures ToNat(ip) / 0x10_0000 == ip.a * 16 + ip.b / 16
  {
    var rest := (ip.b % 16) * 0x1_0000 + ip.c * 0x100 + ip.d;
    assert ToNat(ip) == (ip.a * 16 + ip.b / 16) * 0x10_0000 + rest;
  }

  lemma TopTwoOctets(ip: IPv4)
    ensures ToNat(ip) / 0x1_0000 == ip.a * 256 + ip.b
  {
    assert ToNat(ip) == (ip.a * 256 + ip.b) * 0x1_0000 + (ip.c * 0x100 + ip.d);
  }

  lemma InFirstRange(ip: IPv4)
    ensures InNetwork(ip, InternalRanges[0]) <==> ip.a == 10
  {
    Pow2Values();
    ShiftRightDivides(ToNat(ip), 24);
    ShiftRightDivides(ToNat(InternalRanges[0].base), 24);
    TopOctet(ip);
    TopOctet(InternalRanges[0].base);
  }

  lemma InSecondRange(ip: IPv4)
    ensures InNetwork(ip, InternalRanges[1]) <==> ip.a == 172 && 16 <= ip.b <= 31
  {
    Pow2Values();
    ShiftRightDivides(ToNat(ip), 20);
    ShiftRightDivides(ToNat(InternalRanges[1].base), 20);
    TopTwelveBits(ip);
    TopTwelveBits(InternalRanges[1].base);
  }

  lemma InThirdRange(ip: IPv4)
    ensures InNetwork(ip, InternalRanges[2]) <==> ip.a == 192 && ip.b == 168
  {
    Pow2Values();
    ShiftRightDivides(ToNat(ip), 16);
    ShiftRightDivides(ToNat(InternalRanges[2].base), 16);
    TopTwoOctets(ip);
    TopTwoOctets(InternalRanges[2].base);
  }

  /** An address is internal exactly when it lies in 10.0.0.0/8, 172.16.0.0/12
      or 192.168.0.0/16, read off its octets. */
  lemma IsInternalOctets(ip: IPv4)
    ensures IsInternal(ip) <==>
      || ip.a == 10
      || (ip.a == 172 && 16 <= ip.b <= 31)
      || (ip.a == 192 && ip.b == 168)
  {
    InFirstRange(ip);
    InSecondRange(ip);
    InThirdRange(ip);
    if ip.a == 10 {
      assert InNetwork(ip, InternalRanges[0]);
    } else if ip.a == 172 && 16 <= ip.b <= 31 {
      assert InNetwork(ip, InternalRanges[1]);
    } else if ip.a == 192 && ip.b == 168 {
      assert InNetwork(ip, InternalRanges[2]);
    }
  }

  /** The boundary cases: 172.31.255.255 is internal; 172.32.0.0 and 11.0.0.0 are not. */
  lemma InternalBoundaries()
    ensures IsInternal(IPv4(172, 31, 255, 255))
    ensures !IsInternal(IPv4(172, 32, 0, 0))
    ensures !IsInternal(IPv4(11, 0, 0, 0))
  {
    IsInternalOctets(IPv4(172, 31, 255, 255));
    IsInternalOctets(IPv4(172, 32, 0, 0));
    IsInternalOctets(IPv4(11, 0, 0, 0));
  }

  // ------------------------------------------------------------ dotted quads

  function Digit(n: nat): char
    requires n < 10
  {
    "0123456789"[n]
  }

  /** Decimal digits of `n`, without leading zeros, as Python's `str(n)`. */
  function Decimal(n: nat): (s: string)
    ensures |s| > 0 && forall k :: 0 <= k < |s| ==> '0' <= s[k] <= '9'
  {
    if n < 10 then [Digit(n)] else Decimal(n / 10) + [Digit(n % 10)]
  }

  /** The number a string of decimal digits denotes. */
  function DecimalValue(s: string): nat
    requires forall k :: 0 <= k < |s| ==> '0' <= s[k] <= '9'
  {
    if |s| == 0 then 0 else 10 * DecimalValue(s[..|s| - 1]) + (s[|s| - 1] as int - '0' as int)
  }

  /** Reading the digits back gives the number. */
  lemma {:induction false} DecimalRoundTrip(n: nat)
    ensures DecimalValue(Decimal(n)) == n
  {
    if n >= 10 {
      DecimalRoundTrip(n / 10);
      var s := Decimal(n);
      assert s[..|s| - 1] == Decimal(n / 10);
    }
  }

  /** The dotted-quad form `a.b.c.d`. */
  function Format(ip: IPv4): string {
    Join([Decimal(ip.a), Decimal(ip.b), Decimal(ip.c), Decimal(ip.d)], ".")
  }

  lemma NoDot(n: nat)
    ensures !Contains(Decimal(n), ".")
  {
    ContainsChar(Decimal(n), '.');
  }

  /** Splitting the dotted quad at the dots gives back its four numbers. */
  lemma FormatSplits(x: IPv4)
    ensures Split(Format(x), ".") == [Decimal(x.a), Decimal(x.b), Decimal(x.c), Decimal(x.d)]
  {
    var px := [Decimal(x.a), Decimal(x.b), Decimal(x.c), Decimal(x.d)];
    NoDot(x.a); NoDot(x.b); NoDot(x.c); NoDot(x.d);
    assert forall k :: 0 <= k < |px| ==> !Contains(px[k], ".") by {
      assert px[0] == Decimal(x.a) && px[1] == Decimal(x.b) && px[2] == Decimal(x.c) && px[3] == Decimal(x.d);
    }
    SplitJoin(px, ".");
  }

  /** Different addresses have different dotted-quad strings, so comparing the
      strings, as the scripts do, compares the addresses. */
  lemma FormatInjective(x: IPv4, y: IPv4)
    ensures Format(x) == Format(y) <==> x == y
  {
    if Format(x) == Format(y) {
      FormatSplits(x);
      FormatSplits(y);
      var px := [Decimal(x.a), Decimal(x.b), Decimal(x.c), Decimal(x.d)];
      var py := [Decimal(y.a), Decimal(y.b), Decimal(y.c), Decimal(y.d)];
      assert px == py;
      assert Decimal(x.a) == Decimal(y.a) && Decimal(x.b) == Decimal(y.b);
      assert Decimal(x.c) == Decimal(y.c) && Decimal(x.d) == Decimal(y.d);
      DecimalRoundTrip(x.a); DecimalRoundTrip(x.b); DecimalRoundTrip(x.c); DecimalRoundTrip(x.d);
      DecimalRoundTrip(y.a); DecimalRoundTrip(y.b); DecimalRoundTrip(y.c); DecimalRoundTrip(y.d);
    }
  }
}
