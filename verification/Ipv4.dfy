/** IPv4 subnets: network id, broadcast address and prefix length. */
module Ipv4 {
  import opened Words
  import opened Bits

  type IPAddress = s: seq<Byte> | |s| == 4 witness [0, 0, 0, 0]

  const ALL_ONES := 0xFFFF_FFFF

  function Join(high: nat, low: Byte): nat { high * 0x100 + low }

  lemma JoinInjective(h: nat, l: Byte, high: nat, low: Byte)
    ensures Join(h, l) == Join(high, low) <==> h == high && l == low
  {
    if Join(h, l) == Join(high, low) {
      assert (h - high) * 0x100 == low - l;
    }
  }

  /** The address as a number, first octet most significant. */
  function Value(ip: IPAddress): nat {
    Join(Join(Join(ip[0], ip[1]), ip[2]), ip[3])
  }

  lemma Pow2Of8()
    ensures Pow2(8) == 0x100 && Pow2(16) == 0x1_0000 && Pow2(24) == 0x100_0000 && Pow2(32) == 0x1_0000_0000
  {
    assert Pow2(4) == 0x10;
    Pow2Adds(4, 4);
    Pow2Adds(8, 8);
    Pow2Adds(16, 8);
    Pow2Adds(16, 16);
  }

  lemma ValueFits(ip: IPAddress)
    ensures Value(ip) < Pow2(32)
  {
    Pow2Of8();
  }

  lemma ValueInjective(a: IPAddress, b: IPAddress)
    requires Value(a) == Value(b)
    ensures a == b
  {
    hide Join;
    JoinInjective(Join(Join(a[0], a[1]), a[2]), a[3], Join(Join(b[0], b[1]), b[2]), b[3]);
    JoinInjective(Join(a[0], a[1]), a[2], Join(b[0], b[1]), b[2]);
    JoinInjective(a[0], a[1], b[0], b[1]);
  }

  // ---------------------------------------------------------------- what the octets hold

  function AndOctet(m: Byte, x: Byte): Byte {
    AndFits(m, x);
    And(m, x)
  }

  lemma OrNotFits(m: Byte, x: Byte)
    ensures Or(0xFF - m, x) == AndOctet(m, x) + (0xFF - m) && Or(0xFF - m, x) < 0x100
  {
    hide And, Or, Pow2;
    Pow2Of8();
    OrComplement(x, m, 8);
    AndCommutes(m, x);
    AndFits(x, m);
  }

  function OrNotOctet(m: Byte, x: Byte): (r: Byte)
    ensures r == AndOctet(m, x) + (0xFF - m)
  {
    OrNotFits(m, x);
    Or(0xFF - m, x)
  }

  /** Masking every octet. */
  function NetworkID(ip: IPAddress, mask: IPAddress): IPAddress {
    [AndOctet(mask[0], ip[0]), AndOctet(mask[1], ip[1]), AndOctet(mask[2], ip[2]), AndOctet(mask[3], ip[3])]
  }

  function Broadcast(ip: IPAddress, mask: IPAddress): IPAddress {
    [OrNotOctet(mask[0], ip[0]), OrNotOctet(mask[1], ip[1]), OrNotOctet(mask[2], ip[2]), OrNotOctet(mask[3], ip[3])]
  }

  lemma AndJoin(m: nat, n: Byte, x: nat, y: Byte)
    ensures And(Join(m, n), Join(x, y)) == Join(And(m, x), AndOctet(n, y))
  {
    hide And, Pow2;
    Pow2Of8();
    AndSplit(m, n, x, y, 8);
  }

  /** Octet by octet is the same as on the whole 32-bit address. */
  lemma NetworkIDMasksValue(ip: IPAddress, mask: IPAddress)
    ensures Value(NetworkID(ip, mask)) == And(Value(mask), Value(ip))
  {
    hide And, Pow2, Join;
    var m1, x1 := Join(mask[0], mask[1]), Join(ip[0], ip[1]);
    AndJoin(mask[0], mask[1], ip[0], ip[1]);
    AndJoin(m1, mask[2], x1, ip[2]);
    AndJoin(Join(m1, mask[2]), mask[3], Join(x1, ip[2]), ip[3]);
  }

  /** For every mask, contiguous or not, the two ends of the subnet lie `~mask` apart. */
  lemma SubnetSpan(ip: IPAddress, mask: IPAddress)
    ensures Value(Broadcast(ip, mask)) - Value(NetworkID(ip, mask)) == ALL_ONES - Value(mask)
  {
    hide And, Or;
  }

  // ---------------------------------------------------------------- prefix masks

  lemma OctetRange(k: nat)
    requires k <= 8
    ensures 1 <= Pow2(8 - k) <= 0x100
  {
    Pow2Of8();
    if k > 0 {
      Pow2Grows(8 - k, 8);
    }
  }

  /** The octet with `k` leading ones. */
  function LeadingOnes(k: nat): (r: Byte)
    requires k <= 8
  {
    OctetRange(k);
    0x100 - Pow2(8 - k)
  }

  function OnesIn(p: nat, i: nat): nat {
    if p <= 8 * i then 0 else if p >= 8 * i + 8 then 8 else p - 8 * i
  }

  /** The mask of prefix length `p`. */
  function PrefixMask(p: nat): IPAddress {
    [LeadingOnes(OnesIn(p, 0)), LeadingOnes(OnesIn(p, 1)), LeadingOnes(OnesIn(p, 2)), LeadingOnes(OnesIn(p, 3))]
  }

  lemma LeadingOnesIs(k: nat)
    requires k <= 8
    ensures LeadingOnes(k) == 0x100 - Pow2(8 - k)
  {
  }

  lemma Pow2Of0()
    ensures Pow2(0) == 1
  {
  }

  lemma MaskOctets()
    ensures LeadingOnes(0) == 0 && LeadingOnes(1) == 0x80 && LeadingOnes(2) == 0xC0 && LeadingOnes(3) == 0xE0
    ensures LeadingOnes(4) == 0xF0 && LeadingOnes(5) == 0xF8 && LeadingOnes(6) == 0xFC && LeadingOnes(7) == 0xFE
    ensures LeadingOnes(8) == 0xFF
  {
  }

  lemma PrefixMaskValue(p: nat)
    requires p <= 32
    ensures Pow2(32 - p) <= Pow2(32) && Value(PrefixMask(p)) == Pow2(32) - Pow2(32 - p)
  {
    hide Pow2, LeadingOnes;
    Pow2Of8();
    Pow2Of0();
    MaskOctets();
    if p <= 8 {
      Pow2Adds(8 - p, 24);
      LeadingOnesIs(p);
    } else if p <= 16 {
      Pow2Adds(16 - p, 16);
      LeadingOnesIs(p - 8);
    } else if p <= 24 {
      Pow2Adds(24 - p, 8);
      LeadingOnesIs(p - 16);
    } else {
      LeadingOnesIs(p - 24);
    }
  }

  /** Broadcast minus network is `2^(32-p) - 1`. */
  lemma PrefixSpan(ip: IPAddress, p: nat)
    requires p <= 32
    ensures Value(Broadcast(ip, PrefixMask(p))) - Value(NetworkID(ip, PrefixMask(p))) == Pow2(32 - p) - 1
  {
    Pow2Of8();
    SubnetSpan(ip, PrefixMask(p));
    PrefixMaskValue(p);
  }

  /** The network id clears the host part. */
  lemma PrefixNetwork(ip: IPAddress, p: nat)
    requires p <= 32
    ensures Value(NetworkID(ip, PrefixMask(p))) == Value(ip) - Value(ip) % Pow2(32 - p)
  {
    hide And, Pow2, NetworkID, PrefixMask, Value;
    ValueFits(ip);
    PrefixMaskValue(p);
    NetworkIDMasksValue(ip, PrefixMask(p));
    AndCommutes(Value(PrefixMask(p)), Value(ip));
    AndMask(Value(ip), 32, 32 - p);
  }

  lemma SameBlockIff(u: nat, v: nat, s: nat)
    requires s > 0
    ensures u - u % s == v - v % s <==> u - u % s <= v <= u - u % s + (s - 1)
  {
    var base := u - u % s;
    if base <= v <= base + (s - 1) {
      assert u == s * (u / s) + u % s;
      ModOf(v, s, u / s, v - base);
    }
  }

  /** Two addresses have the same network id exactly when the second lies between the
      network id and the broadcast address of the first. */
  lemma SameNetworkIff(a: IPAddress, b: IPAddress, p: nat)
    requires p <= 32
    ensures NetworkID(a, PrefixMask(p)) == NetworkID(b, PrefixMask(p)) <==>
      Value(NetworkID(a, PrefixMask(p))) <= Value(b) <= Value(Broadcast(a, PrefixMask(p)))
  {
    hide Pow2, NetworkID, Broadcast, Value, PrefixMask;
    PrefixSpan(a, p);
    PrefixNetwork(a, p);
    PrefixNetwork(b, p);
    SameBlockIff(Value(a), Value(b), Pow2(32 - p));
    if Value(NetworkID(a, PrefixMask(p))) == Value(NetworkID(b, PrefixMask(p))) {
      ValueInjective(NetworkID(a, PrefixMask(p)), NetworkID(b, PrefixMask(p)));
    }
  }

  // ---------------------------------------------------------------- the code

  method CalculateNetworkID(ip: IPAddress, subnet: IPAddress) returns (networkID: IPAddress)
    ensures networkID == NetworkID(ip, subnet)
  {
    networkID := [0, 0, 0, 0];
    for i := 0 to 4
      invariant forall k | 0 <= k < i :: networkID[k] == AndOctet(subnet[k], ip[k])
    {
      networkID := networkID[i := AndOctet(subnet[i], ip[i])];
    }
  }

  method CalculateBroadcast(ip: IPAddress, subnet: IPAddress) returns (broadcastIp: IPAddress)
    ensures broadcastIp == Broadcast(ip, subnet)
  {
    broadcastIp := [0, 0, 0, 0];
    for i := 0 to 4
      invariant forall k | 0 <= k < i :: broadcastIp[k] == OrNotOctet(subnet[k], ip[k])
    {
      broadcastIp := broadcastIp[i := OrNotOctet(subnet[i], ip[i])];
    }
  }

  /** The number of ones of a mask octet, 0 for an octet that is none. */
  function OnesOf(octet: Byte): (k: nat)
    ensures k <= 8
  {
    if octet == 0x80 then 1 else if octet == 0xC0 then 2 else if octet == 0xE0 then 3
    else if octet == 0xF0 then 4 else if octet == 0xF8 then 5 else if octet == 0xFC then 6
    else if octet == 0xFE then 7 else if octet == 0xFF then 8 else 0
  }

  function OnesUpTo(mask: IPAddress, n: nat): nat
    requires n <= 4
  {
    if n == 0 then 0 else OnesUpTo(mask, n - 1) + OnesOf(mask[n - 1])
  }

  lemma OnesOfLeading(k: nat)
    requires k <= 8
    ensures OnesOf(LeadingOnes(k)) == k
  {
    MaskOctets();
    assert k == 0 || k == 1 || k == 2 || k == 3 || k == 4 || k == 5 || k == 6 || k == 7 || k == 8;
  }

  /** The prefix length comes back for every contiguous mask. */
  lemma CidrOfPrefix(p: nat)
    requires p <= 32
    ensures OnesUpTo(PrefixMask(p), 4) == p
  {
    hide LeadingOnes;
    var m := PrefixMask(p);
    OnesOfLeading(OnesIn(p, 0));
    OnesOfLeading(OnesIn(p, 1));
    OnesOfLeading(OnesIn(p, 2));
    OnesOfLeading(OnesIn(p, 3));
    assert OnesUpTo(m, 1) == OnesOf(m[0]);
    assert OnesUpTo(m, 2) == OnesOf(m[0]) + OnesOf(m[1]);
    assert OnesUpTo(m, 3) == OnesUpTo(m, 2) + OnesOf(m[2]);
  }

  method CalculateSubnetCIDR(subnetMask: IPAddress) returns (cidr: Byte)
    ensures cidr == OnesUpTo(subnetMask, 4)
    ensures forall p: nat | p <= 32 && subnetMask == PrefixMask(p) :: cidr == p
  {
    cidr := 0;
    for i := 0 to 4
      invariant cidr == OnesUpTo(subnetMask, i) <= 8 * i
    {
      if subnetMask[i] == 0x80 {
        cidr := cidr + 1;
      } else if subnetMask[i] == 0xC0 {
        cidr := cidr + 2;
      } else if subnetMask[i] == 0xE0 {
        cidr := cidr + 3;
      } else if subnetMask[i] == 0xF0 {
        cidr := cidr + 4;
      } else if subnetMask[i] == 0xF8 {
        cidr := cidr + 5;
      } else if subnetMask[i] == 0xFC {
        cidr := cidr + 6;
      } else if subnetMask[i] == 0xFE {
        cidr := cidr + 7;
      } else if subnetMask[i] == 0xFF {
        cidr := cidr + 8;
      }
    }
    forall p: nat | p <= 32 && subnetMask == PrefixMask(p)
      ensures cidr == p
    {
      CidrOfPrefix(p);
    }
  }
}
