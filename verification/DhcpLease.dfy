/** The addresses that the access point's DHCP server leases. */
module DhcpLease {
  import opened Words
  import opened Bits
  import opened Ipv4

  const LEASES := 11

  /** The 32-bit word of an address in memory order: the first octet is the lowest. */
  function Word(ip: IPAddress): Word32 {
    ip[0] as int + 0x100 * (ip[1] as int) + 0x1_0000 * (ip[2] as int) + 0x100_0000 * (ip[3] as int)
  }

  function FromWord(w: Word32): IPAddress {
    [w % 0x100, w / 0x100 % 0x100, w / 0x1_0000 % 0x100, w / 0x100_0000]
  }

  lemma WordParts(a: Byte, b: Byte, c: Byte, d: Byte)
    ensures FromWord(Word([a, b, c, d])) == [a, b, c, d]
  {
    var w := Word([a, b, c, d]);
    var w1: int := b as int + 0x100 * (c as int) + 0x1_0000 * (d as int);
    var w2: int := c as int + 0x100 * (d as int);
    assert w == a as int + 0x100 * w1 && w1 == b as int + 0x100 * w2;
    assert w / 0x100 == w1 && w1 / 0x100 == w2;
    assert w / 0x1_0000 == w2 && w / 0x100_0000 == d;
  }

  /** Adding to the top byte touches the last octet alone, and wraps there. */
  lemma AddToLastOctet(ip: IPAddress, k: nat)
    requires k <= LEASES
    ensures FromWord((Word(ip) + k * 0x100_0000) % 0x1_0000_0000) == [ip[0], ip[1], ip[2], (ip[3] + k) % 0x100]
  {
    var low: int := ip[0] as int + 0x100 * (ip[1] as int) + 0x1_0000 * (ip[2] as int);
    var last := (ip[3] as int + k) % 0x100;
    assert (Word(ip) + k * 0x100_0000) % 0x1_0000_0000 == low + 0x100_0000 * last;
    WordParts(ip[0], ip[1], ip[2], last);
  }

  lemma LowPart(low: nat, octet: Byte)
    requires low < 0x100_0000
    ensures (low + 0x100_0000 * (octet as int)) % 0x100_0000 == low
  {
  }

  lemma ClearLastOctet(ip: IPAddress)
    ensures And(Word(ip), 0x00FF_FFFF) == Word([ip[0], ip[1], ip[2], 0])
  {
    hide And, Pow2;
    Pow2Of8();
    AndLowBits(Word(ip), 24);
    assert Word(ip) == Word([ip[0], ip[1], ip[2], 0]) + 0x100_0000 * (ip[3] as int);
    LowPart(Word([ip[0], ip[1], ip[2], 0]), ip[3]);
  }

  // ---------------------------------------------------------------- the lease range

  /** The octet below which the range follows the local address: `~mask - 12` in 8 bits. */
  function LeaseStart(mask: Byte): Byte { (243 - mask as int) % 0x100 }

  function Base(local: Byte, mask: Byte): Byte { if local < LeaseStart(mask) then local else 0 }

  /** The last octet of the k-th leased address. */
  function Leased(local: Byte, mask: Byte, k: nat): Byte { (Base(local, mask) + k) % 0x100 }

  /** The address leased k-th, counting from 1. */
  function LeasedAddress(localIp: IPAddress, subnet: IPAddress, k: nat): IPAddress {
    [localIp[0], localIp[1], localIp[2], Leased(localIp[3], subnet[3], k)]
  }

  method LeaseRange(localIp: IPAddress, subnet: IPAddress) returns (startIp: IPAddress, endIp: IPAddress)
    ensures startIp == LeasedAddress(localIp, subnet, 1) && endIp == LeasedAddress(localIp, subnet, LEASES)
  {
    var dhcpIpaddr := Word(localIp);
    var notSubnet: int := -(subnet[3] as int) - 1;
    var leaseStart := (notSubnet - 12) % 0x100;
    if localIp[3] < leaseStart {
      AddToLastOctet(localIp, 1);
      AddToLastOctet(localIp, LEASES);
      startIp := FromWord((dhcpIpaddr + 1 * 0x100_0000) % 0x1_0000_0000);
      endIp := FromWord((dhcpIpaddr + 11 * 0x100_0000) % 0x1_0000_0000);
    } else {
      ClearLastOctet(localIp);
      AddToLastOctet([localIp[0], localIp[1], localIp[2], 0], 1);
      AddToLastOctet([localIp[0], localIp[1], localIp[2], 0], LEASES);
      dhcpIpaddr := And(dhcpIpaddr, 0x00FF_FFFF);
      startIp := FromWord((dhcpIpaddr + 1 * 0x100_0000) % 0x1_0000_0000);
      endIp := FromWord((dhcpIpaddr + 11 * 0x100_0000) % 0x1_0000_0000);
    }
  }

  /** A usable range: from start to end eleven addresses without a wrap, the access point's
      own address not among them. */
  predicate Usable(local: Byte, mask: Byte) {
    && Leased(local, mask, 1) + (LEASES - 1) == Leased(local, mask, LEASES)
    && !(Leased(local, mask, 1) <= local <= Leased(local, mask, LEASES))
  }

  lemma UsableIff(local: Byte, mask: Byte)
    ensures Usable(local, mask) <==>
      if local < LeaseStart(mask) then local <= 244 else local == 0 || local > LEASES
  {
  }

  /** For which masks the range is usable whatever the local address is: 0, 128, 192 and 224
      among them, but not 240, 248 and 252. */
  lemma AlwaysUsableIff(mask: Byte)
    ensures (forall local: Byte :: Usable(local, mask)) <==> mask <= 231 || mask >= 254
  {
    if mask <= 231 || mask >= 254 {
      forall local: Byte
        ensures Usable(local, mask)
      {
        UsableIff(local, mask);
      }
    } else if mask <= 243 {
      UsableIff(LEASES, mask);
    } else {
      UsableIff(245, mask);
    }
  }

  /** All leased addresses lie on the network of the local address. */
  ghost predicate OnNetwork(local: Byte, mask: Byte) {
    forall k: nat | 1 <= k <= LEASES :: AndOctet(mask, Leased(local, mask, k)) == AndOctet(mask, local)
  }

  /** The number with its host part cleared. */
  function Block(x: nat, host: int): int
    requires host > 0
  {
    x - x % host
  }

  lemma FirstBlockIff(x: nat, host: int)
    requires host > 0
    ensures Block(x, host) == 0 <==> x < host
  {
    if x < host {
      SmallMod(x, host);
    }
  }

  lemma MaskedOctet(ones: nat, x: Byte)
    requires ones <= 8
    ensures AndOctet(LeadingOnes(ones), x) == Block(x, Pow2(8 - ones))
  {
    hide And, Pow2, LeadingOnes;
    Pow2Of8();
    LeadingOnesIs(ones);
    AndMask(x, 8, 8 - ones);
    AndCommutes(LeadingOnes(ones), x);
  }

  lemma WideMask(local: Byte, mask: Byte, host: int)
    requires 16 <= host == 256 - mask
    ensures (forall k: nat | 1 <= k <= LEASES ::
               Block(Leased(local, mask, k), host) == Block(local, host))
      <==> Block(local, host) == 0
  {
    hide Block;
    assert LeaseStart(mask) == host - 13;
    FirstBlockIff(local, host);
    if local < host {
      forall k: nat | 1 <= k <= LEASES
        ensures Block(Leased(local, mask, k), host) == 0
      {
        FirstBlockIff(Leased(local, mask, k), host);
      }
    } else {
      assert Leased(local, mask, 1) == 1;
      FirstBlockIff(1, host);
    }
  }

  lemma NarrowMask(local: Byte, mask: Byte, host: int)
    requires 1 <= host <= 8
    ensures !(forall k: nat | 1 <= k <= LEASES ::
               Block(Leased(local, mask, k), host) == Block(local, host))
  {
    var x: int, y: int := Leased(local, mask, 1), Leased(local, mask, 9);
    assert y == x + 8 || y == x - 248;
    assert Block(x, host) != Block(y, host);
  }

  lemma HostSizes()
    ensures Pow2(0) == 1 && Pow2(1) == 2 && Pow2(2) == 4 && Pow2(3) == 8
    ensures Pow2(4) == 16 && Pow2(5) == 32 && Pow2(6) == 64 && Pow2(7) == 128 && Pow2(8) == 256
  {
    assert Pow2(4) == 16;
  }

  /** With a mask of leading ones, they do if and only if the mask leaves at least four host
      bits and the local address lies in the first subnet of its last octet. */
  lemma OnNetworkIff(ones: nat, local: Byte)
    requires ones <= 8
    ensures OnNetwork(local, LeadingOnes(ones)) <==> ones <= 4 && AndOctet(LeadingOnes(ones), local) == 0
  {
    hide AndOctet, LeadingOnes, Pow2, Leased;
    var mask, host := LeadingOnes(ones), Pow2(8 - ones);
    LeadingOnesIs(ones);
    HostSizes();
    MaskedOctet(ones, local);
    forall k: nat | 1 <= k <= LEASES
      ensures AndOctet(mask, Leased(local, mask, k)) == Block(Leased(local, mask, k), host)
    {
      MaskedOctet(ones, Leased(local, mask, k));
    }
    if ones <= 4 {
      assert host >= 16 by {
        assert ones == 0 || ones == 1 || ones == 2 || ones == 3 || ones == 4;
      }
      WideMask(local, mask, host);
    } else {
      assert host <= 8 by {
        assert ones == 5 || ones == 6 || ones == 7 || ones == 8;
      }
      NarrowMask(local, mask, host);
    }
  }

  /** Hence when all leased addresses have the network id of the local address. */
  lemma LeasesShareNetworkIff(localIp: IPAddress, subnet: IPAddress, ones: nat)
    requires ones <= 8 && subnet[3] == LeadingOnes(ones)
    ensures (forall k: nat | 1 <= k <= LEASES ::
               NetworkID(LeasedAddress(localIp, subnet, k), subnet) == NetworkID(localIp, subnet))
      <==> ones <= 4 && AndOctet(subnet[3], localIp[3]) == 0
  {
    hide AndOctet, LeadingOnes, Leased;
    OnNetworkIff(ones, localIp[3]);
    forall k: nat | 1 <= k <= LEASES
      ensures NetworkID(LeasedAddress(localIp, subnet, k), subnet) == NetworkID(localIp, subnet)
        <==> AndOctet(subnet[3], Leased(localIp[3], subnet[3], k)) == AndOctet(subnet[3], localIp[3])
    {
      var a, b := NetworkID(LeasedAddress(localIp, subnet, k), subnet), NetworkID(localIp, subnet);
      assert a[0] == b[0] && a[1] == b[1] && a[2] == b[2];
      assert a == b <==> a[3] == b[3];
    }
  }
}
