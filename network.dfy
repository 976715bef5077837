/**
 * Network: which subnet a private IPv4 address belongs to (get_subnet), and
 * the nil guards around address association and ping.
 *
 * get_subnet enumerates every address of each subnet's CIDR block (network
 * and broadcast included), renders each as a dotted quad and looks for the
 * given string among them. `Contains` is that enumeration; `ContainsSpec`
 * states it as "some address of the block renders as the string".
 */
module Network {
  import opened Common

  const Two32: nat := 0x1_0000_0000

  /** A CIDR block as IPAddress parses it: a 32-bit address and a prefix length. */
  datatype CidrBlock = CidrBlock(address: nat, prefix: nat)

  type Cidr = c: CidrBlock | c.address < Two32 && c.prefix <= 32 witness CidrBlock(0, 0)

  datatype Subnet = Subnet(subnetId: string, cidrBlock: Cidr)

  function Pow2(n: nat): (p: nat)
    ensures p >= 1
  {
    if n == 0 then 1 else 2 * Pow2(n - 1)
  }

  lemma {:induction false} Pow2Add(a: nat, b: nat)
    ensures Pow2(a + b) == Pow2(a) * Pow2(b)
  {
    if a != 0 {
      Pow2Add(a - 1, b);
      var x, y := Pow2(a - 1), Pow2(b);
      assert a - 1 + b == a + b - 1;
      assert Pow2(a + b) == 2 * (x * y);
      assert 2 * (x * y) == (2 * x) * y;
    }
  }

  /** Number of addresses in the block. */
  function Size(c: Cidr): nat
  {
    Pow2(32 - c.prefix)
  }

  /** First address of the block (host bits cleared). */
  function NetworkAddress(c: Cidr): nat
  {
    RoundDown(c.address, Size(c))
  }

  /** `a` rounded down to a multiple of `s`. */
  function RoundDown(a: nat, s: nat): nat
    requires s > 0
  {
    var q := a / s;
    MulNat(q, s);
    q * s
  }

  /** Last address of the block (host bits set). */
  function Broadcast(c: Cidr): nat
  {
    NetworkAddress(c) + Size(c) - 1
  }

  lemma MulNat(x: nat, y: nat)
    ensures x * y >= 0
  {
  }

  lemma MulLe(x: nat, y: nat, k: nat)
    requires x <= y
    ensures x * k <= y * k
  {
  }

  lemma DivBelow(a: nat, s: nat, p: nat)
    requires s > 0 && a < s * p
    ensures a / s < p
  {
    var q := a / s;
    assert q * s <= a;
    if q >= p {
      MulLe(p, q, s);
    }
  }

  lemma BlockArith(a: nat, s: nat, p: nat)
    requires s > 0 && a < s * p
    ensures a / s * s <= a <= a / s * s + s - 1 < s * p
  {
    var q := a / s;
    assert a == q * s + a % s;
    DivBelow(a, s, p);
    MulLe(q + 1, p, s);
    assert (q + 1) * s == q * s + s;
  }

  /** The block holds its own address and lies within the 32-bit address space. */
  lemma BlockBounds(c: Cidr)
    ensures NetworkAddress(c) <= c.address <= Broadcast(c) < Two32
  {
    Pow2Add(32 - c.prefix, c.prefix);
    Pow2Value32();
    BlockArith(c.address, Size(c), Pow2(c.prefix));
  }

  lemma Pow2Value32()
    ensures Pow2(32) == Two32
  {
    assert Pow2(8) == 256;
    assert Pow2(16) == 65536;
    assert Pow2(24) == 16777216;
  }

  // ---------------------------------------------------------------------
  // Dotted quads (IPAddress::IPv4#address)
  // ---------------------------------------------------------------------

  /** The four octets of a 32-bit address, most significant first. */
  function Octets(a: nat): seq<nat>
  {
    var b := a / 256;
    var c := b / 256;
    [c / 256, c % 256, b % 256, a % 256]
  }

  /** `a` rendered as four decimal octets joined by dots. */
  function DottedQuad(a: nat): string
  {
    var o := Octets(a);
    Decimal(o[0]) + "." + Decimal(o[1]) + "." + Decimal(o[2]) + "." + Decimal(o[3])
  }

  // ---------------------------------------------------------------------
  // get_subnet
  // ---------------------------------------------------------------------

  /** One of the `n` addresses from `lo` on renders as `ip`: `to_a.map(&:address).include?`. */
  predicate RangeHas(lo: nat, n: nat, ip: string)
    decreases n
  {
    n > 0 && (DottedQuad(lo) == ip || RangeHas(lo + 1, n - 1, ip))
  }

  lemma {:induction false} RangeHasSpec(lo: nat, n: nat, ip: string)
    ensures RangeHas(lo, n, ip) <==> exists a :: lo <= a < lo + n && DottedQuad(a) == ip
    decreases n
  {
    if n > 0 {
      RangeHasSpec(lo + 1, n - 1, ip);
      if exists a :: lo <= a < lo + n && DottedQuad(a) == ip {
        var a :| lo <= a < lo + n && DottedQuad(a) == ip;
        if a != lo {
          assert lo + 1 <= a < lo + 1 + (n - 1);
        }
      }
    }
  }

  /** The block's address list, network through broadcast, includes `ip`. */
  predicate Contains(c: Cidr, ip: string)
  {
    RangeHas(NetworkAddress(c), Size(c), ip)
  }

  /** `ip` is in the block exactly when some address from network to broadcast renders as it. */
  lemma ContainsSpec(c: Cidr, ip: string)
    ensures Contains(c, ip) <==> exists a :: NetworkAddress(c) <= a <= Broadcast(c) && DottedQuad(a) == ip
  {
    RangeHasSpec(NetworkAddress(c), Size(c), ip);
  }

  /** Every address of the block, network and broadcast included, is found. */
  lemma ContainsEdges(c: Cidr, a: nat)
    requires NetworkAddress(c) <= a <= Broadcast(c)
    ensures Contains(c, DottedQuad(a))
  {
    ContainsSpec(c, DottedQuad(a));
  }

  /** The first subnet, in the order given, whose block holds `ip`; nil when none does. */
  function GetSubnet(subnets: seq<Subnet>, ip: string): (r: Option<Subnet>)
    ensures r.Some? ==> exists i :: (0 <= i < |subnets| && subnets[i] == r.value &&
      Contains(r.value.cidrBlock, ip) &&
      forall j :: 0 <= j < i ==> !Contains(subnets[j].cidrBlock, ip))
    ensures r.None? <==> forall j :: 0 <= j < |subnets| ==> !Contains(subnets[j].cidrBlock, ip)
  {
    match FirstWhere(subnets, (s: Subnet) => Contains(s.cidrBlock, ip))
    case None => None
    case Some(i) => Some(subnets[i])
  }

  // ---------------------------------------------------------------------
  // associate_address and ping?
  // ---------------------------------------------------------------------

  datatype Association = Association(instanceId: string, allocationId: string)

  datatype NetworkError = NoAllocation(publicIp: string)

  /**
   * The association associate_address makes. `allocations` maps each public
   * address to its allocation id (describe_addresses); a nil address makes no
   * call at all, and an address without an allocation fails as the nil
   * allocation's `allocation_id` does.
   */
  function AssociateAddress(instanceId: string, publicIp: Option<string>, allocations: map<string, string>)
    : (r: Result<Option<Association>, NetworkError>)
    ensures publicIp.None? ==> r == Ok(None)
    ensures publicIp.Some? && publicIp.value in allocations ==>
      r == Ok(Some(Association(instanceId, allocations[publicIp.value])))
    ensures publicIp.Some? && publicIp.value !in allocations ==> r.Err?
  {
    match publicIp
    case None => Ok(None)
    case Some(ip) =>
      if ip in allocations then Ok(Some(Association(instanceId, allocations[ip])))
      else Err(NoAllocation(ip))
  }

  /** ping?: false for a nil address; otherwise whatever the ICMP probe `reachable` reports. */
  function Ping(ip: Option<string>, reachable: string -> bool): (up: bool)
    ensures up <==> ip.Some? && reachable(ip.value)
  {
    if ip.Some? then reachable(ip.value) else false
  }
}
