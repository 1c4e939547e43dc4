/** When the server runs out of addresses: exactly by counting leases, and which requests then make its search
    endless. */
module DhcpRoom {
  import opened Bits
  import opened DhcpAcks
  import opened DhcpModel
  import opened DhcpRuns
  import opened DhcpSearch
  import opened Seqs

  /** The addresses the server never gives out; the server's own may be the network or broadcast address. */
  function ReservedIps(c: Config): set<nat> {
    {c.myIp, c.Network(), c.Broadcast()}
  }

  /** The addresses of the subnet. */
  ghost function Subnet(c: Config): set<nat> {
    Numbers(c.Network(), Size(c))
  }

  lemma BroadcastIs(c: Config)
    requires c.Contiguous()
    ensures c.Broadcast() == c.Network() + Size(c) - 1
    ensures c.Network() <= c.myIp <= c.Broadcast()
  {
    hide And, Or, Pow2;
    Masks(c, c.myIp);
    Pow2Is32();
    OrLow(c.myIp, c.hostBits, Size(c));
    DivMod(c.myIp, Size(c));
  }

  lemma SubnetMembers(c: Config, ip: nat)
    requires c.Contiguous()
    ensures ip in Subnet(c) <==> ip < 0x1_0000_0000 && c.InSubnet(ip)
    ensures |Subnet(c)| == Size(c)
  {
    hide Numbers, Config.InSubnet;
    NumbersMembers(c.Network(), Size(c), ip);
    NumbersSize(c.Network(), Size(c));
    var a := NetworkIsMultiple(c);
    if ip < 0x1_0000_0000 {
      InSubnetIff(c, ip);
    }
  }

  // ---------- Counting ----------

  lemma {:induction false} BoundIpsExact(bs: seq<Binding>, ip: nat)
    ensures ip in BoundIps(bs) <==> Bound(bs, ip)
  {
    if bs != [] {
      BoundIpsExact(bs[1..], ip);
      if Bound(bs, ip) {
        BoundIpsMembers(bs, ip);
      }
      if i :| 0 <= i < |bs[1..]| && bs[1..][i].ip == ip {
        assert bs[i + 1].ip == ip;
      }
    }
  }

  ghost predicate DistinctIps(bs: seq<Binding>) {
    forall i, j :: 0 <= i < j < |bs| ==> bs[i].ip != bs[j].ip
  }

  lemma {:induction false} DistinctCount(bs: seq<Binding>)
    requires DistinctIps(bs)
    ensures |BoundIps(bs)| == |bs|
  {
    if bs != [] {
      DistinctCount(bs[1..]);
      BoundIpsExact(bs[1..], bs[0].ip);
    }
  }

  /** Leased or reserved: what is taken of the subnet. */
  lemma TakenCount(c: Config, bs: seq<Binding>)
    requires c.Contiguous() && Sound(c, bs)
    ensures |ReservedIps(c) + BoundIps(bs)| == |ReservedIps(c)| + |bs|
    ensures ReservedIps(c) + BoundIps(bs) <= Subnet(c)
  {
    hide Config.InSubnet, Subnet, BoundIps;
    DistinctCount(bs);
    forall ip | ip in BoundIps(bs) ensures ip !in ReservedIps(c) && ip in Subnet(c) {
      BoundIpsExact(bs, ip);
      SubnetMembers(c, ip);
    }
    assert ReservedIps(c) !! BoundIps(bs);
    ReservedInSubnet(c);
  }

  lemma ReservedInSubnet(c: Config)
    requires c.Contiguous()
    ensures ReservedIps(c) <= Subnet(c)
  {
    hide Numbers, And, Or, Config.Network, Config.Broadcast;
    BroadcastIs(c);
    NumbersMembers(c.Network(), Size(c), c.myIp);
    NumbersMembers(c.Network(), Size(c), c.Network());
    NumbersMembers(c.Network(), Size(c), c.Broadcast());
  }

  lemma ProperSubset<X>(a: set<X>, b: set<X>)
    requires a <= b
    ensures |a| < |b| <==> exists x :: x in b && x !in a
  {
    SubsetSize(a, b);
    if |a| < |b| && !exists x :: x in b && x !in a {
      SubsetSize(b, a);
    }
    if x :| x in b && x !in a {
      SubsetSize(a, b - {x});
    }
  }

  /** An address is left exactly when leases and reserved addresses together are fewer than the subnet has. */
  lemma HasFreeExactly(c: Config, bs: seq<Binding>)
    requires c.Contiguous() && Sound(c, bs)
    ensures HasFree(c, bs) <==> |bs| + |ReservedIps(c)| < Size(c)
  {
    hide Config.InSubnet, Subnet, BoundIps, Sound, Config.Contiguous, Size;
    var taken := ReservedIps(c) + BoundIps(bs);
    TakenCount(c, bs);
    SubnetMembers(c, c.myIp);
    ProperSubset(taken, Subnet(c));
    if HasFree(c, bs) {
      var ip: u32 :| c.InSubnet(ip) && ValidIp(c, bs, ip);
      SubnetMembers(c, ip);
      BoundIpsExact(bs, ip);
      assert ip in Subnet(c) && ip !in taken;
    }
    if ip :| ip in Subnet(c) && ip !in taken {
      SubnetMembers(c, ip);
      BoundIpsExact(bs, ip);
      var free: u32 := ip;
      assert c.InSubnet(free) && ValidIp(c, bs, free);
    }
  }

  /** The search tries an assignable address sooner or later exactly when the count leaves one. */
  lemma SearchEndsByCount(c: Config, bs: seq<Binding>, current: nat)
    requires c.Contiguous() && Sound(c, bs)
    ensures (exists j :: j >= 1 && ValidIp(c, bs, Candidate(c, current, j))) <==> |bs| + |ReservedIps(c)| < Size(c)
  {
    hide Sound, ValidIp, Candidate, HasFree, ReservedIps;
    HasFreeExactly(c, bs);
    SearchEndsExactly(c, bs, current);
  }

  // ---------- Requests that are never answered ----------

  /** The server never answers exactly the discoveries of clients without a lease that meet a full subnet. */
  lemma HangsExactly(c: Config, s: Server, r: Request)
    requires c.Contiguous() && Sound(c, s.bindings)
    ensures Hangs(c, s, r) <==>
            && MessageType(DISCOVER) in r.options && MessageType(REQUEST) !in r.options
            && LookupMac(s.bindings, r.mac) == NOT_FOUND
            && |s.bindings| + |ReservedIps(c)| >= Size(c)
  {
    hide Config.Contiguous, Sound, ScanOptions, Granted, Leased, Addresses, ReservedIps, HasFree, LookupMac, Size;
    var n, bs := |r.options|, s.bindings;
    var ips := Addresses(r, n);
    ScanTracks(c, s, r, n);
    RequestSeen(c, r, Start(s), n);
    assert r.options[..n] == r.options;
    if MessageType(REQUEST) !in r.options {
      DiscoveryScanned(c, r, Start(s), r.options);
    }
    LeasedLookup(c, bs, r.mac, ips);
    HasFreeExactly(c, bs);
    if FirstUsable(c, bs, ips) < |ips| {
      UsableIsFree(c, bs, ips[FirstUsable(c, bs, ips)]);
    }
  }

  lemma UsableIsFree(c: Config, bs: seq<Binding>, ip: u32)
    requires Usable(c, bs, ip)
    ensures HasFree(c, bs)
  {
    hide Config.InSubnet, ValidIp;
  }

  /** The first client that asks for a usable address gets it recorded. */
  lemma FirstRecorded(c: Config, s: Server, r: Request, ip: u32)
    requires c.Contiguous() && s.bindings == [] && Usable(c, [], ip)
    requires r.ciaddr == 0 && r.options == [RequestedIp(ip), MessageType(REQUEST)]
    ensures !Hangs(c, s, r)
    ensures Serve(c, s, r).0.bindings == [Binding(r.mac, ip)] && Sound(c, Serve(c, s, r).0.bindings)
  {
    hide Config.Contiguous, Usable, ReservedIps, Size, Hangs, ScanOptions, OfferTo;
    HangsExactly(c, s, r);
    ServeSound(c, s, r);
    ScanTracks(c, s, r, 2);
    RequestSeen(c, r, Start(s), 2);
    assert r.options[..2] == r.options && r.options[1] == MessageType(REQUEST);
    OneAddress(r);
  }

  lemma OneAddress(r: Request)
    requires |r.options| == 2 && r.options[0].RequestedIp? && r.ciaddr == 0 && r.options[1] == MessageType(REQUEST)
    ensures Addresses(r, 2) == [r.options[0].ip]
  {
    assert Addresses(r, 0) == [];
    assert Addresses(r, 1) == [r.options[0].ip];
  }

  /** A full subnet is reached by a run. In 192.168.10.0/30 the server is .1, and a first client takes .2, the only
      address there is to give; a second client's discovery is then never answered. */
  lemma HangExample(c: Config, s: Server, ip: u32, first: Request, second: Request)
    requires c == Config(0xC0A80A01, 0xFFFFFFFC, 2) && s == Server([], 0, 0) && ip == 0xC0A80A02
    requires first == Request([2, 0, 0, 0, 0, 1], 0, [RequestedIp(ip), MessageType(REQUEST)])
    requires second == Request([2, 0, 0, 0, 0, 2], 0, [MessageType(DISCOVER)])
    ensures c.Contiguous() && NeverHangs(c, s, [first]) && Hangs(c, Run(c, s, [first]), second)
  {
    hide Serve, Hangs, Config.Contiguous, ReservedIps, Sound, Usable;
    SmallNet(c, ip);
    FirstRecorded(c, s, first, ip);
    assert [first][1..] == [];
    HangsExactly(c, Serve(c, s, first).0, second);
  }

  lemma SmallNet(c: Config, ip: u32)
    requires c == Config(0xC0A80A01, 0xFFFFFFFC, 2) && ip == 0xC0A80A02
    ensures c.Contiguous() && Size(c) == 4 && |ReservedIps(c)| == 3 && Usable(c, [], ip)
  {
    hide Config.Contiguous, Size, Config.Network, Config.Broadcast, Config.InSubnet;
    SmallSize(c);
    SmallNetwork(c);
    BroadcastIs(c);
    InSubnetIff(c, ip);
    var n := c.Network();
    assert ReservedIps(c) == {n + 1, n, n + 3};
  }

  lemma SmallSize(c: Config)
    requires c == Config(0xC0A80A01, 0xFFFFFFFC, 2)
    ensures c.Contiguous() && Size(c) == 4
  {
    assert Pow2(2) == 4;
    Pow2Is32();
    hide Pow2;
  }

  lemma SmallNetwork(c: Config)
    requires c == Config(0xC0A80A01, 0xFFFFFFFC, 2) && c.Contiguous() && Size(c) == 4
    ensures c.Network() == 0xC0A80A00
  {
    hide And, Pow2, Size;
    Masks(c, c.myIp);
  }
}
