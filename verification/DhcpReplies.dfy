/** Which reply a message gets, what it leaves behind in the lease table, and how offers go round the subnet. */
module DhcpReplies {
  import opened Bits
  import opened DhcpAcks
  import opened DhcpModel
  import opened DhcpRoom
  import opened DhcpRuns
  import opened DhcpSearch

  // ---------- The kind of a reply ----------

  lemma {:induction false} Flags(c: Config, r: Request, s: Scan, n: nat)
    requires n <= |r.options|
    ensures var t := ScanOptions(c, r, s, r.options[..n]);
            && (t.needIp <==> s.needIp || MessageType(3) in r.options[..n])
            && (t.discovered <==> s.discovered || MessageType(1) in r.options[..n])
    decreases n
  {
    hide ScanOption;
    if n > 0 {
      Flags(c, r, s, n - 1);
      ScanNext(c, r, s, n - 1);
      OptionFlags(c, r, ScanOptions(c, r, s, r.options[..n - 1]), r.options[n - 1]);
      assert r.options[..n] == r.options[..n - 1] + [r.options[n - 1]];
    }
  }

  /** The message types (1 is a discovery, 3 a request) decide the kind of reply: a message of neither type is not
      answered, a discovery gets an offer, and a request is acknowledged or refused even if it is a discovery too. */
  lemma ReplyExactly(c: Config, s: Server, r: Request)
    ensures var reply := Serve(c, s, r).1;
            && (reply == NoResponse <==> MessageType(1) !in r.options && MessageType(3) !in r.options)
            && (reply.Offer? <==> MessageType(1) in r.options && MessageType(3) !in r.options)
            && (reply.Ack? || reply == Nak <==> MessageType(3) in r.options)
  {
    hide ScanOptions, LookupMac, FirstValid, Candidate, Add;
    Flags(c, r, Start(s), |r.options|);
    assert r.options[..|r.options|] == r.options;
  }

  // ---------- What a reply leaves behind ----------

  /** The client has no lease when its options have been read. */
  predicate NoLease(c: Config, s: Server, r: Request) {
    LookupMac(Leased(c, s.bindings, r.mac, Addresses(r, |r.options|)), r.mac) == 0
  }

  /** Whatever the reply, the first usable address named by a client without a lease is recorded. Only an offer to
      a client that still has no lease does more: it records the address offered, and the next search goes on from
      there. */
  lemma TableAfter(c: Config, s: Server, r: Request)
    requires c.Contiguous() && Sound(c, s.bindings)
    ensures var (s', reply) := Serve(c, s, r);
            var bs := Leased(c, s.bindings, r.mac, Addresses(r, |r.options|));
            if reply.Offer? && NoLease(c, s, r) then
              && bs == s.bindings && s'.current == reply.ip
              && s'.bindings == if |bs| < 8 then bs + [Binding(r.mac, reply.ip)] else bs
            else
              s'.bindings == bs && s'.current == s.current
  {
    hide Config.Contiguous, Sound, ScanOptions, Leased, Addresses, LookupMac, FirstValid, Candidate;
    var n := |r.options|;
    ScanTracks(c, s, r, n);
    ReplyExactly(c, s, r);
    assert r.options[..n] == r.options;
    LeasedLookup(c, s.bindings, r.mac, Addresses(r, n));
  }

  // ---------- Round robin ----------

  /** The address `k` places behind `current`, going round the subnet. */
  function Turn(c: Config, current: nat, k: nat): nat {
    c.Network() + (current + k) % Size(c)
  }

  lemma ServedOffer(c: Config, s: Server, r: Request)
    requires c.Contiguous() && Sound(c, s.bindings) && NoLease(c, s, r)
    requires MessageType(1) in r.options && MessageType(3) !in r.options
    ensures Serve(c, s, r).1 == OfferTo(c, s, r.mac).1 && LookupMac(s.bindings, r.mac) == 0
  {
    hide Config.Contiguous, Sound, ScanOptions, Leased, Addresses, LookupMac, FirstValid, Candidate;
    var n := |r.options|;
    ScanTracks(c, s, r, n);
    Flags(c, r, Start(s), n);
    assert r.options[..n] == r.options;
    LeasedLookup(c, s.bindings, r.mac, Addresses(r, n));
  }

  /** The address a client without a lease is offered: the first assignable one behind the last one offered, going
      round the subnet. */
  lemma OfferedInTurn(c: Config, s: Server, r: Request) returns (n: nat)
    requires c.Contiguous() && Sound(c, s.bindings) && HasFree(c, s.bindings) && NoLease(c, s, r)
    requires MessageType(1) in r.options && MessageType(3) !in r.options
    ensures n >= 1 && ValidIp(c, s.bindings, Turn(c, s.current, n))
    ensures forall k :: 1 <= k < n ==> !ValidIp(c, s.bindings, Turn(c, s.current, k))
    ensures Serve(c, s, r).1.Offer? && Serve(c, s, r).1.ip == Turn(c, s.current, n)
  {
    hide Config.Contiguous, Sound, Serve, HasFree, Size, ValidIp, LookupMac, Config.Network, Candidate, NoLease;
    ServedOffer(c, s, r);
    n := FirstValid(c, s.bindings, s.current, 1);
    FreeIsFound(c, s.bindings, s.current);
    CandidateIs(c, s.current, n);
    CandidateInSubnet(c, s.current, n);
    forall k | 1 <= k < n ensures !ValidIp(c, s.bindings, Turn(c, s.current, k)) {
      CandidateIs(c, s.current, k);
    }
  }

  lemma TwoLeaveOne(c: Config, bs: seq<Binding>, mac: Mac, ip: u32, a: u32, b: u32)
    requires a != b && c.InSubnet(a) && ValidIp(c, bs, a) && c.InSubnet(b) && ValidIp(c, bs, b)
    ensures HasFree(c, bs) && HasFree(c, bs + [Binding(mac, ip)])
    ensures !ValidIp(c, bs + [Binding(mac, ip)], ip)
  {
    hide Config.InSubnet, Config.Reserved;
    var more := bs + [Binding(mac, ip)];
    var free := if ip == a then b else a;
    assert ValidIp(c, more, free);
    assert more[|bs|].ip == ip;
  }

  /** Going on from an address, the search comes back to it only after every other. */
  lemma NotAtOnce(c: Config, bs: seq<Binding>, ip: u32, other: u32, n: nat)
    requires c.Contiguous() && c.InSubnet(ip) && c.InSubnet(other) && ip != other && ValidIp(c, bs, other)
    requires n >= 1 && forall k :: 1 <= k < n ==> !ValidIp(c, bs, Turn(c, ip, k))
    ensures Turn(c, ip, n) != ip
  {
    hide Config.Contiguous, Config.InSubnet, ValidIp, Size, Config.Network, Candidate;
    var j := CandidateReaches(c, ip, other);
    CandidateIs(c, ip, j);
    CandidateIs(c, ip, n);
    assert Turn(c, ip, j) == other;
    BackAtStart(c, ip);
    if Candidate(c, ip, n) == ip && n < Size(c) {
      var k := Size(c) - n;
      CandidateIs(c, ip, Size(c));
      ModDiffers(ip + n, k, Size(c));
    }
  }

  lemma BackAtStart(c: Config, ip: u32)
    requires c.Contiguous() && c.InSubnet(ip)
    ensures Candidate(c, ip, Size(c)) == ip
  {
    hide Config.Contiguous, Config.InSubnet, Size, Config.Network, Candidate;
    var m := Size(c);
    var j := CandidateReaches(c, ip, ip);
    CandidateIs(c, ip, j);
    CandidateIs(c, ip, m);
    if j < m {
      var a := NetworkIsMultiple(c);
      InSubnetIff(c, ip);
      ModUnique(ip, m, a, ip - c.Network());
      ModDiffers(ip, j, m);
    }
  }

  /** Two discoveries in a row, from clients without a lease, are never offered the same address while two are
      assignable; not even when the lease table is full and neither offer is recorded. */
  lemma OffersDiffer(c: Config, s: Server, first: Request, second: Request, a: u32, b: u32)
    requires c.Contiguous() && Sound(c, s.bindings)
    requires a != b && c.InSubnet(a) && ValidIp(c, s.bindings, a) && c.InSubnet(b) && ValidIp(c, s.bindings, b)
    requires MessageType(1) in first.options && MessageType(3) !in first.options
    requires MessageType(1) in second.options && MessageType(3) !in second.options
    requires NoLease(c, s, first) && NoLease(c, Serve(c, s, first).0, second)
    ensures var (s', reply) := Serve(c, s, first);
            reply.Offer? && Serve(c, s', second).1.Offer? && reply != Serve(c, s', second).1
  {
    hide Config.Contiguous, Sound, Serve, HasFree, ValidIp, NoLease, Size, Config.InSubnet, Config.Network, Leased,
         Addresses;
    var bs := s.bindings;
    ReplyExactly(c, s, first);
    TableAfter(c, s, first);
    var (s', reply) := Serve(c, s, first);
    TwoLeaveOne(c, bs, first.mac, reply.ip, a, b);
    var n := OfferedInTurn(c, s, first);
    NoneHang(c, s, first);
    ServeSound(c, s, first);
    var n' := OfferedInTurn(c, s', second);
    if s'.bindings == bs {
      NotAtOnce(c, bs, reply.ip, if reply.ip == a then b else a, n');
    }
  }

  lemma NoneHang(c: Config, s: Server, r: Request)
    requires c.Contiguous() && Sound(c, s.bindings) && HasFree(c, s.bindings)
    ensures !Hangs(c, s, r)
  {
    hide Config.Contiguous, Sound, HasFree, Hangs, ReservedIps, Size, LookupMac;
    HasFreeExactly(c, s.bindings);
    HangsExactly(c, s, r);
  }
}
