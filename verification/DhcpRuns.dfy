/** The lease table over every sequence of requests, and what an ACK means. */
module DhcpRuns {
  import opened Bits
  import opened DhcpModel
  import opened DhcpSearch

  // ---------- The table ----------

  lemma {:induction false} LookupMacFinds(bs: seq<Binding>, mac: Mac)
    ensures LookupMac(bs, mac) != NOT_FOUND ==>
              exists i :: 0 <= i < |bs| && bs[i].mac == mac && bs[i].ip == LookupMac(bs, mac)
    ensures (forall i :: 0 <= i < |bs| ==> bs[i].ip != 0) && LookupMac(bs, mac) == NOT_FOUND ==>
              forall i :: 0 <= i < |bs| ==> bs[i].mac != mac
  {
    if bs != [] && bs[0].mac != mac {
      LookupMacFinds(bs[1..], mac);
      if LookupMac(bs[1..], mac) != NOT_FOUND {
        var i :| 0 <= i < |bs[1..]| && bs[1..][i].mac == mac && bs[1..][i].ip == LookupMac(bs[1..], mac);
        assert bs[i + 1] == bs[1..][i];
      } else if forall i :: 0 <= i < |bs| ==> bs[i].ip != 0 {
        assert forall i :: 0 <= i < |bs[1..]| ==> bs[1..][i].ip != 0;
        forall i | 0 <= i < |bs| ensures bs[i].mac != mac {
          assert i > 0 ==> bs[i] == bs[1..][i - 1];
        }
      }
    }
  }

  /** A binding, once made, is what the client is looked up to, whatever is appended later. */
  lemma {:induction false} LookupMacPrefix(bs: seq<Binding>, more: seq<Binding>, mac: Mac)
    requires LookupMac(bs, mac) != NOT_FOUND
    ensures LookupMac(bs + more, mac) == LookupMac(bs, mac)
  {
    if bs[0].mac != mac {
      LookupMacPrefix(bs[1..], more, mac);
      assert (bs + more)[1..] == bs[1..] + more;
    }
  }

  lemma {:induction false} LookupMacLast(bs: seq<Binding>, mac: Mac, ip: u32)
    requires LookupMac(bs, mac) == NOT_FOUND && ip != 0
    requires forall i :: 0 <= i < |bs| ==> bs[i].ip != 0
    ensures LookupMac(bs + [Binding(mac, ip)], mac) == ip
  {
    if bs != [] {
      assert (bs + [Binding(mac, ip)])[1..] == bs[1..] + [Binding(mac, ip)];
      LookupMacLast(bs[1..], mac, ip);
    }
  }

  /** An assignable address of the subnet is not zero: zero could only be the network address. */
  lemma ValidNonZero(c: Config, bs: seq<Binding>, ip: u32)
    requires c.Contiguous() && c.InSubnet(ip) && ValidIp(c, bs, ip)
    ensures ip != 0
  {
    InSubnetIff(c, ip);
  }

  /** Recording an assignable address for an unknown client keeps the table sound. */
  lemma AddSound(c: Config, bs: seq<Binding>, mac: Mac, ip: u32)
    requires c.Contiguous() && Sound(c, bs) && LookupMac(bs, mac) == NOT_FOUND && c.InSubnet(ip) && ValidIp(c, bs, ip)
    ensures Sound(c, Add(bs, mac, ip)) && bs <= Add(bs, mac, ip)
    ensures |bs| < CACHE_SIZE ==> LookupMac(Add(bs, mac, ip), mac) == ip
  {
    hide Config.InSubnet, Config.Reserved, Config.Contiguous, LookupMac;
    ValidNonZero(c, bs, ip);
    LookupMacFinds(bs, mac);
    LookupMacLast(bs, mac, ip);
  }

  // ---------- One request ----------

  lemma JudgeSound(c: Config, mac: Mac, s: Scan)
    requires c.Contiguous() && Sound(c, s.bindings)
    ensures Sound(c, Judge(c, mac, s).bindings) && s.bindings <= Judge(c, mac, s).bindings
  {
    hide Config.InSubnet, Config.Contiguous, ValidIp, Sound, Add, LookupMac;
    if c.InSubnet(s.clientIp) && LookupMac(s.bindings, mac) == NOT_FOUND && ValidIp(c, s.bindings, s.clientIp) {
      AddSound(c, s.bindings, mac, s.clientIp);
    }
  }

  lemma {:induction false} ScanSound(c: Config, r: Request, s: Scan, os: seq<Option>)
    requires c.Contiguous() && Sound(c, s.bindings)
    ensures Sound(c, ScanOptions(c, r, s, os).bindings) && s.bindings <= ScanOptions(c, r, s, os).bindings
    decreases |os|
  {
    hide Config.Contiguous, Sound, Judge;
    if os != [] {
      var init := os[..|os| - 1];
      ScanSound(c, r, s, init);
      var t, o := ScanOptions(c, r, s, init), os[|os| - 1];
      var s1 := if o.MessageType? && o.kind == DISCOVER then t.(discovered := true)
                else if o.MessageType? && o.kind == REQUEST then t.(needIp := true)
                else t;
      var ips := Supplies(r, o);
      JudgeSound(c, r.mac, if ips == [] then s1 else s1.(clientIp := ips[0], gotClientIp := true));
    }
  }

  /** What the server may answer: an offer is the client's own address or an assignable one of the subnet. */
  ghost predicate GoodOffer(c: Config, bs: seq<Binding>, mac: Mac, ip: u32) {
    c.InSubnet(ip) && !c.Reserved(ip) && (LookupMac(bs, mac) == ip || ValidIp(c, bs, ip))
  }

  lemma OfferSound(c: Config, s: Server, mac: Mac)
    requires c.Contiguous() && Sound(c, s.bindings)
    requires LookupMac(s.bindings, mac) == NOT_FOUND ==> HasFree(c, s.bindings)
    ensures var (s', reply) := OfferTo(c, s, mac);
            && Sound(c, s'.bindings) && s.bindings <= s'.bindings
            && reply.Offer? && GoodOffer(c, s.bindings, mac, reply.ip)
            && (LookupMac(s'.bindings, mac) == reply.ip || |s'.bindings| == CACHE_SIZE)
  {
    hide Config.InSubnet, Config.Reserved, Config.Contiguous, Candidate, FirstValid, LookupMac, HasFree;
    LookupMacFinds(s.bindings, mac);
    if LookupMac(s.bindings, mac) == NOT_FOUND {
      var n := FirstValid(c, s.bindings, s.current, 1);
      FreeIsFound(c, s.bindings, s.current);
      CandidateInSubnet(c, s.current, n);
      var ip: u32 := Candidate(c, s.current, n);
      AddSound(c, s.bindings, mac, ip);
    }
  }

  /** One request keeps the table sound and only ever appends to it. */
  lemma ServeSound(c: Config, s: Server, r: Request)
    requires c.Contiguous() && Sound(c, s.bindings) && !Hangs(c, s, r)
    ensures var (s', reply) := Serve(c, s, r);
            && Sound(c, s'.bindings) && s.bindings <= s'.bindings
            && (reply.Offer? ==> c.InSubnet(reply.ip) && !c.Reserved(reply.ip))
  {
    hide Config.InSubnet, Config.Contiguous, Config.Reserved, HasFree, Sound, ScanOptions, OfferTo, LookupMac;
    ScanSound(c, r, Start(s), r.options);
    var t := ScanOptions(c, r, Start(s), r.options);
    if !t.needIp && t.discovered {
      OfferSound(c, s.(bindings := t.bindings, clientIp := t.clientIp), r.mac);
    }
  }

  // ---------- Every run ----------

  function Run(c: Config, s: Server, rs: seq<Request>): Server
    decreases |rs|
  {
    if rs == [] then s else Run(c, Serve(c, s, rs[0]).0, rs[1..])
  }

  ghost predicate NeverHangs(c: Config, s: Server, rs: seq<Request>)
    decreases |rs|
  {
    rs == [] || (!Hangs(c, s, rs[0]) && NeverHangs(c, Serve(c, s, rs[0]).0, rs[1..]))
  }

  /** Over every sequence of requests the table stays sound, and entries are never changed or removed. */
  lemma {:induction false} RunSound(c: Config, s: Server, rs: seq<Request>)
    requires c.Contiguous() && Sound(c, s.bindings) && NeverHangs(c, s, rs)
    ensures Sound(c, Run(c, s, rs).bindings) && s.bindings <= Run(c, s, rs).bindings
    ensures |Run(c, s, rs).bindings| <= 8
    decreases |rs|
  {
    hide Config.Contiguous, Sound, Serve, Hangs;
    SoundSize(c, s.bindings);
    if rs != [] {
      ServeSound(c, s, rs[0]);
      RunSound(c, Serve(c, s, rs[0]).0, rs[1..]);
    }
  }

  lemma SoundSize(c: Config, bs: seq<Binding>)
    requires Sound(c, bs)
    ensures |bs| <= 8
  {
  }

  /** The lease of a client survives whatever is appended to the table. */
  lemma LeaseKept(bs: seq<Binding>, bs': seq<Binding>, mac: Mac)
    requires LookupMac(bs, mac) != NOT_FOUND && bs <= bs'
    ensures LookupMac(bs', mac) == LookupMac(bs, mac)
  {
    hide LookupMac;
    LookupMacPrefix(bs, bs'[|bs|..], mac);
    assert bs' == bs + bs'[|bs|..];
  }

  /** A client with a lease is offered that address ever after: whatever requests came in between, and whatever
      options its own request has, an offer is for the same address. */
  lemma BoundForever(c: Config, s: Server, rs: seq<Request>, r: Request)
    requires c.Contiguous() && Sound(c, s.bindings) && NeverHangs(c, s, rs) && LookupMac(s.bindings, r.mac) != NOT_FOUND
    ensures var reply := Serve(c, Run(c, s, rs), r).1;
            reply.Offer? ==> reply == Offer(LookupMac(s.bindings, r.mac))
  {
    hide Run, LookupMac, Sound, Config.Contiguous, ScanOptions;
    RunSound(c, s, rs);
    var s' := Run(c, s, rs);
    ScanSound(c, r, Start(s'), r.options);
    LeaseKept(s.bindings, ScanOptions(c, r, Start(s'), r.options).bindings, r.mac);
  }

  lemma OptionFlags(c: Config, r: Request, t: Scan, o: Option)
    ensures var u := ScanOption(c, r, t, o);
            && (u.needIp <==> t.needIp || o == MessageType(REQUEST))
            && (u.discovered <==> t.discovered || o == MessageType(DISCOVER))
  {
    hide Config.InSubnet, ValidIp, LookupMac, Add, Supplies;
  }

  lemma {:induction false} DiscoveryScanned(c: Config, r: Request, s: Scan, os: seq<Option>)
    requires MessageType(REQUEST) !in os
    ensures var t := ScanOptions(c, r, s, os);
            t.needIp == s.needIp && (t.discovered <==> s.discovered || MessageType(DISCOVER) in os)
    decreases |os|
  {
    hide ScanOption;
    if os != [] {
      var init, o := os[..|os| - 1], os[|os| - 1];
      assert os == init + [o];
      DiscoveryScanned(c, r, s, init);
      OptionFlags(c, r, ScanOptions(c, r, s, init), o);
    }
  }

  /** And its discovery, with whatever further options, is answered by that offer. */
  lemma DiscoveryOffered(c: Config, s: Server, rs: seq<Request>, r: Request)
    requires c.Contiguous() && Sound(c, s.bindings) && NeverHangs(c, s, rs) && LookupMac(s.bindings, r.mac) != NOT_FOUND
    requires MessageType(DISCOVER) in r.options && MessageType(REQUEST) !in r.options
    ensures Serve(c, Run(c, s, rs), r).1 == Offer(LookupMac(s.bindings, r.mac))
  {
    hide Run, LookupMac, Sound, Config.Contiguous, ScanOptions;
    BoundForever(c, s, rs, r);
    DiscoveryScanned(c, r, Start(Run(c, s, rs)), r.options);
  }

  /** With room for every lease and the reserved addresses the server never hangs. */
  lemma {:induction false} LargeSubnetNeverHangs(c: Config, s: Server, rs: seq<Request>)
    requires c.Contiguous() && Sound(c, s.bindings) && CACHE_SIZE + 3 < Size(c)
    ensures NeverHangs(c, s, rs)
    decreases |rs|
  {
    hide Config.Contiguous, HasFree, Size, ScanOptions;
    if rs != [] {
      ScanSound(c, rs[0], Start(s), rs[0].options);
      RoomLeavesFree(c, ScanOptions(c, rs[0], Start(s), rs[0].options).bindings);
      ServeSound(c, s, rs[0]);
      LargeSubnetNeverHangs(c, Serve(c, s, rs[0]).0, rs[1..]);
    }
  }

  // ---------- ACK and NAK ----------

  /** The request supplies one address, once or more often, and none but it. */
  ghost predicate OneSource(r: Request, ip: u32) {
    && (forall i :: 0 <= i < |r.options| ==> Supplies(r, r.options[i]) == [] || Supplies(r, r.options[i]) == [ip])
    && (exists i :: 0 <= i < |r.options| && Supplies(r, r.options[i]) == [ip])
  }

  predicate IsRequest(r: Request) {
    exists i :: 0 <= i < |r.options| && r.options[i] == MessageType(REQUEST)
  }

  /** The client may use the address: it is its own, or the client has none and it is assignable. */
  predicate Acceptable(c: Config, bs: seq<Binding>, mac: Mac, ip: u32) {
    && c.InSubnet(ip)
    && (if LookupMac(bs, mac) != NOT_FOUND then LookupMac(bs, mac) == ip else ValidIp(c, bs, ip))
  }

  /** The option loop's invariant for a request with one address. */
  ghost predicate OneSourceScan(c: Config, s: Server, r: Request, ip: u32, t: Scan, n: nat)
    requires n <= |r.options|
  {
    var seen := exists i :: 0 <= i < n && Supplies(r, r.options[i]) == [ip];
    var good := Acceptable(c, s.bindings, r.mac, ip);
    && t.gotClientIp == seen
    && (seen ==> t.clientIp == ip)
    && t.gotIp == (seen && good)
    && t.bindings == (if seen then Recorded(c, s.bindings, r.mac, ip) else s.bindings)
    && (t.needIp <==> exists i :: 0 <= i < n && r.options[i] == MessageType(REQUEST))
  }

  /** The table after an acceptable address has been judged. */
  function Recorded(c: Config, bs: seq<Binding>, mac: Mac, ip: u32): seq<Binding> {
    if Acceptable(c, bs, mac, ip) && LookupMac(bs, mac) == NOT_FOUND then Add(bs, mac, ip) else bs
  }

  /** Judging the same address again changes nothing. */
  lemma JudgeOnce(c: Config, bs: seq<Binding>, mac: Mac, t: Scan)
    requires c.Contiguous() && Sound(c, bs) && t.gotClientIp
    requires || (t.bindings == bs && !t.gotIp)
             || (t.bindings == Recorded(c, bs, mac, t.clientIp) && t.gotIp == Acceptable(c, bs, mac, t.clientIp))
    ensures Judge(c, mac, t)
         == t.(bindings := Recorded(c, bs, mac, t.clientIp), gotIp := Acceptable(c, bs, mac, t.clientIp))
  {
    if Acceptable(c, bs, mac, t.clientIp) && LookupMac(bs, mac) == NOT_FOUND {
      AddSound(c, bs, mac, t.clientIp);
      ValidNonZero(c, bs, t.clientIp);
    }
    hide Config.InSubnet, Config.Reserved, Config.Contiguous, LookupMac, Sound;
  }

  lemma OneSourceStep(c: Config, s: Server, r: Request, ip: u32, t: Scan, n: nat)
    requires c.Contiguous() && Sound(c, s.bindings) && n < |r.options|
    requires Supplies(r, r.options[n]) == [] || Supplies(r, r.options[n]) == [ip]
    requires OneSourceScan(c, s, r, ip, t, n)
    ensures OneSourceScan(c, s, r, ip, ScanOption(c, r, t, r.options[n]), n + 1)
  {
    hide Config.Contiguous, LookupMac, Sound, Acceptable, Add, Supplies, Recorded;
    var o := r.options[n];
    var s1 := if o.MessageType? && o.kind == DISCOVER then t.(discovered := true)
              else if o.MessageType? && o.kind == REQUEST then t.(needIp := true)
              else t;
    var s2 := if Supplies(r, o) == [] then s1 else s1.(clientIp := ip, gotClientIp := true);
    assert ScanOption(c, r, t, o) == Judge(c, r.mac, s2);
    if s2.gotClientIp {
      hide Judge;
      JudgeOnce(c, s.bindings, r.mac, s2);
    }
  }

  lemma {:induction false} ScanOneSource(c: Config, s: Server, r: Request, ip: u32, n: nat)
    requires c.Contiguous() && Sound(c, s.bindings) && n <= |r.options|
    requires forall i :: 0 <= i < n ==> Supplies(r, r.options[i]) == [] || Supplies(r, r.options[i]) == [ip]
    ensures OneSourceScan(c, s, r, ip, ScanOptions(c, r, Start(s), r.options[..n]), n)
    decreases n
  {
    hide Config.Contiguous, LookupMac, Sound, Acceptable, ScanOption, Supplies, Recorded;
    if n > 0 {
      ScanOneSource(c, s, r, ip, n - 1);
      assert r.options[..n][..n - 1] == r.options[..n - 1];
      OneSourceStep(c, s, r, ip, ScanOptions(c, r, Start(s), r.options[..n - 1]), n - 1);
    }
  }

  /** ACK soundness, exactly: a request with one address is acknowledged if and only if the address is
      acceptable for that client, and is refused otherwise; the acknowledged address is the one asked for. */
  lemma AckExactly(c: Config, s: Server, r: Request, ip: u32)
    requires c.Contiguous() && Sound(c, s.bindings) && IsRequest(r) && OneSource(r, ip)
    ensures Serve(c, s, r).1 == if Acceptable(c, s.bindings, r.mac, ip) then Ack(ip) else Nak
  {
    ScanOneSource(c, s, r, ip, |r.options|);
    assert r.options[..|r.options|] == r.options;
    hide ScanOptions, Acceptable, Sound, Config.Contiguous, Add, LookupMac, Supplies;
  }

  /** An acknowledged address is in the subnet, is not reserved, and is bound to no other client. */
  lemma AckSound(c: Config, s: Server, r: Request, ip: u32)
    requires c.Contiguous() && Sound(c, s.bindings) && IsRequest(r) && OneSource(r, ip)
    ensures var reply := Serve(c, s, r).1;
            reply.Ack? ==> && c.InSubnet(reply.ip) && !c.Reserved(reply.ip)
                           && forall i :: 0 <= i < |s.bindings| && s.bindings[i].ip == reply.ip ==>
                                s.bindings[i].mac == r.mac
  {
    AckExactly(c, s, r, ip);
    LookupMacFinds(s.bindings, r.mac);
    hide Serve;
  }

  /** A client that has a lease on another address is refused. */
  lemma OtherAddressNak(c: Config, s: Server, r: Request, ip: u32)
    requires c.Contiguous() && Sound(c, s.bindings) && IsRequest(r) && OneSource(r, ip)
    requires LookupMac(s.bindings, r.mac) != NOT_FOUND && LookupMac(s.bindings, r.mac) != ip
    ensures Serve(c, s, r).1 == Nak
  {
    hide Serve;
    AckExactly(c, s, r, ip);
  }

  /** One address is needed: with two, the verdict on the first outlives an address outside the subnet, and
      that address is acknowledged. */
  lemma TwoAddressesUnsound(c: Config, s: Server, mac: Mac, a: u32, b: u32)
    requires c.Contiguous() && Sound(c, s.bindings) && Acceptable(c, s.bindings, mac, a) && !c.InSubnet(b)
    ensures var r := Request(mac, 0, [RequestedIp(a), RequestedIp(b), MessageType(REQUEST)]);
            Serve(c, s, r).1 == Ack(b)
  {
    var r := Request(mac, 0, [RequestedIp(a), RequestedIp(b), MessageType(REQUEST)]);
    var os := r.options;
    hide Config.InSubnet, Config.Contiguous, Sound, Acceptable, Recorded, LookupMac, Add, ValidIp;
    assert os[..2][..1] == os[..1] == [RequestedIp(a)] && os[..2][1] == RequestedIp(b) && os[..1][..0] == [];
    var t0 := Start(s).(clientIp := a, gotClientIp := true);
    JudgeOnce(c, s.bindings, mac, t0);
    var t1 := Judge(c, mac, t0);
    assert ScanOptions(c, r, Start(s), os[..1]) == t1;
    var t2 := t1.(clientIp := b);
    assert ScanOptions(c, r, Start(s), os[..2]) == t2;
    assert ScanOptions(c, r, Start(s), os) == t2.(needIp := true);
  }

  /** Two addresses, concretely. The server of 192.168.10.1/24, with nothing leased, is asked for 192.168.10.2 and
      then for 10.0.0.1, and acknowledges the second. */
  lemma TwoAddressesExample(c: Config, s: Server, r: Request, a: u32, b: u32)
    requires c == Config(0xC0A80A01, 0xFFFFFF00, 8) && s == Server([], 0, 0)
    requires a == 0xC0A80A02 && b == 0x0A000001
    requires r == Request([2, 0, 0, 0, 0, 1], 0, [RequestedIp(a), RequestedIp(b), MessageType(REQUEST)])
    ensures c.Contiguous() && Sound(c, s.bindings)
    ensures Serve(c, s, r).1 == Ack(b) && !c.InSubnet(b)
  {
    hide Config.InSubnet, Config.Reserved, Config.Contiguous, Serve;
    ExampleNet(c, a, b);
    TwoAddressesUnsound(c, s, r.mac, a, b);
  }

  lemma ExampleNet(c: Config, a: u32, b: u32)
    requires c == Config(0xC0A80A01, 0xFFFFFF00, 8) && a == 0xC0A80A02 && b == 0x0A000001
    ensures c.Contiguous() && c.InSubnet(a) && !c.Reserved(a) && !c.InSubnet(b)
  {
    hide And, Or, Pow2, Config.InSubnet;
    ExampleSize(c);
    Masks(c, c.myIp);
    InSubnetIff(c, a);
    InSubnetIff(c, b);
  }

  lemma ExampleSize(c: Config)
    requires c == Config(0xC0A80A01, 0xFFFFFF00, 8)
    ensures c.Contiguous() && Size(c) == 256 && c.Broadcast() == 0xC0A80AFF
  {
    assert Pow2(8) == 256;
    Pow2Is32();
    assert Or(0xC0A80A01, 0xFF) == 0xC0A80AFF;
    hide Pow2, Or;
  }
}
