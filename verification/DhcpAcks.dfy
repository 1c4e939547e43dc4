/** ACKs for requests with any number of addresses: the answer, and exactly when an acknowledged address is
    sound, said of the request and the lease table it meets. */
module DhcpAcks {
  import opened DhcpModel
  import opened DhcpRuns

  /** The addresses the first `n` options supply, in order. */
  function Addresses(r: Request, n: nat): seq<u32>
    requires n <= |r.options|
  {
    if n == 0 then [] else Addresses(r, n - 1) + Supplies(r, r.options[n - 1])
  }

  /** In the subnet, not reserved, and bound to nobody. */
  predicate Usable(c: Config, bs: seq<Binding>, ip: u32) {
    c.InSubnet(ip) && ValidIp(c, bs, ip)
  }

  /** Index of the first usable address, or the length. */
  function FirstUsable(c: Config, bs: seq<Binding>, ips: seq<u32>): (f: nat)
    ensures f <= |ips|
    ensures f < |ips| ==> Usable(c, bs, ips[f])
    ensures forall k :: 0 <= k < f ==> !Usable(c, bs, ips[k])
  {
    if ips == [] || Usable(c, bs, ips[0]) then 0 else 1 + FirstUsable(c, bs, ips[1..])
  }

  /** The last address of the subnet among `ips` is `ip`. */
  predicate LastInSubnet(c: Config, ips: seq<u32>, ip: u32) {
    ips != [] && (if c.InSubnet(ips[|ips| - 1]) then ips[|ips| - 1] == ip else LastInSubnet(c, ips[..|ips| - 1], ip))
  }

  /** The verdict on a client that supplies `ips`, one after another. A client with a lease must last have named
      its own address; one that gets a lease on the way, because it named a usable address and there was room,
      must last have named that one; with a full table it is enough to have named some usable address. Addresses
      outside the subnet never count. */
  predicate Granted(c: Config, bs: seq<Binding>, mac: Mac, ips: seq<u32>) {
    var f := FirstUsable(c, bs, ips);
    if LookupMac(bs, mac) != NOT_FOUND then LastInSubnet(c, ips, LookupMac(bs, mac))
    else if |bs| < CACHE_SIZE then f < |ips| && LastInSubnet(c, ips[f..], ips[f])
    else f < |ips|
  }

  /** The lease table after `ips`: the first usable address is recorded for a client without a lease. */
  function Leased(c: Config, bs: seq<Binding>, mac: Mac, ips: seq<u32>): seq<Binding> {
    var f := FirstUsable(c, bs, ips);
    if LookupMac(bs, mac) == NOT_FOUND && f < |ips| then Add(bs, mac, ips[f]) else bs
  }

  /** After `earlier` addresses the server comes to a verdict of its own on `ip`: it is in the subnet, and it is
      usable, or the client has a lease by now. */
  predicate Decided(c: Config, bs: seq<Binding>, mac: Mac, earlier: seq<u32>, ip: u32) {
    && c.InSubnet(ip)
    && (|| LookupMac(bs, mac) != NOT_FOUND
        || (|bs| < CACHE_SIZE && FirstUsable(c, bs, earlier) < |earlier|)
        || ValidIp(c, bs, ip))
  }

  /** If the reply is an ACK, its address is in the subnet, not reserved, and bound to no other client. */
  ghost predicate SoundReply(c: Config, bs: seq<Binding>, mac: Mac, reply: Reply) {
    reply.Ack? ==>
      && c.InSubnet(reply.ip) && !c.Reserved(reply.ip)
      && forall i :: 0 <= i < |bs| && bs[i].ip == reply.ip ==> bs[i].mac == mac
  }

  // ---------- One more address ----------

  lemma FirstUsableSnoc(c: Config, bs: seq<Binding>, ips: seq<u32>, ip: u32)
    ensures var f := FirstUsable(c, bs, ips);
            FirstUsable(c, bs, ips + [ip]) == if f < |ips| || Usable(c, bs, ip) then f else |ips| + 1
  {
    hide Usable;
    var f, f' := FirstUsable(c, bs, ips), FirstUsable(c, bs, ips + [ip]);
    assert (ips + [ip])[|ips|] == ip;
    assert forall k :: 0 <= k < |ips| ==> (ips + [ip])[k] == ips[k];
    assert f' < |ips| ==> Usable(c, bs, ips[f']);
  }

  lemma LastSnoc(c: Config, ips: seq<u32>, ip: u32, wanted: u32)
    ensures LastInSubnet(c, ips + [ip], wanted) == if c.InSubnet(ip) then ip == wanted else LastInSubnet(c, ips, wanted)
  {
    hide Config.InSubnet;
    assert (ips + [ip])[..|ips|] == ips;
  }

  /** One more address changes the verdict exactly if the server comes to a verdict on it. */
  lemma GrantedSnoc(c: Config, bs: seq<Binding>, mac: Mac, ips: seq<u32>, ip: u32)
    ensures Leased(c, bs, mac, ips + [ip])
         == if LookupMac(bs, mac) == NOT_FOUND && FirstUsable(c, bs, ips) == |ips| && Usable(c, bs, ip) then
              Add(bs, mac, ip)
            else Leased(c, bs, mac, ips)
    ensures Granted(c, bs, mac, ips + [ip]) ==
            if !Decided(c, bs, mac, ips, ip) then Granted(c, bs, mac, ips)
            else if LookupMac(bs, mac) != NOT_FOUND then ip == LookupMac(bs, mac)
            else if |bs| < CACHE_SIZE && FirstUsable(c, bs, ips) < |ips| then ip == ips[FirstUsable(c, bs, ips)]
            else true
  {
    hide FirstUsable, LastInSubnet, Config.InSubnet, ValidIp, LookupMac, Add;
    var f := FirstUsable(c, bs, ips);
    FirstUsableSnoc(c, bs, ips, ip);
    LastSnoc(c, ips, ip, LookupMac(bs, mac));
    if f < |ips| {
      assert (ips + [ip])[f..] == ips[f..] + [ip] && (ips + [ip])[f] == ips[f];
      LastSnoc(c, ips[f..], ip, ips[f]);
    } else {
      assert (ips + [ip])[|ips|..] == [] + [ip];
      LastSnoc(c, [], ip, ip);
    }
  }

  // ---------- The option loop ----------

  /** The state of the loop when the addresses `ips` have been supplied. */
  ghost predicate Tracks(c: Config, bs: seq<Binding>, mac: Mac, ips: seq<u32>, t: Scan) {
    && t.gotClientIp == (ips != [])
    && (ips != [] ==> t.clientIp == ips[|ips| - 1])
    && t.gotIp == Granted(c, bs, mac, ips)
    && t.bindings == Leased(c, bs, mac, ips)
  }

  /** Who has a lease after `ips`, and on what. */
  lemma LeasedLookup(c: Config, bs: seq<Binding>, mac: Mac, ips: seq<u32>)
    requires c.Contiguous() && Sound(c, bs)
    ensures var f := FirstUsable(c, bs, ips);
            var found := LookupMac(Leased(c, bs, mac, ips), mac);
            found == if LookupMac(bs, mac) != NOT_FOUND then LookupMac(bs, mac)
                     else if |bs| < CACHE_SIZE && f < |ips| then ips[f]
                     else NOT_FOUND
    ensures LookupMac(bs, mac) == NOT_FOUND && FirstUsable(c, bs, ips) < |ips| ==> ips[FirstUsable(c, bs, ips)] != 0
    ensures LookupMac(Leased(c, bs, mac, ips), mac) == NOT_FOUND ==> Leased(c, bs, mac, ips) == bs
  {
    hide Config.InSubnet, Config.Contiguous, ValidIp, LookupMac, Sound;
    var f := FirstUsable(c, bs, ips);
    if LookupMac(bs, mac) == NOT_FOUND && f < |ips| {
      AddSound(c, bs, mac, ips[f]);
      ValidNonZero(c, bs, ips[f]);
    }
  }

  /** Judging one more address keeps track. */
  lemma JudgeNext(c: Config, bs: seq<Binding>, mac: Mac, ips: seq<u32>, ip: u32, t: Scan)
    requires c.Contiguous() && Sound(c, bs)
    requires t.gotIp == Granted(c, bs, mac, ips) && t.bindings == Leased(c, bs, mac, ips)
    requires t.gotClientIp && t.clientIp == ip
    ensures Tracks(c, bs, mac, ips + [ip], Judge(c, mac, t))
  {
    hide Config.InSubnet, Config.Contiguous, ValidIp, LookupMac, Sound, Granted, Leased, FirstUsable;
    LeasedLookup(c, bs, mac, ips);
    GrantedSnoc(c, bs, mac, ips, ip);
  }

  /** Judging the same address again changes nothing. */
  lemma JudgeSame(c: Config, bs: seq<Binding>, mac: Mac, ips: seq<u32>, t: Scan)
    requires c.Contiguous() && Sound(c, bs) && Tracks(c, bs, mac, ips, t)
    ensures Judge(c, mac, t) == t
  {
    hide Config.InSubnet, Config.Contiguous, ValidIp, LookupMac, Sound, Granted, Leased, FirstUsable;
    if ips != [] {
      var earlier, ip := ips[..|ips| - 1], ips[|ips| - 1];
      assert ips == earlier + [ip];
      LeasedLookup(c, bs, mac, ips);
      LeasedLookup(c, bs, mac, earlier);
      FirstUsableSnoc(c, bs, earlier, ip);
      GrantedSnoc(c, bs, mac, earlier, ip);
      SameAdd(c, bs, mac, ips);
    }
  }

  /** A client that is still without a lease would be recorded if there were room. */
  lemma SameAdd(c: Config, bs: seq<Binding>, mac: Mac, ips: seq<u32>)
    requires ips != []
    ensures FirstUsable(c, bs, ips) < |ips| && |bs| >= CACHE_SIZE ==> Leased(c, bs, mac, ips) == bs
    ensures FirstUsable(c, bs, ips) == |ips| ==> Leased(c, bs, mac, ips) == bs && !Usable(c, bs, ips[|ips| - 1])
  {
    hide Usable;
  }

  /** The option sets these flags before the address is judged. */
  function Flagged(t: Scan, o: Option): Scan {
    if o.MessageType? && o.kind == DISCOVER then t.(discovered := true)
    else if o.MessageType? && o.kind == REQUEST then t.(needIp := true)
    else t
  }

  lemma ScanOptionParts(c: Config, r: Request, t: Scan, o: Option)
    ensures |Supplies(r, o)| <= 1
    ensures Supplies(r, o) == [] ==> ScanOption(c, r, t, o) == Judge(c, r.mac, Flagged(t, o))
    ensures |Supplies(r, o)| == 1 ==>
              ScanOption(c, r, t, o)
              == Judge(c, r.mac, Flagged(t, o).(clientIp := Supplies(r, o)[0], gotClientIp := true))
  {
    hide Judge;
  }

  lemma ScanNext(c: Config, r: Request, s: Scan, n: nat)
    requires n < |r.options|
    ensures ScanOptions(c, r, s, r.options[..n + 1])
         == ScanOption(c, r, ScanOptions(c, r, s, r.options[..n]), r.options[n])
  {
    hide ScanOption;
    assert r.options[..n + 1][..n] == r.options[..n];
  }

  /** One turn of the loop keeps track. */
  lemma OptionTracks(c: Config, bs: seq<Binding>, r: Request, ips: seq<u32>, t: Scan, o: Option)
    requires c.Contiguous() && Sound(c, bs) && Tracks(c, bs, r.mac, ips, t)
    ensures Tracks(c, bs, r.mac, ips + Supplies(r, o), ScanOption(c, r, t, o))
  {
    hide Config.Contiguous, Sound, Judge, ScanOption, Supplies, Granted, Leased;
    ScanOptionParts(c, r, t, o);
    if Supplies(r, o) == [] {
      assert ips + [] == ips;
      JudgeSame(c, bs, r.mac, ips, Flagged(t, o));
    } else {
      var ip := Supplies(r, o)[0];
      assert Supplies(r, o) == [ip];
      JudgeNext(c, bs, r.mac, ips, ip, Flagged(t, o).(clientIp := ip, gotClientIp := true));
    }
  }

  /** The loop's state after any number of options is what the addresses so far call for. */
  lemma {:induction false} ScanTracks(c: Config, s: Server, r: Request, n: nat)
    requires c.Contiguous() && Sound(c, s.bindings) && n <= |r.options|
    ensures Tracks(c, s.bindings, r.mac, Addresses(r, n), ScanOptions(c, r, Start(s), r.options[..n]))
    decreases n
  {
    hide Config.Contiguous, Sound, ScanOption, Supplies, Granted, Leased;
    if n == 0 {
      NothingGranted(c, s.bindings, r.mac);
    } else {
      hide Tracks, ScanOptions;
      ScanTracks(c, s, r, n - 1);
      ScanNext(c, r, Start(s), n - 1);
      OptionTracks(c, s.bindings, r, Addresses(r, n - 1), ScanOptions(c, r, Start(s), r.options[..n - 1]),
                   r.options[n - 1]);
    }
  }

  lemma NothingGranted(c: Config, bs: seq<Binding>, mac: Mac)
    ensures !Granted(c, bs, mac, []) && Leased(c, bs, mac, []) == bs
  {
  }

  lemma {:induction false} RequestSeen(c: Config, r: Request, s: Scan, n: nat)
    requires n <= |r.options|
    ensures ScanOptions(c, r, s, r.options[..n]).needIp
       <==> s.needIp || exists i :: 0 <= i < n && r.options[i] == MessageType(REQUEST)
    decreases n
  {
    hide ScanOption;
    if n > 0 {
      RequestSeen(c, r, s, n - 1);
      ScanNext(c, r, s, n - 1);
      OptionFlags(c, r, ScanOptions(c, r, s, r.options[..n - 1]), r.options[n - 1]);
    }
  }

  // ---------- The answer ----------

  /** The answer to every request: the last address is acknowledged if and only if the addresses are granted. */
  lemma AnswerExactly(c: Config, s: Server, r: Request)
    requires c.Contiguous() && Sound(c, s.bindings) && IsRequest(r)
    ensures var ips := Addresses(r, |r.options|);
            && (Granted(c, s.bindings, r.mac, ips) ==> ips != [])
            && Serve(c, s, r).1 == if Granted(c, s.bindings, r.mac, ips) then Ack(ips[|ips| - 1]) else Nak
  {
    hide Config.Contiguous, Sound, ScanOptions, Supplies, Granted, Leased, OfferTo, Addresses;
    NothingGranted(c, s.bindings, r.mac);
    ScanTracks(c, s, r, |r.options|);
    RequestSeen(c, r, Start(s), |r.options|);
    assert r.options[..|r.options|] == r.options;
  }

  lemma DecidedSound(c: Config, bs: seq<Binding>, mac: Mac, earlier: seq<u32>, ip: u32)
    requires c.Contiguous() && Sound(c, bs) && Granted(c, bs, mac, earlier + [ip]) && Decided(c, bs, mac, earlier, ip)
    ensures SoundReply(c, bs, mac, Ack(ip))
  {
    hide Config.InSubnet, Config.Reserved, LookupMac, Granted, Config.Contiguous;
    GrantedSnoc(c, bs, mac, earlier, ip);
    LookupMacFinds(bs, mac);
  }

  lemma UndecidedUnsound(c: Config, bs: seq<Binding>, mac: Mac, earlier: seq<u32>, ip: u32)
    requires Sound(c, bs) && !Decided(c, bs, mac, earlier, ip)
    ensures !SoundReply(c, bs, mac, Ack(ip))
  {
    hide Config.InSubnet, Config.Reserved, LookupMac, FirstUsable;
    LookupMacFinds(bs, mac);
  }

  /** ACK soundness for every request, exactly. The answer is sound if and only if the request has no address, or
      the server comes to a verdict on the last one, or the addresses before it are not granted. */
  lemma AckSoundExactly(c: Config, s: Server, r: Request)
    requires c.Contiguous() && Sound(c, s.bindings) && IsRequest(r)
    ensures var ips := Addresses(r, |r.options|);
            SoundReply(c, s.bindings, r.mac, Serve(c, s, r).1)
            <==> || ips == []
                 || Decided(c, s.bindings, r.mac, ips[..|ips| - 1], ips[|ips| - 1])
                 || !Granted(c, s.bindings, r.mac, ips[..|ips| - 1])
  {
    hide Config.Contiguous, Sound, Serve, Decided, Granted, Addresses, SoundReply;
    AnswerExactly(c, s, r);
    var ips, bs := Addresses(r, |r.options|), s.bindings;
    RefusalSound(c, bs, r.mac);
    if ips != [] {
      var earlier, ip := ips[..|ips| - 1], ips[|ips| - 1];
      assert ips == earlier + [ip];
      GrantedSnoc(c, bs, r.mac, earlier, ip);
      if !Decided(c, bs, r.mac, earlier, ip) {
        UndecidedUnsound(c, bs, r.mac, earlier, ip);
      } else if Granted(c, bs, r.mac, ips) {
        DecidedSound(c, bs, r.mac, earlier, ip);
      }
    }
  }

  lemma RefusalSound(c: Config, bs: seq<Binding>, mac: Mac)
    ensures SoundReply(c, bs, mac, Nak)
  {
  }
}
