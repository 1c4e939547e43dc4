/** The DHCP server as it runs: a fixed table filled from the front, a search loop, and an option loop over
    the bytes of a message. Each method is proved against DhcpModel. */
module DhcpServer {
  import opened Bits
  import opened Bytes
  import opened DhcpModel
  import opened DhcpReplies
  import opened DhcpRoom
  import opened DhcpSearch
  import opened DhcpRuns

  const HEADER: nat := 240
  const OP_REQUEST: byte := 1
  const OP_RESPONSE: byte := 2
  const OPTION_REQUESTED_IP: byte := 50
  const OPTION_MESSAGE: byte := 53
  const OPTION_END: byte := 0xff
  /** An option is read up to five bytes past its first, even at the very end of the message. */
  const SLACK: nat := 6

  function Be32(b: seq<byte>): u32
    requires |b| == 4
  {
    (((b[0] as nat) * 256 + b[1] as nat) * 256 + b[2] as nat) * 256 + b[3] as nat
  }

  function OptionAt(b: seq<byte>, p: nat): Option
    requires p + SLACK <= |b|
  {
    if b[p] == OPTION_MESSAGE && b[p + 1] == 1 then MessageType(b[p + 2])
    else if b[p] == OPTION_REQUESTED_IP && b[p + 1] == 4 then RequestedIp(Be32(b[p + 2..p + 6]))
    else Other
  }

  /** The options of b[p..end], up to the end marker. */
  function OptionsOf(b: seq<byte>, p: nat, end: nat): seq<Option>
    requires end + SLACK <= |b|
    decreases end - p
  {
    if p >= end || b[p] == OPTION_END then []
    else [OptionAt(b, p)] + OptionsOf(b, p + 2 + b[p + 1], end)
  }

  lemma OptionsHead(b: seq<byte>, p: nat, end: nat, done: seq<Option>)
    requires end + SLACK <= |b|
    ensures p >= end || b[p] == OPTION_END ==> done + OptionsOf(b, p, end) == done
    ensures p < end && b[p] != OPTION_END ==>
              done + OptionsOf(b, p, end) == done + [OptionAt(b, p)] + OptionsOf(b, p + 2 + b[p + 1], end)
  {
    hide OptionAt;
  }

  lemma ScanSnoc(c: Config, r: Request, s: Scan, os: seq<Option>, o: Option)
    ensures ScanOptions(c, r, s, []) == s
    ensures ScanOptions(c, r, s, os + [o]) == ScanOption(c, r, ScanOptions(c, r, s, os), o)
  {
    hide ScanOption;
    assert (os + [o])[..|os|] == os;
  }

  function RequestOf(b: seq<byte>, len: nat): Request
    requires HEADER <= len && len + SLACK <= |b|
  {
    Request(b[28..34], Be32(b[12..16]), OptionsOf(b, HEADER, len))
  }

  /** The checks before the option loop. */
  function HeaderVerdict(b: seq<byte>, len: nat): (r: Reply)
    requires len + SLACK <= |b|
  {
    if len < HEADER + 3 then InvalidInput
    else if b[0] != OP_REQUEST && b[0] != OP_RESPONSE then InvalidOpcode
    else if b[1] != 1 || b[2] != 6 then InvalidHeader
    else NoResponse
  }

  class Dhcps {
    const config: Config
    const mapping: array<Binding>
    var countClients: nat
    var clientIp: u32
    var currentIp: u32

    ghost predicate Valid()
      reads this, mapping
    {
      mapping.Length == CACHE_SIZE && countClients <= CACHE_SIZE && config.Contiguous()
      && Sound(config, mapping[..countClients])
    }

    ghost function Bindings(): seq<Binding>
      requires countClients <= mapping.Length
      reads this, mapping
    {
      mapping[..countClients]
    }

    ghost function View(): Server
      requires countClients <= mapping.Length
      reads this, mapping
    {
      Server(mapping[..countClients], currentIp, clientIp)
    }

    /** dhcp_server_init: an empty table. */
    constructor (config: Config)
      requires config.Contiguous()
      ensures Valid() && fresh(mapping) && this.config == config && View() == Server([], 0, 0)
    {
      this.config := config;
      mapping := new Binding[CACHE_SIZE](_ => Binding([0, 0, 0, 0, 0, 0], 0));
      countClients, clientIp, currentIp := 0, 0, 0;
    }

    /** ac_add */
    method AcAdd(mac: Mac, ip: u32) returns (ok: bool)
      requires mapping.Length == CACHE_SIZE && countClients <= CACHE_SIZE
      modifies mapping, this`countClients
      ensures countClients <= CACHE_SIZE
      ensures Bindings() == Add(old(Bindings()), mac, ip)
      ensures ok == (old(countClients) < 8)
    {
      if countClients < CACHE_SIZE {
        mapping[countClients] := Binding(mac, ip);
        countClients := countClients + 1;
        return true;
      }
      return false;
    }

    /** ac_lookup_mac */
    method AcLookupMac(mac: Mac) returns (ip: u32)
      requires countClients <= mapping.Length
      ensures ip == LookupMac(Bindings(), mac)
      ensures (forall i :: 0 <= i < countClients ==> Bindings()[i].mac != mac) ==> ip == 0
      ensures forall i :: 0 <= i < countClients ==>
                (Bindings()[i].mac == mac && forall k :: 0 <= k < i ==> Bindings()[k].mac != mac) ==>
                ip == Bindings()[i].ip
    {
      for i := 0 to countClients
        invariant forall k :: 0 <= k < i ==> Bindings()[k].mac != mac
        invariant LookupMac(mapping[..countClients], mac) == LookupMac(mapping[i..countClients], mac)
      {
        assert mapping[i..countClients][1..] == mapping[i + 1..countClients];
        if mapping[i].mac == mac {
          return mapping[i].ip;
        }
      }
      return NOT_FOUND;
    }

    /** ac_lookup_ip: the client of the first entry with that address, or none */
    method AcLookupIp(ip: nat) returns (found: bool, mac: Mac)
      requires countClients <= mapping.Length
      ensures found == Bound(Bindings(), ip)
      ensures found ==> exists i :: 0 <= i < |Bindings()| && Bindings()[i] == Binding(mac, ip)
                                    && forall k :: 0 <= k < i ==> Bindings()[k].ip != ip
    {
      for i := 0 to countClients
        invariant forall k :: 0 <= k < i ==> mapping[k].ip != ip
      {
        if mapping[i].ip == ip {
          assert Bindings()[i] == mapping[i];
          return true, mapping[i].mac;
        }
      }
      return false, [0, 0, 0, 0, 0, 0];
    }

    /** ac_valid_ip */
    method AcValidIp(ip: nat) returns (valid: bool)
      requires countClients <= mapping.Length
      ensures valid == ValidIp(config, Bindings(), ip)
    {
      if ip == config.myIp || ip == And(config.myIp, config.netmask)
         || ip == Or(config.myIp, config.Not(config.netmask)) {
        return false;
      }
      var found, _ := AcLookupIp(ip);
      return !found;
    }

    /** The search of next_yiaddr. It ends because, of the first |bindings| + 4 candidates, one is assignable. */
    method Search()
      requires Valid() && HasFree(config, Bindings())
      modifies this`currentIp
      ensures ValidIp(config, Bindings(), currentIp) && config.InSubnet(currentIp)
      ensures currentIp == Candidate(config, old(currentIp), FirstValid(config, Bindings(), old(currentIp), 1))
    {
      hide Config.Contiguous, Sound, HasFree, ValidIp;
      ghost var c, bs, cur := config, Bindings(), currentIp;
      ghost var n := FirstValid(c, bs, cur, 1);
      FreeIsFound(c, bs, cur);
      ghost var j := 1;
      currentIp := Step(currentIp);
      CandidateInSubnet(c, cur, 1);
      assert Candidate(c, cur, 1) == c.Next(Candidate(c, cur, 0));
      var valid := AcValidIp(currentIp);
      while !valid
        invariant 1 <= j <= n
        invariant currentIp == Candidate(c, cur, j) && config.InSubnet(currentIp)
        invariant valid == ValidIp(c, bs, currentIp)
        invariant valid ==> j == n
        decreases n - j, !valid
      {
        j := j + 1;
        CandidateInSubnet(c, cur, j);
        currentIp := Step(currentIp);
        valid := AcValidIp(currentIp);
      }
    }

    /** `net | ((current + 1) & ~mask)` */
    method Step(current: u32) returns (next: u32)
      requires config.Contiguous()
      ensures next == config.Next(current)
    {
      NextIs(config, current);
      ghost var a := NetworkIsMultiple(config);
      next := Or(And(config.myIp, config.netmask), And((current + 1) % 0x1_0000_0000, config.Not(config.netmask)));
    }

    /** next_yiaddr */
    method NextYiaddr(mac: Mac) returns (ip: u32)
      requires Valid()
      requires LookupMac(Bindings(), mac) == NOT_FOUND ==> HasFree(config, Bindings())
      modifies this, mapping
      ensures Valid()
      ensures (View(), Offer(ip)) == OfferTo(config, old(View()), mac)
      ensures GoodOffer(config, old(Bindings()), mac, ip)
    {
      hide Config.InSubnet, Config.Reserved, Config.Contiguous, Sound, HasFree, ValidIp, FirstValid, Candidate, Add,
           GoodOffer, LookupMac;
      OfferSound(config, View(), mac);
      ip := AcLookupMac(mac);
      if ip == NOT_FOUND {
        Search();
        ip := currentIp;
        var ok := AcAdd(mac, ip);
      }
    }

    /** The judgement of the client's address in the option loop of process_dhcp_message. */
    method JudgeAddress(mac: Mac, gotClientIp: bool, gotIp0: bool, ghost needIp: bool, ghost discovered: bool)
      returns (gotIp: bool)
      requires Valid()
      modifies this, mapping
      ensures Valid() && currentIp == old(currentIp) && clientIp == old(clientIp)
      ensures Judge(config, mac, Scan(old(Bindings()), clientIp, gotClientIp, gotIp0, needIp, discovered))
           == Scan(Bindings(), clientIp, gotClientIp, gotIp, needIp, discovered)
    {
      hide Config.Contiguous, Sound, Add, LookupMac, Config.Reserved, ValidIp;
      JudgeSound(config, mac, Scan(Bindings(), clientIp, gotClientIp, gotIp0, needIp, discovered));
      gotIp := gotIp0;
      if gotClientIp && And(clientIp, config.netmask) == And(config.myIp, config.netmask) {
        var known := AcLookupMac(mac);
        if known != NOT_FOUND {
          gotIp := known == clientIp;
        } else {
          var valid := AcValidIp(clientIp);
          if valid {
            var ok := AcAdd(mac, clientIp);
            gotIp := true;
          }
        }
      }
    }

    /** One turn of the option loop of process_dhcp_message, on its local variables. */
    method ScanOne(msg: seq<byte>, opt: nat, ghost r: Request, mac: Mac, ciaddr: u32,
                   got: bool, gotIp: bool, need: bool, disc: bool)
      returns (got': bool, gotIp': bool, need': bool, disc': bool)
      requires Valid() && opt + SLACK <= |msg| && r.mac == mac && r.ciaddr == ciaddr
      modifies this, mapping
      ensures Valid() && currentIp == old(currentIp)
      ensures ScanOption(config, r, Scan(old(Bindings()), old(clientIp), got, gotIp, need, disc), OptionAt(msg, opt))
           == Scan(Bindings(), clientIp, got', gotIp', need', disc')
    {
      hide Config.Contiguous, Sound, Judge, Config.InSubnet, Be32;
      got', need', disc' := got, need, disc;
      if msg[opt] == OPTION_MESSAGE && msg[opt + 1] == 1 {
        if msg[opt + 2] == DISCOVER {
          disc' := true;
        } else if msg[opt + 2] == REQUEST {
          need' := true;
          if ciaddr != 0 {
            clientIp := ciaddr;
            got' := true;
          }
        }
      }
      if msg[opt] == OPTION_REQUESTED_IP && msg[opt + 1] == 4 {
        clientIp := Be32(msg[opt + 2..opt + 6]);
        got' := true;
      }
      gotIp' := JudgeAddress(mac, got', gotIp, need', disc');
    }

    /** The option loop of process_dhcp_message. */
    method ScanMessage(msg: seq<byte>, len: nat) returns (gotIp: bool, needIp: bool, discovered: bool)
      requires Valid() && HEADER <= len && len + SLACK <= |msg|
      modifies this, mapping
      ensures Valid() && currentIp == old(currentIp)
      ensures var r := RequestOf(msg, len);
              var t := ScanOptions(config, r, Start(old(View())), r.options);
              t.bindings == Bindings() && t.clientIp == clientIp && t.gotIp == gotIp && t.needIp == needIp
              && t.discovered == discovered
    {
      hide Config.Contiguous, Sound, ScanOption, ScanOptions, OptionAt, Be32, OptionsOf;
      ghost var r, s0 := RequestOf(msg, len), View();
      var mac, ciaddr := msg[28..34], Be32(msg[12..16]);
      var gotClientIp := false;
      gotIp, needIp, discovered := false, false, false;
      var rest: int := len - HEADER;
      var opt := HEADER;
      ghost var done: seq<Option> := [];
      ScanSnoc(config, r, Start(s0), [], Other);
      while rest > 0 && msg[opt] != OPTION_END
        invariant opt + rest == len
        invariant Valid() && currentIp == old(currentIp)
        invariant done + OptionsOf(msg, opt, len) == r.options
        invariant ScanOptions(config, r, Start(s0), done)
               == Scan(Bindings(), clientIp, gotClientIp, gotIp, needIp, discovered)
      {
        ghost var o := OptionAt(msg, opt);
        gotClientIp, gotIp, needIp, discovered :=
          ScanOne(msg, opt, r, mac, ciaddr, gotClientIp, gotIp, needIp, discovered);
        OptionsHead(msg, opt, len, done);
        ScanSnoc(config, r, Start(s0), done, o);
        done := done + [o];
        var consumed := 2 + msg[opt + 1] as nat;
        rest := rest - consumed;
        opt := opt + consumed;
      }
      OptionsHead(msg, opt, len, done);
    }

    /** Whether no address of the subnet can be given out any more. */
    method NoneLeft() returns (none: bool)
      requires Valid()
      ensures none <==> !HasFree(config, Bindings())
    {
      hide Config.Contiguous, Sound, HasFree, ReservedIps, Size;
      HasFreeExactly(config, Bindings());
      none := countClients + |ReservedIps(config)| >= Size(config);
    }

    /** process_dhcp_message, with the address choice of make_response. `endless` says that the search for an address
        is about to go on for ever; the model stops there. */
    method ProcessDhcpMessage(msg: seq<byte>, len: nat) returns (reply: Reply, endless: bool)
      requires Valid() && len + SLACK <= |msg|
      modifies this, mapping
      ensures Valid()
      ensures endless <==> HeaderVerdict(msg, len) == NoResponse && Hangs(config, old(View()), RequestOf(msg, len))
      ensures HeaderVerdict(msg, len) != NoResponse ==> reply == HeaderVerdict(msg, len) && View() == old(View())
      ensures HeaderVerdict(msg, len) == NoResponse && !endless ==>
                (View(), reply) == Serve(config, old(View()), RequestOf(msg, len))
      // Which kind of reply, outright: types 1 and 3 are discoveries and requests.
      ensures reply == InvalidInput <==> len < 243
      ensures reply == InvalidOpcode <==> len >= 243 && msg[0] != 1 && msg[0] != 2
      ensures reply == InvalidHeader <==> len >= 243 && (msg[0] == 1 || msg[0] == 2) && (msg[1] != 1 || msg[2] != 6)
      ensures HeaderVerdict(msg, len) == NoResponse && !endless ==>
                var os := RequestOf(msg, len).options;
                && (reply == NoResponse <==> MessageType(1) !in os && MessageType(3) !in os)
                && (reply.Offer? <==> MessageType(1) in os && MessageType(3) !in os)
                && (reply.Ack? || reply == Nak <==> MessageType(3) in os)
    {
      endless := false;
      if len < HEADER + 2 + 1 {
        return InvalidInput, false;
      }
      if msg[0] != OP_REQUEST && msg[0] != OP_RESPONSE {
        return InvalidOpcode, false;
      }
      if msg[1] != 1 || msg[2] != 6 {
        return InvalidHeader, false;
      }
      hide Config.Contiguous, Sound, ScanOptions, HasFree, OfferTo, LookupMac, OptionsOf;
      ReplyExactly(config, View(), RequestOf(msg, len));
      var gotIp, needIp, discovered := ScanMessage(msg, len);
      if needIp {
        reply := if gotIp then Ack(clientIp) else Nak;
      } else if discovered {
        var known := AcLookupMac(msg[28..34]);
        var none := NoneLeft();
        if known == NOT_FOUND && none {
          return NoResponse, true;
        }
        var ip := NextYiaddr(msg[28..34]);
        reply := Offer(ip);
      } else {
        reply := NoResponse;
      }
    }
  }
}
