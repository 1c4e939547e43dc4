/** The DHCP server's lease table and its answers, as values. Addresses are in host order. */
module DhcpModel {
  import opened Bits
  import opened Bytes

  type u32 = n: nat | n < 0x1_0000_0000
  type Mac = s: seq<byte> | |s| == 6 witness [0, 0, 0, 0, 0, 0]

  const CACHE_SIZE: nat := 8
  const NOT_FOUND: u32 := 0

  datatype Binding = Binding(mac: Mac, ip: u32)

  /** The interface's address and netmask. `hostBits` is the number of zero bits at the end of a
      contiguous netmask. */
  datatype Config = Config(myIp: u32, netmask: u32, hostBits: nat)
  {
    ghost predicate Contiguous() {
      hostBits <= 32 && netmask + Pow2(hostBits) == Pow2(32)
    }

    function Not(x: u32): u32 {
      0xffff_ffff - x
    }

    function Network(): nat {
      And(myIp, netmask)
    }

    function Broadcast(): nat {
      Or(myIp, Not(netmask))
    }

    predicate InSubnet(ip: nat) {
      And(ip, netmask) == Network()
    }

    predicate Reserved(ip: nat) {
      ip == myIp || ip == Network() || ip == Broadcast()
    }

    /** The address tried after `current`. */
    function Next(current: nat): nat {
      Or(Network(), And((current + 1) % 0x1_0000_0000, Not(netmask)))
    }
  }

  // ---------- The lease table ----------

  function LookupMac(bs: seq<Binding>, mac: Mac): u32 {
    if bs == [] then NOT_FOUND else if bs[0].mac == mac then bs[0].ip else LookupMac(bs[1..], mac)
  }

  predicate Bound(bs: seq<Binding>, ip: nat) {
    exists i :: 0 <= i < |bs| && bs[i].ip == ip
  }

  predicate ValidIp(c: Config, bs: seq<Binding>, ip: nat) {
    !c.Reserved(ip) && !Bound(bs, ip)
  }

  function Add(bs: seq<Binding>, mac: Mac, ip: u32): seq<Binding> {
    if |bs| < CACHE_SIZE then bs + [Binding(mac, ip)] else bs
  }

  /** The lease table is sound: distinct clients, distinct addresses, all of them assignable. */
  ghost predicate Sound(c: Config, bs: seq<Binding>) {
    && |bs| <= CACHE_SIZE
    && (forall i, j :: 0 <= i < j < |bs| ==> bs[i].mac != bs[j].mac && bs[i].ip != bs[j].ip)
    && (forall i :: 0 <= i < |bs| ==> bs[i].ip != 0 && c.InSubnet(bs[i].ip) && !c.Reserved(bs[i].ip))
  }

  // ---------- The search for an address ----------

  /** The j-th address the search tries. */
  function Candidate(c: Config, current: nat, j: nat): nat {
    if j == 0 then current else c.Next(Candidate(c, current, j - 1))
  }

  /** Some address of the subnet can still be given out. */
  ghost predicate HasFree(c: Config, bs: seq<Binding>) {
    exists ip: u32 :: c.InSubnet(ip) && ValidIp(c, bs, ip)
  }

  /** The index of the first assignable candidate from the j-th on, giving up after |bs| + 4. */
  function FirstValid(c: Config, bs: seq<Binding>, current: nat, j: nat): (n: nat)
    requires j <= |bs| + 4
    ensures j <= n <= |bs| + 4
    ensures forall i :: j <= i < n ==> !ValidIp(c, bs, Candidate(c, current, i))
    ensures n < |bs| + 4 ==> ValidIp(c, bs, Candidate(c, current, n))
    decreases |bs| + 4 - j
  {
    if j == |bs| + 4 || ValidIp(c, bs, Candidate(c, current, j)) then j else FirstValid(c, bs, current, j + 1)
  }

  // ---------- A request ----------

  datatype Option = MessageType(kind: byte) | RequestedIp(ip: u32) | Other

  const DISCOVER: byte := 1
  const REQUEST: byte := 3

  /** What the server uses of a message: the client, its address field, and its options. */
  datatype Request = Request(mac: Mac, ciaddr: u32, options: seq<Option>)

  datatype Reply = InvalidInput | InvalidOpcode | InvalidHeader | NoResponse | Offer(ip: u32) | Ack(ip: u32) | Nak

  datatype Server = Server(bindings: seq<Binding>, current: u32, clientIp: u32)

  /** The local variables of the option loop. */
  datatype Scan = Scan(bindings: seq<Binding>, clientIp: u32, gotClientIp: bool, gotIp: bool, needIp: bool,
                       discovered: bool)

  function Start(s: Server): Scan {
    Scan(s.bindings, s.clientIp, false, false, false, false)
  }

  /** The address an option supplies. */
  function Supplies(r: Request, o: Option): seq<u32> {
    match o
    case RequestedIp(ip) => [ip]
    case MessageType(kind) => if kind == REQUEST && r.ciaddr != 0 then [r.ciaddr] else []
    case Other => []
  }

  /** What the client's address, once known, is judged to be; made again at every later option. */
  function Judge(c: Config, mac: Mac, s: Scan): Scan {
    if !s.gotClientIp || !c.InSubnet(s.clientIp) then s
    else if LookupMac(s.bindings, mac) != NOT_FOUND then s.(gotIp := LookupMac(s.bindings, mac) == s.clientIp)
    else if ValidIp(c, s.bindings, s.clientIp) then
      s.(bindings := Add(s.bindings, mac, s.clientIp), gotIp := true)
    else s
  }

  function ScanOption(c: Config, r: Request, s: Scan, o: Option): Scan {
    var s1 := if o.MessageType? && o.kind == DISCOVER then s.(discovered := true)
              else if o.MessageType? && o.kind == REQUEST then s.(needIp := true)
              else s;
    var ips := Supplies(r, o);
    var s2 := if ips == [] then s1 else s1.(clientIp := ips[0], gotClientIp := true);
    Judge(c, r.mac, s2)
  }

  function ScanOptions(c: Config, r: Request, s: Scan, os: seq<Option>): Scan
    decreases |os|
  {
    if os == [] then s else ScanOption(c, r, ScanOptions(c, r, s, os[..|os| - 1]), os[|os| - 1])
  }

  /** The answer to a request. */
  function Serve(c: Config, s: Server, r: Request): (Server, Reply) {
    var t := ScanOptions(c, r, Start(s), r.options);
    var s1 := s.(bindings := t.bindings, clientIp := t.clientIp);
    if t.needIp then (s1, if t.gotIp then Ack(t.clientIp) else Nak)
    else if t.discovered then OfferTo(c, s1, r.mac)
    else (s1, NoResponse)
  }

  /** The address offered: the client's own, or the next one that is free. */
  function OfferTo(c: Config, s: Server, mac: Mac): (Server, Reply) {
    var known := LookupMac(s.bindings, mac);
    if known != NOT_FOUND then (s, Offer(known))
    else
      var ip := Candidate(c, s.current, FirstValid(c, s.bindings, s.current, 1)) % 0x1_0000_0000;
      (s.(bindings := Add(s.bindings, mac, ip), current := ip), Offer(ip))
  }

  /** The server's search would not end: it has to find an address for this request and none is left. */
  ghost predicate Hangs(c: Config, s: Server, r: Request) {
    var t := ScanOptions(c, r, Start(s), r.options);
    !t.needIp && t.discovered && LookupMac(t.bindings, r.mac) == NOT_FOUND && !HasFree(c, t.bindings)
  }
}
