/** What the DHCP server reads of a message, said of the message's bytes. */
module DhcpMessages {
  import opened Bytes
  import opened DhcpModel
  import opened DhcpServer
  import opened Seqs

  /** An option as a client writes it. */
  datatype RawOption = RawOption(code: byte, payload: seq<byte>)

  predicate Proper(o: RawOption) {
    o.code != 255 && |o.payload| < 256
  }

  function Printed(os: seq<RawOption>): (s: seq<byte>)
    requires forall i :: 0 <= i < |os| ==> Proper(os[i])
  {
    if os == [] then []
    else
      assert Proper(os[0]);
      var n: byte := |os[0].payload|;
      [os[0].code, n] + os[0].payload + Printed(os[1..])
  }

  /** An option is a message type if it is number 53 with one byte, a requested address if it is number 50 with four,
      in network order, and otherwise does not concern the server. */
  predicate Says(raw: RawOption, o: Option) {
    if raw.code == 53 && |raw.payload| == 1 then o == MessageType(raw.payload[0])
    else if raw.code == 50 && |raw.payload| == 4 then
      o.RequestedIp? && o.ip == NetworkOrder(raw.payload)
    else o == Other
  }

  function NetworkOrder(s: seq<byte>): nat
    requires |s| == 4
  {
    0x1000000 * (s[0] as nat) + 0x10000 * (s[1] as nat) + 0x100 * (s[2] as nat) + s[3] as nat
  }

  lemma Be32IsNetworkOrder(s: seq<byte>)
    requires |s| == 4
    ensures Be32(s) == NetworkOrder(s)
  {
  }

  lemma OptionSays(b: seq<byte>, p: nat, raw: RawOption)
    requires p + 6 <= |b| && Proper(raw) && p + 2 + |raw.payload| <= |b|
    requires b[p] == raw.code && b[p + 1] == |raw.payload|
    requires b[p + 2..p + 2 + |raw.payload|] == raw.payload
    ensures Says(raw, OptionAt(b, p))
  {
    hide Be32, NetworkOrder;
    var s := b[p + 2..p + 2 + |raw.payload|];
    if |s| == 1 {
      assert s[0] == b[p + 2];
    }
    if |s| == 4 {
      Be32IsNetworkOrder(s);
    }
  }

  lemma PrintedHead(b: seq<byte>, p: nat, os: seq<RawOption>)
    requires os != [] && forall i :: 0 <= i < |os| ==> Proper(os[i])
    requires p + |Printed(os)| <= |b| && b[p..p + |Printed(os)|] == Printed(os)
    ensures var q := p + 2 + |os[0].payload|;
            && q + |Printed(os[1..])| == p + |Printed(os)|
            && b[p] == os[0].code && b[p + 1] == |os[0].payload| && b[p + 2..q] == os[0].payload
            && b[q..q + |Printed(os[1..])|] == Printed(os[1..])
  {
    var size: byte := |os[0].payload|;
    var s, head, tail := Printed(os), [os[0].code, size], Printed(os[1..]);
    assert s == head + os[0].payload + tail;
    PartsOfConcat(head, os[0].payload, tail);
    var n := 2 + |os[0].payload|;
    SliceOfSlice(b, p, p + |s|, 2, n);
    SliceOfSlice(b, p, p + |s|, n, |s|);
    assert s[0] == b[p] && s[1] == b[p + 1];
  }

  /** Options that are printed one after another, up to the end marker or the end of the message, are read back. */
  lemma {:induction false} OptionsRead(b: seq<byte>, p: nat, len: nat, os: seq<RawOption>)
    requires len + 6 <= |b| && (forall i :: 0 <= i < |os| ==> Proper(os[i]))
    requires p + |Printed(os)| <= len && b[p..p + |Printed(os)|] == Printed(os)
    requires p + |Printed(os)| == len || b[p + |Printed(os)|] == 255
    ensures |OptionsOf(b, p, len)| == |os|
    ensures forall i :: 0 <= i < |os| ==> Says(os[i], OptionsOf(b, p, len)[i])
    decreases |os|
  {
    hide OptionAt, Says;
    if os != [] {
      hide Printed;
      PrintedHead(b, p, os);
      var q := p + 2 + |os[0].payload|;
      OptionSays(b, p, os[0]);
      OptionsRead(b, q, len, os[1..]);
      OptionsCons(b, p, len);
      forall i | 0 <= i < |os| ensures Says(os[i], OptionsOf(b, p, len)[i]) {
        if i > 0 {
          assert os[i] == os[1..][i - 1];
          assert OptionsOf(b, p, len)[i] == OptionsOf(b, q, len)[i - 1];
        }
      }
    }
  }

  lemma OptionsCons(b: seq<byte>, p: nat, len: nat)
    requires len + 6 <= |b| && p < len && b[p] != 255
    ensures OptionsOf(b, p, len) == [OptionAt(b, p)] + OptionsOf(b, p + 2 + b[p + 1], len)
  {
    hide OptionAt;
  }

  /** A message is read as what it says: behind at least 240 bytes of header, the client's hardware address from byte
      28 and its address field from byte 12, and every option it lists. */
  lemma RequestRead(b: seq<byte>, len: nat, os: seq<RawOption>)
    requires 243 <= len && len + 6 <= |b| && (forall i :: 0 <= i < |os| ==> Proper(os[i]))
    requires 240 + |Printed(os)| <= len && b[240..240 + |Printed(os)|] == Printed(os)
    requires 240 + |Printed(os)| == len || b[240 + |Printed(os)|] == 255
    ensures var r := RequestOf(b, len);
            && r.mac == b[28..34] && r.ciaddr == NetworkOrder(b[12..16])
            && |r.options| == |os| && forall i :: 0 <= i < |os| ==> Says(os[i], r.options[i])
  {
    hide Printed, Says, OptionsOf;
    Be32IsNetworkOrder(b[12..16]);
    OptionsRead(b, 240, len, os);
  }

  /** Which messages are looked at: long enough, of one of the two operations, for Ethernet. */
  lemma HeaderExactly(b: seq<byte>, len: nat)
    requires len + 6 <= |b|
    ensures HeaderVerdict(b, len) == InvalidInput <==> len < 243
    ensures HeaderVerdict(b, len) == InvalidOpcode <==> len >= 243 && b[0] != 1 && b[0] != 2
    ensures HeaderVerdict(b, len) == NoResponse <==> len >= 243 && (b[0] == 1 || b[0] == 2) && b[1] == 1 && b[2] == 6
    ensures HeaderVerdict(b, len) == InvalidHeader <==>
              len >= 243 && (b[0] == 1 || b[0] == 2) && (b[1] != 1 || b[2] != 6)
  {
  }

  // ---------- A whole message ----------

  function InNetworkOrder(ip: u32): (s: seq<byte>)
    ensures |s| == 4 && NetworkOrder(s) == ip
  {
    var high, low := ip / 0x10000, ip % 0x10000;
    [high / 256, high % 256, low / 256, low % 256]
  }

  /** A client's message: the operation and hardware type and length, the address field, the hardware address, and
      the options; the bytes between are anything. */
  function Message(ciaddr: u32, mac: Mac, x: seq<byte>, y: seq<byte>, z: seq<byte>, os: seq<RawOption>): seq<byte>
    requires |x| == 9 && |y| == 12 && |z| == 206 && forall i :: 0 <= i < |os| ==> Proper(os[i])
  {
    [1, 1, 6] + x + InNetworkOrder(ciaddr) + y + mac + z + Printed(os) + [255]
  }

  lemma MessageParts(ciaddr: u32, mac: Mac, x: seq<byte>, y: seq<byte>, z: seq<byte>, os: seq<RawOption>,
                     more: seq<byte>)
    requires |x| == 9 && |y| == 12 && |z| == 206 && forall i :: 0 <= i < |os| ==> Proper(os[i])
    ensures var b := Message(ciaddr, mac, x, y, z, os) + more;
            && |b| == 241 + |Printed(os)| + |more| && b[0] == 1 && b[1] == 1 && b[2] == 6
            && b[12..16] == InNetworkOrder(ciaddr) && b[28..34] == mac
            && b[240..240 + |Printed(os)|] == Printed(os) && b[240 + |Printed(os)|] == 255
  {
    hide Printed, InNetworkOrder;
    var ip, p := InNetworkOrder(ciaddr), Printed(os);
    var front := [1, 1, 6] + x + ip + y + mac + z;
    var b := Message(ciaddr, mac, x, y, z, os) + more;
    ConcatAssociates(front + p, [255], more);
    assert b == front + p + ([255] + more);
    PartsOfConcat(front, p, [255] + more);
    assert |front| == 240 && b[..240] == front;
    assert front[12..16] == ip && front[28..34] == mac && front[0] == 1 && front[1] == 1 && front[2] == 6;
    SliceOfSlice(b, 0, 240, 12, 16);
    SliceOfSlice(b, 0, 240, 28, 34);
    assert b[240 + |p|] == ([255] + more)[0];
  }

  /** Reading a printed request gives the request back, whatever stands behind it. */
  lemma MessageRead(ciaddr: u32, mac: Mac, x: seq<byte>, y: seq<byte>, z: seq<byte>, os: seq<RawOption>, len: nat,
                    more: seq<byte>)
    requires |x| == 9 && |y| == 12 && |z| == 206 && os != [] && forall i :: 0 <= i < |os| ==> Proper(os[i])
    requires len == |Message(ciaddr, mac, x, y, z, os)| && |more| >= 6
    ensures var b := Message(ciaddr, mac, x, y, z, os) + more;
            var r := RequestOf(b, len);
            && HeaderVerdict(b, len) == NoResponse && r.mac == mac && r.ciaddr == ciaddr
            && |r.options| == |os| && forall i :: 0 <= i < |os| ==> Says(os[i], r.options[i])
  {
    assert |Printed(os)| >= 2;
    hide Printed, Message, RequestOf, HeaderVerdict, InNetworkOrder, NetworkOrder, Says;
    var b := Message(ciaddr, mac, x, y, z, os) + more;
    MessageParts(ciaddr, mac, x, y, z, os, more);
    MessageParts(ciaddr, mac, x, y, z, os, []);
    assert Message(ciaddr, mac, x, y, z, os) + [] == Message(ciaddr, mac, x, y, z, os);
    HeaderExactly(b, len);
    RequestRead(b, len, os);
  }
}
