/** The address search: masked arithmetic is arithmetic modulo the subnet size, and a pigeonhole argument
    bounds the search. */
module DhcpSearch {
  import opened Bits
  import opened DhcpModel
  import opened Seqs

  lemma {:induction false} Pow2Sum(a: nat, b: nat)
    ensures Pow2(a + b) == Pow2(a) * Pow2(b)
  {
    if a > 0 {
      Pow2Sum(a - 1, b);
    }
  }

  lemma Pow2Is32()
    ensures Pow2(32) == 0x1_0000_0000
  {
    assert Pow2(8) == 256;
    Pow2Sum(8, 8);
    Pow2Sum(16, 16);
  }

  lemma MulBelow(m: nat, a: nat, k: nat)
    requires m * a < m * k
    ensures m * a + m <= m * k
  {
    MulGap(m, k, a);
    MulGap(m, a, k);
  }

  lemma DivMod(x: nat, m: nat)
    requires m >= 1
    ensures x == m * (x / m) + x % m
  {
  }

  lemma MulMul(a: nat, b: nat, c: nat, d: nat)
    ensures (a * b) * c + a * d == a * (b * c + d)
  {
  }

  lemma MulAtLeast(m: nat, k: nat)
    requires m >= 1 && k >= 1
    ensures m * k >= 1
  {
  }

  /** The remainder modulo m survives a reduction modulo a multiple of m. */
  lemma ModOfMod(x: nat, m: nat, k: nat)
    requires m >= 1 && k >= 1
    ensures m * k >= 1 && (x % (m * k)) % m == x % m
  {
    MulAtLeast(m, k);
    var n := m * k;
    var q, r := x / n, x % n;
    DivMod(x, n);
    DivMod(r, m);
    MulMul(m, k, q, r / m);
    ModUnique(x, m, k * q + r / m, r % m);
  }

  lemma ModShift(x: nat, m: nat, k: nat)
    requires m >= 1
    ensures (m * k + x) % m == x % m
  {
    assert m * k + x == m * (k + x / m) + x % m;
    ModUnique(m * k + x, m, k + x / m, x % m);
  }

  lemma ModSucc(x: nat, m: nat)
    requires m >= 1
    ensures (x % m + 1) % m == (x + 1) % m
  {
    assert x + 1 == m * (x / m) + (x % m + 1);
    ModShift(x % m + 1, m, x / m);
  }

  /** Numbers less than m apart have different remainders. */
  lemma ModDiffers(x: nat, d: nat, m: nat)
    requires 0 < d < m
    ensures x % m != (x + d) % m
  {
    var q, r := x / m, x % m;
    if r + d < m {
      ModUnique(x + d, m, q, r + d);
    } else {
      assert x + d == m * (q + 1) + (r + d - m);
      ModUnique(x + d, m, q + 1, r + d - m);
    }
  }

  function Size(c: Config): (n: nat)
    ensures n >= 1
  {
    Pow2(c.hostBits)
  }

  /** Masking with the netmask clears the host part; its complement keeps it. */
  lemma Masks(c: Config, x: u32)
    requires c.Contiguous()
    ensures And(x, c.netmask) == x - x % Size(c) && And(x, c.Not(c.netmask)) == x % Size(c)
  {
    hide And, Pow2;
    Pow2Is32();
    AndLow(x, c.hostBits);
    AndSplit(x, Size(c) - 1, 32);
  }

  lemma NetworkIsMultiple(c: Config) returns (a: nat)
    requires c.Contiguous()
    ensures c.Network() == Size(c) * a && c.Network() + Size(c) <= 0x1_0000_0000
  {
    hide And, Pow2;
    Masks(c, c.myIp);
    Pow2Is32();
    Pow2Sum(c.hostBits, 32 - c.hostBits);
    a := MultipleBelow(c.myIp, Size(c), Pow2(32 - c.hostBits));
  }

  lemma MultipleBelow(x: nat, m: nat, k: nat) returns (a: nat)
    requires m >= 1 && x < m * k
    ensures x - x % m == m * a && m * a + m <= m * k
  {
    a := x / m;
    DivMod(x, m);
    MulBelow(m, a, k);
  }

  /** The next candidate is the network address plus the next host number, modulo the subnet size. */
  lemma NextIs(c: Config, current: nat)
    requires c.Contiguous()
    ensures c.Next(current) == c.Network() + (current + 1) % Size(c)
  {
    Pow2Is32();
    var x := (current + 1) % 0x1_0000_0000;
    Masks(c, x);
    Pow2Sum(c.hostBits, 32 - c.hostBits);
    ModOfMod(current + 1, Size(c), Pow2(32 - c.hostBits));
    var a := NetworkIsMultiple(c);
    ModUnique(c.Network(), Size(c), a, 0);
    OrSum(c.Network(), (current + 1) % Size(c), c.hostBits);
  }

  /** From the subnet address with host number x modulo the subnet size, the next is that of x + 1. */
  lemma NextInSubnet(c: Config, current: nat, x: nat)
    requires c.Contiguous() && current == c.Network() + x % Size(c)
    ensures c.Next(current) == c.Network() + (x + 1) % Size(c)
  {
    NextIs(c, current);
    var a := NetworkIsMultiple(c);
    hide *;
    ModShift(x % Size(c) + 1, Size(c), a);
    ModSucc(x, Size(c));
  }

  lemma CandidateStep(c: Config, current: nat, j: nat)
    ensures Candidate(c, current, 0) == current
    ensures Candidate(c, current, j + 1) == c.Next(Candidate(c, current, j))
  {
  }

  lemma {:induction false} CandidateIs(c: Config, current: nat, j: nat)
    requires c.Contiguous() && j >= 1
    ensures Candidate(c, current, j) == c.Network() + (current + j) % Size(c)
  {
    hide *;
    CandidateStep(c, current, j - 1);
    if j > 1 {
      CandidateIs(c, current, j - 1);
      NextInSubnet(c, Candidate(c, current, j - 1), current + j - 1);
    } else {
      NextIs(c, current);
    }
  }

  lemma InSubnetIff(c: Config, ip: u32)
    requires c.Contiguous()
    ensures c.InSubnet(ip) <==> c.Network() <= ip < c.Network() + Size(c)
  {
    Masks(c, ip);
    var a := NetworkIsMultiple(c);
    var m := Size(c);
    if c.Network() <= ip < c.Network() + m {
      ModUnique(ip, m, a, ip - m * a);
    }
  }

  lemma CandidateInSubnet(c: Config, current: nat, j: nat)
    requires c.Contiguous() && j >= 1
    ensures Candidate(c, current, j) < 0x1_0000_0000 && c.InSubnet(Candidate(c, current, j))
  {
    CandidateIs(c, current, j);
    var a := NetworkIsMultiple(c);
    InSubnetIff(c, Candidate(c, current, j));
  }

  /** The search reaches every address of the subnet within one turn. */
  lemma CandidateReaches(c: Config, current: nat, ip: u32) returns (j: nat)
    requires c.Contiguous() && c.InSubnet(ip)
    ensures 1 <= j <= Size(c) && Candidate(c, current, j) == ip
  {
    InSubnetIff(c, ip);
    j := TurnTo(current + 1, ip - c.Network(), Size(c));
    CandidateIs(c, current, j);
  }

  /** From any x, any remainder h below m is reached within m steps. */
  lemma TurnTo(x: nat, h: nat, m: nat) returns (j: nat)
    requires h < m
    ensures 1 <= j <= m && (x - 1 + j) % m == h
  {
    var q, r := x / m, x % m;
    DivMod(x, m);
    if h >= r {
      j := 1 + h - r;
      ModUnique(x - 1 + j, m, q, h);
    } else {
      j := 1 + h - r + m;
      assert m * (q + 1) == m * q + m;
      ModUnique(x - 1 + j, m, q + 1, h);
    }
  }

  // ---------- Pigeonhole ----------

  ghost function Tried(c: Config, current: nat, n: nat): set<nat> {
    if n == 0 then {} else Tried(c, current, n - 1) + {Candidate(c, current, n)}
  }

  lemma {:induction false} TriedMembers(c: Config, current: nat, n: nat, ip: nat)
    requires ip in Tried(c, current, n)
    ensures exists j :: 1 <= j <= n && ip == Candidate(c, current, j)
  {
    if ip != Candidate(c, current, n) {
      TriedMembers(c, current, n - 1, ip);
    }
  }

  /** Within one turn no candidate comes twice. */
  lemma NotTriedBefore(c: Config, current: nat, n: nat)
    requires c.Contiguous() && 1 <= n <= Size(c)
    ensures Candidate(c, current, n) !in Tried(c, current, n - 1)
  {
    hide *;
    if Candidate(c, current, n) in Tried(c, current, n - 1) {
      TriedMembers(c, current, n - 1, Candidate(c, current, n));
      var j :| 1 <= j <= n - 1 && Candidate(c, current, n) == Candidate(c, current, j);
      CandidateIs(c, current, n);
      CandidateIs(c, current, j);
      ModDiffers(current + j, n - j, Size(c));
      assert false;
    }
  }

  lemma {:induction false} TriedCount(c: Config, current: nat, n: nat)
    requires c.Contiguous() && n <= Size(c)
    ensures |Tried(c, current, n)| == n
  {
    hide Candidate, Config.Contiguous, Size;
    if n > 0 {
      TriedCount(c, current, n - 1);
      NotTriedBefore(c, current, n);
    }
  }

  ghost function BoundIps(bs: seq<Binding>): set<nat> {
    if bs == [] then {} else {bs[0].ip} + BoundIps(bs[1..])
  }

  lemma {:induction false} BoundIpsCount(bs: seq<Binding>)
    ensures |BoundIps(bs)| <= |bs|
  {
    if bs != [] {
      BoundIpsCount(bs[1..]);
    }
  }

  lemma {:induction false} BoundIpsMembers(bs: seq<Binding>, ip: nat)
    requires Bound(bs, ip)
    ensures ip in BoundIps(bs)
  {
    if bs[0].ip != ip {
      var i :| 0 <= i < |bs| && bs[i].ip == ip;
      assert bs[1..][i - 1].ip == ip;
      BoundIpsMembers(bs[1..], ip);
    }
  }

  ghost function Unassignable(c: Config, bs: seq<Binding>): set<nat> {
    {c.myIp, c.Network(), c.Broadcast()} + BoundIps(bs)
  }

  lemma {:induction false} TriedUnassignable(c: Config, bs: seq<Binding>, current: nat, n: nat)
    requires forall j :: 1 <= j <= n ==> !ValidIp(c, bs, Candidate(c, current, j))
    ensures Tried(c, current, n) <= Unassignable(c, bs)
  {
    if n > 0 {
      TriedUnassignable(c, bs, current, n - 1);
      if Bound(bs, Candidate(c, current, n)) {
        BoundIpsMembers(bs, Candidate(c, current, n));
      }
    }
  }

  lemma UnassignableCount(c: Config, bs: seq<Binding>)
    ensures |Unassignable(c, bs)| <= |bs| + 3
  {
    BoundIpsCount(bs);
    var three := {c.myIp, c.Network(), c.Broadcast()};
    assert |three| <= 3;
    assert Unassignable(c, bs) == three + (BoundIps(bs) - three);
    SubsetSize(BoundIps(bs) - three, BoundIps(bs));
  }

  /** Of the first |bs| + 4 candidates one is assignable, if any address of the subnet is. */
  lemma FreeIsFound(c: Config, bs: seq<Binding>, current: nat)
    requires c.Contiguous() && HasFree(c, bs)
    ensures ValidIp(c, bs, Candidate(c, current, FirstValid(c, bs, current, 1)))
  {
    var n := |bs| + 4;
    if FirstValid(c, bs, current, 1) == n && !ValidIp(c, bs, Candidate(c, current, n)) {
      if n <= Size(c) {
        TriedCount(c, current, n);
        TriedUnassignable(c, bs, current, n);
        SubsetSize(Tried(c, current, n), Unassignable(c, bs));
        UnassignableCount(c, bs);
      } else {
        var ip: u32 :| c.InSubnet(ip) && ValidIp(c, bs, ip);
        var j := CandidateReaches(c, current, ip);
      }
    }
  }

  /** In a subnet larger than the leases plus the three reserved addresses, an address is left. */
  lemma RoomLeavesFree(c: Config, bs: seq<Binding>)
    requires c.Contiguous() && |bs| + 3 < Size(c)
    ensures HasFree(c, bs)
  {
    var n := |bs| + 4;
    if forall j :: 1 <= j <= n ==> !ValidIp(c, bs, Candidate(c, 0, j)) {
      TriedCount(c, 0, n);
      TriedUnassignable(c, bs, 0, n);
      SubsetSize(Tried(c, 0, n), Unassignable(c, bs));
      UnassignableCount(c, bs);
    } else {
      var j :| 1 <= j <= n && ValidIp(c, bs, Candidate(c, 0, j));
      CandidateInSubnet(c, 0, j);
      var ip: u32 := Candidate(c, 0, j);
      assert c.InSubnet(ip) && ValidIp(c, bs, ip);
    }
  }

  /** The search ends exactly when the subnet has an assignable address left; it then tries at most
      |bs| + 4 addresses. */
  lemma SearchEndsExactly(c: Config, bs: seq<Binding>, current: nat)
    requires c.Contiguous()
    ensures HasFree(c, bs) <==> exists j :: j >= 1 && ValidIp(c, bs, Candidate(c, current, j))
    ensures HasFree(c, bs) ==> exists j :: 1 <= j <= |bs| + 4 && ValidIp(c, bs, Candidate(c, current, j))
  {
    if HasFree(c, bs) {
      FreeIsFound(c, bs, current);
    }
    if j :| j >= 1 && ValidIp(c, bs, Candidate(c, current, j)) {
      CandidateInSubnet(c, current, j);
      var ip: u32 := Candidate(c, current, j);
      assert c.InSubnet(ip) && ValidIp(c, bs, ip);
    }
  }
}
