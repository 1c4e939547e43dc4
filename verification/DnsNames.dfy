/** DNS names: the backwards encoder of the server's own names, and the walk over labels. */
module DnsNames {
  import opened Bytes
  import opened Seqs

  type Label = seq<byte>
  datatype Position = Overrun | At(offset: nat)

  const DOT: byte := 46

  /** A label of a domain name: not empty, no dot and no NUL in it, and a length that fits a byte. */
  predicate GoodLabel(l: Label) {
    1 <= |l| < 256 && forall i :: 0 <= i < |l| ==> l[i] != DOT && l[i] != 0
  }

  predicate GoodLabels(ls: seq<Label>) {
    forall i :: 0 <= i < |ls| ==> GoodLabel(ls[i])
  }

  /** The dotted name of some labels, with or without a dot at the end. */
  function Name(ls: seq<Label>, dot: bool): seq<byte> {
    if ls == [] then []
    else ls[0] + (if |ls| > 1 || dot then [DOT] else []) + Name(ls[1..], dot)
  }

  /** Length-prefixed labels. */
  function Encode(ls: seq<Label>): seq<byte>
    requires GoodLabels(ls)
  {
    if ls == [] then [] else [|ls[0]|] + ls[0] + Encode(ls[1..])
  }

  // ---------- The encoder ----------

  /** Number of characters before the first dot. */
  function Lead(s: seq<byte>): (n: nat)
    ensures n <= |s|
  {
    if s == [] || s[0] == DOT then 0 else 1 + Lead(s[1..])
  }

  /** A name with every dot replaced by the length of what follows it. */
  function Counted(s: seq<byte>): (r: seq<byte>)
    ensures |r| == |s|
  {
    if s == [] then []
    else [if s[0] == DOT then Lead(s[1..]) % 256 else s[0]] + Counted(s[1..])
  }

  lemma CountedHead(s: seq<byte>)
    ensures Lead([]) == 0 && Counted([]) == []
    ensures s != [] && s[0] == DOT ==> Lead(s) == 0 && Counted(s) == [Lead(s[1..]) % 256] + Counted(s[1..])
    ensures s != [] && s[0] != DOT ==> Lead(s) == 1 + Lead(s[1..]) && Counted(s) == [s[0]] + Counted(s[1..])
  {
  }

  /** format_qname: from right to left, counting. */
  method FormatQname(domainName: seq<byte>, dnsQname: array<byte>)
    requires |domainName| < dnsQname.Length
    modifies dnsQname
    ensures dnsQname[..|domainName| + 1] == [Lead(domainName) % 256] + Counted(domainName)
    ensures dnsQname[|domainName| + 1..] == old(dnsQname[|domainName| + 1..])
  {
    hide Lead, Counted;
    CountedHead([]);
    var i, len := 0, |domainName|;
    var s: int := len - 1;
    assert domainName[len..] == [];
    while s >= 0
      invariant -1 <= s < len || (s == -1 && len == 0)
      invariant i == Lead(domainName[s + 1..])
      invariant dnsQname[s + 2..len + 1] == Counted(domainName[s + 1..])
      invariant dnsQname[len + 1..] == old(dnsQname[len + 1..])
    {
      CountedHead(domainName[s..]);
      assert domainName[s..][1..] == domainName[s + 1..] && domainName[s..][0] == domainName[s];
      ghost var later := dnsQname[s + 2..len + 1];
      if domainName[s] != DOT {
        dnsQname[s + 1] := domainName[s];
        i := i + 1;
      } else {
        dnsQname[s + 1] := i % 256;
        i := 0;
      }
      assert dnsQname[s + 1..len + 1] == [dnsQname[s + 1]] + later;
      s := s - 1;
    }
    assert domainName[0..] == domainName;
    dnsQname[0] := i % 256;
    assert dnsQname[..len + 1] == [dnsQname[0]] + dnsQname[1..len + 1];
  }

  lemma {:induction false} CountedLabel(l: Label, rest: seq<byte>)
    requires forall i :: 0 <= i < |l| ==> l[i] != DOT
    requires rest == [] || rest[0] == DOT
    ensures Lead(l + rest) == |l| && Counted(l + rest) == l + Counted(rest)
  {
    hide Lead, Counted;
    if l == [] {
      CountedHead(rest);
      assert l + rest == rest && l + Counted(rest) == Counted(rest);
    } else {
      TailOfConcat(l, rest);
      CountedHead(l + rest);
      CountedLabel(l[1..], rest);
      ConcatAssociates([l[0]], l[1..], Counted(rest));
      assert l == [l[0]] + l[1..];
    }
  }

  lemma NameHead(ls: seq<Label>, dot: bool)
    requires ls != []
    ensures Name(ls, dot) == ls[0] + ((if |ls| > 1 || dot then [DOT] else []) + Name(ls[1..], dot))
    ensures Name([], dot) == []
  {
    hide *;
    NameUnfold(ls, dot);
    ConcatAssociates(ls[0], if |ls| > 1 || dot then [DOT] else [], Name(ls[1..], dot));
  }

  lemma NameUnfold(ls: seq<Label>, dot: bool)
    ensures Name([], dot) == []
    ensures ls != [] ==>
              Name(ls, dot) == ls[0] + (if |ls| > 1 || dot then [DOT] else []) + Name(ls[1..], dot)
  {
  }

  /** A name's text after its first label. */
  lemma TailOfName(ls: seq<Label>, dot: bool, tail: seq<byte>)
    requires ls != [] && tail == (if |ls| > 1 || dot then [DOT] else []) + Name(ls[1..], dot)
    ensures tail == [] || tail[0] == DOT
    ensures Counted(tail)
         == if |ls| > 1 then [Lead(Name(ls[1..], dot)) % 256] + Counted(Name(ls[1..], dot))
            else if dot then [0] else []
  {
    hide Name, Counted, Lead;
    NameUnfold(ls[1..], dot);
    CountedHead(tail);
    if |ls| > 1 || dot {
      assert tail[1..] == Name(ls[1..], dot);
    }
  }

  /** The encoder's pass, byte by byte: a dot, 46, becomes the number of bytes up to the next dot or the end, and every
      other byte stays. */
  lemma {:induction false} CountedAt(s: seq<byte>, k: nat)
    requires k < |s|
    ensures s[k] != 46 ==> Counted(s)[k] == s[k]
    ensures s[k] == 46 ==>
              exists n :: 0 <= n <= |s| - k - 1 && Counted(s)[k] == n % 256 && UpToDot(s[k + 1..], n)
  {
    hide Lead, Counted, UpToDot;
    CountedHead(s);
    if k == 0 {
      LeadIs(s[1..]);
    } else {
      CountedAt(s[1..], k - 1);
      assert s[1..][k..] == s[k + 1..];
      assert s[1..][k - 1] == s[k] && Counted(s)[k] == Counted(s[1..])[k - 1];
    }
  }

  /** The first dot is at `n`, or there is none and `n` is the length. */
  ghost predicate UpToDot(s: seq<byte>, n: nat) {
    n <= |s| && (forall k :: 0 <= k < n ==> s[k] != 46) && (n < |s| ==> s[n] == 46)
  }

  lemma {:induction false} LeadIs(s: seq<byte>)
    ensures UpToDot(s, Lead(s))
  {
    if s != [] && s[0] != 46 {
      LeadIs(s[1..]);
      forall k | 0 <= k < Lead(s) ensures s[k] != 46 {
        assert k > 0 ==> s[k] == s[1..][k - 1];
      }
    }
  }

  /** The encoder's pass turns dots into the lengths of labels. */
  lemma {:induction false} CountedName(ls: seq<Label>, dot: bool)
    requires GoodLabels(ls) && ls != []
    ensures [Lead(Name(ls, dot)) % 256] + Counted(Name(ls, dot)) == Encode(ls) + (if dot then [0] else [])
  {
    hide Name, Counted, Lead, Encode;
    var l, rest, z: seq<byte> := ls[0], ls[1..], if dot then [0] else [];
    var tail := (if |ls| > 1 || dot then [DOT] else []) + Name(rest, dot);
    NameHead(ls, dot);
    TailOfName(ls, dot, tail);
    CountedLabel(l, tail);
    EncodedHead(ls);
    if rest != [] {
      CountedName(rest, dot);
      ConcatAssociates([|l|] + l, Encode(rest), z);
    }
    ConcatAssociates([|l|], l, Counted(tail));
  }

  lemma EncodedHead(ls: seq<Label>)
    requires GoodLabels(ls)
    ensures Encode([]) == []
    ensures ls != [] ==> Encode(ls) == [|ls[0]|] + ls[0] + Encode(ls[1..])
  {
  }

  // ---------- The walk ----------

  /** Where the label walk from `p` stops: at the zero byte, unless it runs off the buffer. */
  function Skip(b: seq<byte>, p: nat, size: nat): (r: Position)
    requires size <= |b|
    ensures r.At? ==> p <= r.offset < size && b[r.offset] == 0
    decreases size - p
  {
    if p >= size then Overrun else if b[p] == 0 then At(p) else Skip(b, p + b[p] + 1, size)
  }

  /** The labels the walk passes. */
  function LabelsAt(b: seq<byte>, p: nat, size: nat): seq<Label>
    requires size <= |b| && Skip(b, p, size).At?
    decreases size - p
  {
    if b[p] == 0 then [] else [b[p + 1..p + 1 + b[p]]] + LabelsAt(b, p + b[p] + 1, size)
  }

  /** `b` holds the encoded name, closed by its zero, at `p`. */
  predicate HoldsName(b: seq<byte>, p: nat, size: nat, ls: seq<Label>)
    requires GoodLabels(ls)
  {
    p + |Encode(ls)| < size <= |b| && b[p..p + |Encode(ls)| + 1] == Encode(ls) + [0]
  }

  lemma HeldHead(b: seq<byte>, p: nat, size: nat, l: Label, rest: seq<byte>)
    requires |l| < 256 && p + |l| + 1 + |rest| < size <= |b|
    requires b[p..p + |l| + 1 + |rest| + 1] == [|l|] + l + rest + [0]
    ensures b[p] == |l| && b[p + 1..p + 1 + |l|] == l
    ensures b[p + |l| + 1..p + |l| + 1 + |rest| + 1] == rest + [0]
  {
    var head, n := [|l|], |l|;
    ConcatAssociates(head + l, rest, [0]);
    var e := head + l + (rest + [0]);
    assert b[p..p + |e|] == e;
    PartsOfConcat(head, l, rest + [0]);
    assert b[p] == b[p..p + |e|][0] == e[0];
    SliceOfSlice(b, p, p + |e|, 1, n + 1);
    SliceOfSlice(b, p, p + |e|, n + 1, |e|);
    assert e[n + 1..] == e[n + 1..|e|];
  }

  lemma WalkHead(b: seq<byte>, p: nat, size: nat)
    requires p < size <= |b|
    ensures b[p] == 0 ==> Skip(b, p, size) == At(p) && LabelsAt(b, p, size) == []
    ensures b[p] != 0 ==> Skip(b, p, size) == Skip(b, p + b[p] + 1, size)
    ensures b[p] != 0 && Skip(b, p, size).At? ==>
              LabelsAt(b, p, size) == [b[p + 1..p + 1 + b[p]]] + LabelsAt(b, p + b[p] + 1, size)
  {
  }

  /** The walk over an encoded name passes exactly its labels and stops at its zero. */
  lemma {:induction false} WalkName(b: seq<byte>, p: nat, size: nat, ls: seq<Label>)
    requires GoodLabels(ls) && HoldsName(b, p, size, ls)
    ensures Skip(b, p, size) == At(p + |Encode(ls)|) && LabelsAt(b, p, size) == ls
    decreases |ls|
  {
    hide Encode, Skip, LabelsAt;
    EncodedHead(ls);
    WalkHead(b, p, size);
    if ls == [] {
      assert b[p] == b[p..p + 1][0] == 0;
    } else {
      HeldHead(b, p, size, ls[0], Encode(ls[1..]));
      WalkName(b, p + |ls[0]| + 1, size, ls[1..]);
      assert ls == [ls[0]] + ls[1..];
    }
  }

  /** A walk that reads the same bytes goes the same way. */
  lemma {:induction false} SameWalk(b: seq<byte>, c: seq<byte>, p: nat, size: nat, end: nat)
    requires size <= |b| && size <= |c| && end <= size && b[..end] == c[..end]
    requires Skip(b, p, size).At? && Skip(b, p, size).offset < end
    ensures Skip(c, p, size) == Skip(b, p, size)
    decreases size - p
  {
    assert b[p] == b[..end][p] == c[..end][p] == c[p];
    if b[p] != 0 {
      SameWalk(b, c, p + b[p] + 1, size, end);
    }
  }

  /** QNAME round trip: in a zeroed buffer with a byte to spare, the encoder leaves the name's labels, and the
      walk finds them. */
  method FormatThenWalk(ls: seq<Label>, dot: bool, dnsQname: array<byte>)
    requires GoodLabels(ls) && |Name(ls, dot)| + 1 < dnsQname.Length
    requires forall i :: 0 <= i < dnsQname.Length ==> dnsQname[i] == 0
    modifies dnsQname
    ensures HoldsName(dnsQname[..], 0, dnsQname.Length, ls)
    ensures Skip(dnsQname[..], 0, dnsQname.Length) == At(|Encode(ls)|)
    ensures LabelsAt(dnsQname[..], 0, dnsQname.Length) == ls
  {
    var name := Name(ls, dot);
    FormatQname(name, dnsQname);
    ghost var b := dnsQname[..];
    assert b[|name| + 1] == dnsQname[|name| + 1..][0] == 0;
    if ls != [] {
      CountedName(ls, dot);
      assert b[..|name| + 1] == dnsQname[..|name| + 1];
      assert b[..|name| + 2] == b[..|name| + 1] + [0];
      assert b[0..|Encode(ls)| + 1] == Encode(ls) + [0];
    } else {
      assert b[0] == dnsQname[..1][0] == 0;
      assert b[0..1] == [0];
    }
    WalkName(b, 0, |b|, ls);
  }
}
