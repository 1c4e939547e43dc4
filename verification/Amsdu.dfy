/** A-MSDU subframes: the former that prints them, the counter, and the parser that unpacks a received
    aggregate in its own buffer. */
module Amsdu {
  import opened Bytes
  import opened Seqs

  type Frame = seq<byte>

  const ADDRESSES: nat := 12     // two MAC addresses
  const ETH_HEADER: nat := 14
  const LLC_SNAP_LEN: nat := 8
  const RX_DATA_BUF_SIZE: nat := 4096
  /** A subframe's fields end 19 bytes after its first byte. */
  const SLACK: nat := 19
  const RFC1042: seq<byte> := [0xaa, 0xaa, 0x03, 0x00, 0x00, 0x00]

  function Pad(n: nat): (p: nat)
    ensures p < 4 && (n + p) % 4 == 0
  {
    if n % 4 != 0 then 4 - n % 4 else 0
  }

  /** A 16-bit field in network order. */
  function Be16(n: nat): (s: seq<byte>)
    ensures |s| == 2
  {
    [(n / 256) % 256, n % 256]
  }

  function Zeros(n: nat): (s: seq<byte>)
    ensures |s| == n
  {
    seq(n, _ => 0)
  }

  // ---------- Printing ----------

  /** The subframe of an Ethernet frame. */
  function Subframe(f: Frame): (s: seq<byte>)
    requires |f| >= ETH_HEADER
    ensures |s| == |f| + LLC_SNAP_LEN + Pad(|f| + LLC_SNAP_LEN)
  {
    f[..ADDRESSES] + Be16(|f| + LLC_SNAP_LEN - ETH_HEADER) + RFC1042 + f[ADDRESSES..]
    + Zeros(Pad(|f| + LLC_SNAP_LEN))
  }

  predicate Ethernet(f: Frame) {
    ETH_HEADER <= |f| < 0x10000
  }

  predicate AllEthernet(fs: seq<Frame>) {
    forall i :: 0 <= i < |fs| ==> Ethernet(fs[i])
  }

  function Aggregate(fs: seq<Frame>): seq<byte>
    requires AllEthernet(fs)
  {
    if fs == [] then [] else Subframe(fs[0]) + Aggregate(fs[1..])
  }

  /** wlan_11n_form_amsdu_pkt: prints `data` at `at`, and says how much of it is padding. */
  method FormAmsduPkt(buf: array<byte>, at: nat, data: Frame) returns (len: nat, pad: nat)
    requires Ethernet(data) && at + |data| + LLC_SNAP_LEN + Pad(|data| + LLC_SNAP_LEN) <= buf.Length
    modifies buf
    ensures pad == Pad(|data| + LLC_SNAP_LEN) && len == |Subframe(data)|
    ensures buf[..] == Spliced(old(buf[..]), at, Subframe(data))
    ensures forall k :: 0 <= k < buf.Length && (k < at || at + len <= k) ==> buf[k] == old(buf[k])
    // The bytes, outright: addresses, length, SNAP header, the frame from its type field on, padding.
    ensures |data| + 8 <= len < |data| + 12 && len % 4 == 0
    ensures forall k :: 0 <= k < 12 ==> buf[at + k] == data[k]
    ensures 256 * (buf[at + 12] as nat) + buf[at + 13] as nat == |data| - 6
    ensures buf[at + 14..at + 20] == [0xaa, 0xaa, 3, 0, 0, 0]
    ensures forall k :: 12 <= k < |data| ==> buf[at + 8 + k] == data[k]
    ensures forall k :: at + |data| + 8 <= k < at + len ==> buf[k] == 0
  {
    hide Spliced, Be16, Subframe;
    ghost var b := buf[..];
    var pktLen := |data|;
    Memcpy(buf, at, data[..ADDRESSES]);
    var field := Be16(pktLen + LLC_SNAP_LEN - (ADDRESSES + 2));
    Memcpy(buf, at + 12, field);
    SplicedTwice(b, at, data[..12], field);
    // The SNAP type is the frame's own type field.
    var snap := RFC1042 + data[12..14];
    Memcpy(buf, at + 14, snap);
    SplicedTwice(b, at, data[..12] + field, snap);
    Memcpy(buf, at + 22, data[14..]);
    SplicedTwice(b, at, data[..12] + field + snap, data[14..]);
    pad := if (pktLen + LLC_SNAP_LEN) % 4 != 0 then 4 - (pktLen + LLC_SNAP_LEN) % 4 else 0;
    Memcpy(buf, at + pktLen + LLC_SNAP_LEN, Zeros(pad));
    SplicedTwice(b, at, data[..12] + field + snap + data[14..], Zeros(pad));
    len := pktLen + LLC_SNAP_LEN + pad;
    SnapType(data[..12] + field, data);
    SubframeIs(data, field);
    SubframeBytes(data);
    SplicedBytes(b, buf[..], at, Subframe(data));
  }

  lemma SubframeIs(f: Frame, field: seq<byte>)
    requires Ethernet(f) && field == Be16(|f| - 6)
    ensures Subframe(f) == f[..12] + field + RFC1042 + f[12..] + Zeros(Pad(|f| + 8))
    ensures |Subframe(f)| == |f| + 8 + Pad(|f| + 8)
  {
  }

  /** The subframe of a frame, byte by byte. */
  lemma SubframeBytes(f: Frame)
    requires Ethernet(f)
    ensures var s := Subframe(f);
            && |f| + 8 <= |s| < |f| + 12 && |s| % 4 == 0
            && (forall k :: 0 <= k < 12 ==> s[k] == f[k])
            && 256 * (s[12] as nat) + s[13] as nat == |f| - 6
            && s[14..20] == [0xaa, 0xaa, 3, 0, 0, 0]
            && (forall k :: 12 <= k < |f| ==> s[8 + k] == f[k])
            && (forall k :: |f| + 8 <= k < |s| ==> s[k] == 0)
  {
    var s, field := Subframe(f), Be16(|f| - 6);
    assert s == f[..12] + field + RFC1042 + f[12..] + Zeros(Pad(|f| + 8));
    assert s[12] == field[0] && s[13] == field[1];
  }

  lemma SplicedBytes(b: seq<byte>, c: seq<byte>, at: nat, s: seq<byte>)
    requires at + |s| <= |b| && c == Spliced(b, at, s)
    ensures forall k :: at <= k < at + |s| ==> c[k] == s[k - at]
    ensures forall k :: 0 <= k < |b| && (k < at || at + |s| <= k) ==> c[k] == b[k]
    ensures forall k :: 0 <= k < |s| ==> c[at + k] == s[k]
    ensures forall i, j :: 0 <= i <= j <= |s| ==> c[at + i..at + j] == s[i..j]
  {
    forall k | 0 <= k < |s| ensures c[at + k] == s[k] {
    }
  }

  lemma SnapType(front: seq<byte>, data: Frame)
    requires |data| >= ETH_HEADER
    ensures front + (RFC1042 + data[12..14]) + data[14..] == front + RFC1042 + data[12..]
  {
    SliceSplit(data, 12, 14, |data|);
    ConcatAssociates(front, RFC1042, data[12..14]);
    ConcatAssociates(front + RFC1042, data[12..14], data[14..]);
  }

  // ---------- Reading, without touching the buffer ----------

  /** The length field of the subframe at `p`. */
  function LengthAt(b: seq<byte>, p: nat): (n: nat)
    requires p + 13 < |b|
    ensures n < 0x10000
  {
    (b[p + 12] as nat) * 256 + b[p + 13] as nat
  }

  /** Distance to the next subframe. */
  function Stride(n: nat): (d: nat)
    ensures n + 14 <= d < n + 18 && d >= 16
  {
    n + ETH_HEADER + Pad(n + ETH_HEADER)
  }

  /** The offsets of the subframes of b[p..end], as the length fields chain them. */
  function Offsets(b: seq<byte>, p: nat, end: nat): seq<nat>
    requires end + SLACK <= |b|
    decreases end - p
  {
    if p >= end then [] else [p] + Offsets(b, p + Stride(LengthAt(b, p)), end)
  }

  predicate HasSnap(b: seq<byte>, p: nat)
    requires p + SLACK < |b|
  {
    b[p + 14..p + 20] == RFC1042
  }

  /** The frame of the subframe at `p` with length field `n`: without the SNAP header if it has one, and
      otherwise with its length field zeroed. */
  function FrameAt(b: seq<byte>, p: nat, n: nat): Frame
    requires p + SLACK < |b| && p + n + 14 <= |b|
  {
    if HasSnap(b, p) then
      if n >= 6 then b[p..p + ADDRESSES] + b[p + 20..p + 14 + n] else b[p..p + n + 6]
    else b[p..p + ADDRESSES] + [0, 0] + b[p + 14..p + 14 + n]
  }

  /** The subframe at `p` claims more than what is left. */
  predicate Overlong(b: seq<byte>, p: nat, end: nat)
    requires end + SLACK <= |b| && p < end
  {
    LengthAt(b, p) > end - p
  }

  /** All frames of b[p..end], up to the first overlong subframe. */
  function Frames(b: seq<byte>, p: nat, end: nat): seq<Frame>
    requires end + SLACK <= |b|
    decreases end - p
  {
    if p >= end || Overlong(b, p, end) then []
    else [FrameAt(b, p, LengthAt(b, p))] + Frames(b, p + Stride(LengthAt(b, p)), end)
  }

  /** Parsing stops at an overlong subframe. */
  predicate BreaksOut(b: seq<byte>, p: nat, end: nat)
    requires end + SLACK <= |b|
    decreases end - p
  {
    p < end && (Overlong(b, p, end) || BreaksOut(b, p + Stride(LengthAt(b, p)), end))
  }

  /** Unpacking the subframe at `p` leaves the next one alone: a SNAP header in a subframe of at most two bytes
      reaches four bytes into the next, which are then overwritten with the end of the source address. */
  predicate NextUntouched(b: seq<byte>, p: nat, end: nat)
    requires end + SLACK <= |b| && p < end
  {
    var q := p + Stride(LengthAt(b, p));
    HasSnap(b, p) && LengthAt(b, p) <= 2 && q < end && !Overlong(b, q, end) ==> b[p + 8..p + 12] == RFC1042[2..]
  }

  predicate Undisturbed(b: seq<byte>, p: nat, end: nat)
    requires end + SLACK <= |b|
    decreases end - p
  {
    p >= end || Overlong(b, p, end)
    || (NextUntouched(b, p, end) && Undisturbed(b, p + Stride(LengthAt(b, p)), end))
  }

  /** Nothing is read or written from byte `mem` on: the header of every subframe lies before it, and unless the
      subframe is overlong so do its SNAP header and all it claims. */
  predicate InMemory(b: seq<byte>, p: nat, end: nat, mem: nat)
    requires end + SLACK <= |b|
    decreases end - p
  {
    p >= end
    || (p + 14 <= mem
        && (Overlong(b, p, end)
            || (p + 20 <= mem && p + LengthAt(b, p) + 14 <= mem
                && InMemory(b, p + Stride(LengthAt(b, p)), end, mem))))
  }

  function Max(m: nat, n: nat): nat {
    if m < n then n else m
  }

  /** One past the last byte that is read or written when every subframe is unpacked in the buffer before the next is
      read. The counter reads no further: it looks at the headers only. */
  function ReachInPlace(b: seq<byte>, p: nat, end: nat): nat
    requires end + SLACK <= |b|
    decreases end - p
  {
    if p >= end then 0
    else if Overlong(b, p, end) then p + 14
    else
      var n := LengthAt(b, p);
      Max(Max(p + 20, p + n + 14), ReachInPlace(Overwritten(b, p), p + Stride(n), end))
  }

  /** A buffer with something behind it, to look at where the driver does not. */
  function Extended(b: seq<byte>): (e: seq<byte>)
    ensures |e| == |b| + SLACK
  {
    b + Zeros(SLACK)
  }

  /** With 19 bytes behind the aggregate, any content keeps to the buffer. */
  lemma {:induction false} SlackIsEnough(b: seq<byte>, p: nat, end: nat, mem: nat)
    requires end + SLACK <= |b| && end + SLACK <= mem
    ensures InMemory(b, p, end, mem)
    decreases end - p
  {
    hide LengthAt, Stride;
    if p < end && !Overlong(b, p, end) {
      SlackIsEnough(b, p + Stride(LengthAt(b, p)), end, mem);
    }
  }

  /** What unpacking the subframe at `p` leaves in the buffer: the addresses moved over the SNAP header, or
      the length field zeroed. */
  function Overwritten(b: seq<byte>, p: nat): (c: seq<byte>)
    requires p + SLACK < |b|
    ensures |c| == |b|
  {
    if HasSnap(b, p) then Spliced(b, p + LLC_SNAP_LEN, b[p..p + ADDRESSES]) else Spliced(b, p + ADDRESSES, [0, 0])
  }

  /** The frames of b[p..end] when every subframe is unpacked in the buffer before the next is read. */
  function FramesInPlace(b: seq<byte>, p: nat, end: nat): seq<Frame>
    requires end + SLACK <= |b|
    decreases end - p
  {
    if p >= end || Overlong(b, p, end) then []
    else [FrameAt(b, p, LengthAt(b, p))] + FramesInPlace(Overwritten(b, p), p + Stride(LengthAt(b, p)), end)
  }

  /** The offsets of the subframes delivered when every subframe is unpacked in the buffer before the next is
      read. */
  function OffsetsInPlace(b: seq<byte>, p: nat, end: nat): seq<nat>
    requires end + SLACK <= |b|
    decreases end - p
  {
    if p >= end || Overlong(b, p, end) then []
    else [p] + OffsetsInPlace(Overwritten(b, p), p + Stride(LengthAt(b, p)), end)
  }

  /** The counter's offsets are the parser's, plus the overlong one where the parser stops. */
  lemma {:induction false} CountOffsets(b: seq<byte>, p: nat, end: nat)
    requires end + SLACK <= |b|
    ensures |Offsets(b, p, end)| == |Frames(b, p, end)| + (if BreaksOut(b, p, end) then 1 else 0)
    decreases end - p
  {
    hide LengthAt, Stride, FrameAt;
    if p < end {
      var q := p + Stride(LengthAt(b, p));
      if Overlong(b, p, end) {
        assert Offsets(b, q, end) == [];
      } else {
        CountOffsets(b, q, end);
      }
    }
  }

  // ---------- What the parser writes does not disturb what it reads ----------

  predicate SameFrom(b: seq<byte>, c: seq<byte>, p: nat)
    requires |b| == |c|
  {
    forall i :: p <= i < |b| ==> b[i] == c[i]
  }

  lemma SameLength(b: seq<byte>, c: seq<byte>, p: nat)
    requires p + 13 < |b| == |c| && SameFrom(b, c, p + 12)
    ensures LengthAt(b, p) == LengthAt(c, p)
  {
  }

  lemma SameLater(b: seq<byte>, c: seq<byte>, p: nat, q: nat)
    requires |b| == |c| && SameFrom(b, c, p) && p <= q
    ensures SameFrom(b, c, q)
  {
  }

  lemma {:induction false} SameOffsets(b: seq<byte>, c: seq<byte>, p: nat, end: nat)
    requires end + SLACK <= |b| == |c| && SameFrom(b, c, p + 12)
    ensures Offsets(b, p, end) == Offsets(c, p, end) && BreaksOut(b, p, end) == BreaksOut(c, p, end)
    ensures |Frames(b, p, end)| == |Frames(c, p, end)|
    ensures forall mem :: InMemory(b, p, end, mem) == InMemory(c, p, end, mem)
    decreases end - p
  {
    hide FrameAt, LengthAt, Stride, SameFrom;
    if p < end {
      SameLength(b, c, p);
      var q := p + Stride(LengthAt(b, p));
      SameLater(b, c, p + 12, q + 12);
      SameOffsets(b, c, q, end);
    }
  }

  lemma SameFrame(b: seq<byte>, c: seq<byte>, p: nat, n: nat)
    requires p + SLACK < |b| == |c| && p + n + 14 <= |b| && SameFrom(b, c, p)
    ensures HasSnap(b, p) == HasSnap(c, p) && FrameAt(b, p, n) == FrameAt(c, p, n)
  {
    assert b[p + 14..p + 20] == c[p + 14..p + 20];
    assert b[p..p + 12] == c[p..p + 12] && b[p + 14..p + 14 + n] == c[p + 14..p + 14 + n];
    assert n >= 6 ==> b[p + 20..p + 14 + n] == c[p + 20..p + 14 + n];
    assert b[p..p + n + 6] == c[p..p + n + 6];
  }

  lemma SameOverlong(b: seq<byte>, c: seq<byte>, p: nat, end: nat)
    requires end + SLACK <= |b| == |c| && p < end && SameFrom(b, c, p)
    ensures LengthAt(b, p) == LengthAt(c, p) && Overlong(b, p, end) == Overlong(c, p, end)
  {
  }

  lemma SameNext(b: seq<byte>, c: seq<byte>, p: nat, end: nat)
    requires end + SLACK <= |b| == |c| && p < end && SameFrom(b, c, p)
    ensures NextUntouched(b, p, end) == NextUntouched(c, p, end)
  {
    hide LengthAt, Stride, HasSnap, Overlong, SameFrom;
    SameOverlong(b, c, p, end);
    SameSnap(b, c, p);
    var q := p + Stride(LengthAt(b, p));
    SameLater(b, c, p, q);
    if q < end {
      SameOverlong(b, c, q, end);
    }
  }

  lemma SameSnap(b: seq<byte>, c: seq<byte>, p: nat)
    requires p + SLACK < |b| == |c| && SameFrom(b, c, p)
    ensures HasSnap(b, p) == HasSnap(c, p) && b[p + 8..p + 12] == c[p + 8..p + 12]
  {
    assert b[p + 14..p + 20] == c[p + 14..p + 20];
  }

  lemma {:induction false} SameFrames(b: seq<byte>, c: seq<byte>, p: nat, end: nat)
    requires end + SLACK <= |b| == |c| && SameFrom(b, c, p)
    ensures Frames(b, p, end) == Frames(c, p, end) && Undisturbed(b, p, end) == Undisturbed(c, p, end)
    decreases end - p
  {
    hide FrameAt, HasSnap, LengthAt, Stride, SameFrom, NextUntouched;
    if p < end {
      SameLater(b, c, p, p + 12);
      SameLength(b, c, p);
      if !Overlong(b, p, end) {
        SameFrame(b, c, p, LengthAt(b, p));
        SameNext(b, c, p, end);
        var q := p + Stride(LengthAt(b, p));
        SameLater(b, c, p, q);
        SameFrames(b, c, q, end);
      }
    }
  }

  lemma OverwrittenSame(b: seq<byte>, p: nat)
    requires p + SLACK < |b|
    ensures SameFrom(Overwritten(b, p), b, p + 20)
    ensures !HasSnap(b, p) ==> SameFrom(Overwritten(b, p), b, p + 14)
  {
  }

  /** A short SNAP subframe: what stands in the first four bytes of the next one, before and after. */
  lemma ShortSnap(b: seq<byte>, p: nat)
    requires p + SLACK < |b| && HasSnap(b, p)
    ensures b[p + 16..p + 20] == RFC1042[2..] && Overwritten(b, p)[p + 16..p + 20] == b[p + 8..p + 12]
  {
    SliceOfSlice(b, p + 14, p + 20, 2, 6);
    SplicedWithin(b, p + 8, b[p..p + 12], 12);
    SliceOfSlice(Overwritten(b, p), p + 8, p + 20, 8, 12);
    SliceOfSlice(b, p, p + 12, 8, 12);
    assert b[p..p + 12][..12] == b[p..p + 12];
  }

  lemma SameFromFour(b: seq<byte>, c: seq<byte>, q: nat)
    requires q + 4 <= |b| == |c| && SameFrom(b, c, q + 4) && b[q..q + 4] == c[q..q + 4]
    ensures SameFrom(b, c, q)
  {
    forall i | q <= i < q + 4 ensures b[i] == c[i] {
      assert b[i] == b[q..q + 4][i - q] == c[q..q + 4][i - q];
    }
  }

  /** Every frame starts with the first four bytes of its subframe. */
  lemma FrameStart(b: seq<byte>, p: nat, n: nat)
    requires p + SLACK < |b| && p + n + 14 <= |b|
    ensures |FrameAt(b, p, n)| >= 4 && FrameAt(b, p, n)[..4] == b[p..p + 4]
  {
    hide HasSnap;
  }

  /** If the next subframe is disturbed, its frame comes out changed. */
  lemma DisturbedFrame(b: seq<byte>, p: nat, end: nat)
    requires end + SLACK <= |b| && p < end && !Overlong(b, p, end) && !NextUntouched(b, p, end)
    ensures FramesInPlace(Overwritten(b, p), p + Stride(LengthAt(b, p)), end)
         != Frames(b, p + Stride(LengthAt(b, p)), end)
  {
    hide FrameAt, HasSnap, SameFrom, Overwritten;
    var c, q := Overwritten(b, p), p + 16;
    assert q == p + Stride(LengthAt(b, p));
    ShortSnap(b, p);
    OverwrittenSame(b, p);
    SameLater(c, b, p + 20, q + 12);
    SameLength(c, b, q);
    hide LengthAt, Stride;
    var n := LengthAt(b, q);
    FrameStart(b, q, n);
    FrameStart(c, q, n);
    assert Frames(b, q, end)[0] == FrameAt(b, q, n) && FramesInPlace(c, q, end)[0] == FrameAt(c, q, n);
  }

  lemma UntouchedSame(b: seq<byte>, p: nat, end: nat)
    requires end + SLACK <= |b| && p < end && NextUntouched(b, p, end)
    ensures var c, q := Overwritten(b, p), p + Stride(LengthAt(b, p));
            SameFrom(c, b, q) || (SameFrom(c, b, q + 4) && (q >= end || Overlong(b, q, end)))
  {
    hide LengthAt, Overwritten, SameFrom;
    var c, q := Overwritten(b, p), p + Stride(LengthAt(b, p));
    OverwrittenSame(b, p);
    if !HasSnap(b, p) {
      SameLater(c, b, p + 14, q);
    } else if LengthAt(b, p) >= 3 {
      SameLater(c, b, p + 20, q);
    } else {
      ShortSnap(b, p);
      if q < end && !Overlong(b, q, end) {
        SameFromFour(c, b, q);
      }
    }
  }

  /** For any content, unpacking in place visits the subframes the counter counted before, one by one, up to the
      overlong one where it stops. */
  lemma {:induction false} InPlaceVisits(b: seq<byte>, p: nat, end: nat)
    requires end + SLACK <= |b|
    ensures |FramesInPlace(b, p, end)| == |Frames(b, p, end)| <= |Offsets(b, p, end)|
    ensures OffsetsInPlace(b, p, end) == Offsets(b, p, end)[..|Frames(b, p, end)|]
    decreases end - p
  {
    hide FrameAt, HasSnap, LengthAt, SameFrom, Stride, Overwritten;
    if p < end && !Overlong(b, p, end) {
      var c, q := Overwritten(b, p), p + Stride(LengthAt(b, p));
      OverwrittenSame(b, p);
      SameLater(c, b, p + 20, q + 12);
      SameOffsets(c, b, q, end);
      InPlaceVisits(c, q, end);
      TakeCons(p, Offsets(b, q, end), |Frames(b, q, end)|);
    }
  }

  lemma TakeCons(p: nat, ps: seq<nat>, n: nat)
    requires n <= |ps|
    ensures ([p] + ps)[..n + 1] == [p] + ps[..n]
  {
  }

  /** Unpacking in place visits the same subframes as reading a copy, for any content; and it delivers the same
      frames exactly when no delivered subframe follows a SNAP header that runs into it and changes it. */
  lemma {:induction false} InPlaceIsFaithful(b: seq<byte>, p: nat, end: nat)
    requires end + SLACK <= |b|
    ensures |FramesInPlace(b, p, end)| == |Frames(b, p, end)| <= |Offsets(b, p, end)|
    ensures OffsetsInPlace(b, p, end) == Offsets(b, p, end)[..|Frames(b, p, end)|]
    ensures FramesInPlace(b, p, end) == Frames(b, p, end) <==> Undisturbed(b, p, end)
    decreases end - p
  {
    hide FrameAt, HasSnap, LengthAt, SameFrom, Pad, Overwritten, NextUntouched, Offsets, OffsetsInPlace;
    InPlaceVisits(b, p, end);
    if p < end && !Overlong(b, p, end) {
      var n, c := LengthAt(b, p), Overwritten(b, p);
      var q := p + Stride(n);
      InPlaceIsFaithful(c, q, end);
      InPlaceHead(b, p, end);
      if !NextUntouched(b, p, end) {
        DisturbedFrame(b, p, end);
      } else {
        UntouchedSame(b, p, end);
        if SameFrom(c, b, q) {
          SameFrames(c, b, q, end);
        } else {
          NothingMore(b, c, q, end);
        }
      }
    }
  }

  /** The condition can fail: a subframe of length 0 with a SNAP header and a source address that ends in zeros,
      with another subframe behind it. */
  lemma DisturbedExample() returns (b: seq<byte>)
    ensures |b| == 60 && 32 + SLACK <= |b|
    ensures !Undisturbed(b, 0, 32) && FramesInPlace(b, 0, 32) != Frames(b, 0, 32)
  {
    b := Zeros(14) + RFC1042 + Zeros(40);
    PartsOfConcat(Zeros(14), RFC1042, Zeros(40));
    assert b[14..20] == RFC1042;
    assert LengthAt(b, 0) == 0 && LengthAt(b, 16) == 0;
    assert b[8] == 0 && b[8..12][0] == 0 && RFC1042[2..][0] == 3;
    assert !NextUntouched(b, 0, 32);
    InPlaceIsFaithful(b, 0, 32);
  }

  lemma InPlaceHead(b: seq<byte>, p: nat, end: nat)
    requires end + SLACK <= |b| && p < end && !Overlong(b, p, end)
    ensures var q := p + Stride(LengthAt(b, p));
            FramesInPlace(b, p, end) == Frames(b, p, end)
            <==> FramesInPlace(Overwritten(b, p), q, end) == Frames(b, q, end)
  {
    hide FrameAt, LengthAt, Stride, Overwritten;
    var n := LengthAt(b, p);
    var q := p + Stride(n);
    assert FramesInPlace(b, p, end)[1..] == FramesInPlace(Overwritten(b, p), q, end);
    assert Frames(b, p, end)[1..] == Frames(b, q, end);
  }

  lemma NothingMore(b: seq<byte>, c: seq<byte>, q: nat, end: nat)
    requires end + SLACK <= |b| == |c| && SameFrom(c, b, q + 4) && (q >= end || Overlong(b, q, end))
    ensures FramesInPlace(c, q, end) == Frames(b, q, end) == [] && Undisturbed(b, q, end)
  {
    hide Stride, FrameAt;
    if q < end {
      SameLater(c, b, q + 4, q + 12);
      SameLength(c, b, q);
    }
  }

  // ---------- The walk, outright ----------

  /** The subframes of b[start..end] that are delivered, said of the bytes alone: the first is at `start`, each next
      one at the next multiple of four bytes behind what the one before claims, and the walk ends at the end or at
      a subframe that claims more than is left. */
  ghost predicate Chained(b: seq<byte>, start: nat, end: nat, ps: seq<nat>)
    requires end + 19 <= |b|
  {
    && (forall i :: 0 <= i < |ps| ==> ps[i] < end && 256 * (b[ps[i] + 12] as nat) + b[ps[i] + 13] as nat <= end - ps[i])
    && (ps == [] ==> Ends(b, start, end))
    && (ps != [] ==> ps[0] == start)
    && (forall i :: 0 <= i < |ps| - 1 ==> Follows(b, ps[i], ps[i + 1], end))
    && (ps != [] ==> forall q: nat :: Follows(b, ps[|ps| - 1], q, end) ==> Ends(b, q, end))
  }

  ghost predicate Follows(b: seq<byte>, p: nat, q: nat, end: nat)
    requires p < end && end + 19 <= |b|
  {
    var n := 256 * (b[p + 12] as nat) + b[p + 13] as nat;
    n + 14 <= q - p < n + 18 && (q - p) % 4 == 0
  }

  ghost predicate Ends(b: seq<byte>, q: nat, end: nat)
    requires end + 19 <= |b|
  {
    q < end ==> 256 * (b[q + 12] as nat) + b[q + 13] as nat > end - q
  }

  lemma StrideFollows(b: seq<byte>, p: nat, q: nat, end: nat)
    requires p < end && end + 19 <= |b|
    ensures Follows(b, p, q, end) <==> q == p + Stride(LengthAt(b, p))
  {
  }

  lemma ChainedAlike(b: seq<byte>, c: seq<byte>, start: nat, end: nat, ps: seq<nat>)
    requires end + 19 <= |b| == |c| && SameFrom(b, c, start + 12) && Chained(c, start, end, ps)
    requires AllFrom(ps, start)
    ensures Chained(b, start, end, ps)
  {
    if ps != [] {
      var last := ps[|ps| - 1];
      forall q: nat | Follows(b, last, q, end) ensures Ends(b, q, end) {
        assert c[last + 12] == b[last + 12] && c[last + 13] == b[last + 13];
        assert Follows(c, last, q, end) && q >= start;
        assert Ends(c, q, end);
        if q < end {
          assert c[q + 12] == b[q + 12] && c[q + 13] == b[q + 13];
        }
      }
    }
  }

  ghost predicate AllFrom(ps: seq<nat>, p: nat) {
    forall i :: 0 <= i < |ps| ==> p <= ps[i]
  }

  lemma InPlaceCases(b: seq<byte>, p: nat, end: nat)
    requires end + SLACK <= |b|
    ensures p >= end || Overlong(b, p, end) ==> OffsetsInPlace(b, p, end) == [] && FramesInPlace(b, p, end) == []
    ensures p < end && !Overlong(b, p, end) ==>
              var c, q := Overwritten(b, p), p + Stride(LengthAt(b, p));
              && p < q && |c| == |b| && OffsetsInPlace(b, p, end) == [p] + OffsetsInPlace(c, q, end)
              && FramesInPlace(b, p, end) == [FrameAt(b, p, LengthAt(b, p))] + FramesInPlace(c, q, end)
  {
    hide FrameAt, HasSnap, LengthAt;
  }

  /** The walk visits a chain of subframes. */
  lemma {:induction false} VisitsChained(b: seq<byte>, p: nat, end: nat)
    requires end + SLACK <= |b|
    ensures Chained(b, p, end, OffsetsInPlace(b, p, end)) && AllFrom(OffsetsInPlace(b, p, end), p)
    decreases end - p
  {
    hide HasSnap, Stride, Overwritten, SameFrom, Chained, OffsetsInPlace, FramesInPlace, FrameAt, LengthAt, Overlong;
    InPlaceCases(b, p, end);
    if p < end && !Overlong(b, p, end) {
      var c, q := Overwritten(b, p), p + Stride(LengthAt(b, p));
      OverwrittenSame(b, p);
      NextIsLater(b, p);
      SameLater(c, b, p + 20, q + 12);
      SameSides(c, b, q + 12);
      VisitsChained(c, q, end);
      ChainedAlike(b, c, q, end, OffsetsInPlace(c, q, end));
      ChainedCons(b, p, q, end, OffsetsInPlace(c, q, end));
    } else {
      NoneChained(b, p, end);
    }
  }

  lemma NextIsLater(b: seq<byte>, p: nat)
    requires p + 14 <= |b|
    ensures Stride(LengthAt(b, p)) >= 14
  {
  }

  lemma NoneChained(b: seq<byte>, p: nat, end: nat)
    requires end + SLACK <= |b| && (p >= end || Overlong(b, p, end))
    ensures Chained(b, p, end, [])
  {
  }

  lemma SameSides(b: seq<byte>, c: seq<byte>, p: nat)
    requires |b| == |c| && SameFrom(b, c, p)
    ensures SameFrom(c, b, p)
  {
  }

  lemma ChainedCons(b: seq<byte>, p: nat, q: nat, end: nat, ps: seq<nat>)
    requires end + 19 <= |b| && p < end && !Overlong(b, p, end) && q == p + Stride(LengthAt(b, p))
    requires Chained(b, q, end, ps)
    ensures Chained(b, p, end, [p] + ps)
  {
    hide Follows, Ends, Stride;
    StrideFollows(b, p, q, end);
    if ps == [] {
      forall r: nat | Follows(b, p, r, end) ensures Ends(b, r, end) {
        StrideFollows(b, p, r, end);
      }
    }
  }

  /** The frame of the subframe at `p`, said of the bytes alone. `four` are the first four bytes of the subframe,
      which a short one before it may have overwritten. */
  ghost predicate FrameBytes(b: seq<byte>, p: nat, four: seq<byte>, f: Frame)
    requires p + 19 < |b| && |four| == 4
  {
    var n := 256 * (b[p + 12] as nat) + b[p + 13] as nat;
    && p + n + 14 <= |b|
    && (forall k :: 0 <= k < 4 && k < |f| ==> f[k] == four[k])
    && (forall k :: 4 <= k < 12 && k < |f| ==> f[k] == b[p + k])
    && if b[p + 14..p + 20] == [0xaa, 0xaa, 3, 0, 0, 0] then
         |f| == n + 6 && forall k :: 12 <= k < |f| ==> f[k] == b[p + 8 + k]
       else
         |f| == n + 14 && f[12] == 0 && f[13] == 0 && forall k :: 14 <= k < |f| ==> f[k] == b[p + k]
  }

  /** The first four bytes of the subframe at `q` when it is unpacked after the one at `p`: its own, unless that one
      has a SNAP header and claims at most two bytes. */
  ghost function FourBehind(b: seq<byte>, p: nat, q: nat, end: nat): (s: seq<byte>)
    requires p < end && q < end && end + 19 <= |b|
    ensures |s| == 4
  {
    if b[p + 14..p + 20] == [0xaa, 0xaa, 3, 0, 0, 0] && 256 * (b[p + 12] as nat) + b[p + 13] as nat <= 2 then
      b[p + 8..p + 12]
    else
      b[q..q + 4]
  }

  ghost function FirstFour(b: seq<byte>, ps: seq<nat>, i: nat, end: nat): (s: seq<byte>)
    requires i < |ps| && end + 19 <= |b| && forall k :: 0 <= k < |ps| ==> ps[k] < end
    ensures |s| == 4
  {
    if i > 0 then FourBehind(b, ps[i - 1], ps[i], end) else b[ps[i]..ps[i] + 4]
  }

  /** All frames delivered, said of the bytes alone. */
  ghost predicate DeliveredBytes(b: seq<byte>, end: nat, ps: seq<nat>, fs: seq<Frame>)
    requires end + 19 <= |b|
  {
    && |fs| == |ps| && (forall i :: 0 <= i < |ps| ==> ps[i] < end)
    && forall i :: 0 <= i < |ps| ==> FrameBytes(b, ps[i], FirstFour(b, ps, i, end), fs[i])
  }

  lemma FrameIs(b: seq<byte>, p: nat)
    requires p + SLACK < |b| && p + LengthAt(b, p) + 14 <= |b|
    ensures FrameBytes(b, p, b[p..p + 4], FrameAt(b, p, LengthAt(b, p)))
  {
  }

  /** Bytes alike from the fourth of the subframe on tell of the same frame. */
  lemma FrameBytesAlike(b: seq<byte>, c: seq<byte>, p: nat, four: seq<byte>, f: Frame)
    requires p + 19 < |b| == |c| && |four| == 4 && SameFrom(b, c, p + 4) && FrameBytes(c, p, four, f)
    ensures FrameBytes(b, p, four, f)
  {
    assert b[p + 14..p + 20] == c[p + 14..p + 20];
  }

  lemma FirstFourAlike(b: seq<byte>, c: seq<byte>, ps: seq<nat>, i: nat, end: nat)
    requires 0 < i < |ps| && end + 19 <= |b| == |c| && forall k :: 0 <= k < |ps| ==> ps[k] < end
    requires SameFrom(b, c, ps[i - 1] + 4) && ps[i - 1] + 16 <= ps[i]
    ensures FirstFour(b, ps, i, end) == FirstFour(c, ps, i, end)
  {
    var p, q := ps[i - 1], ps[i];
    assert b[p + 14..p + 20] == c[p + 14..p + 20] && b[p + 8..p + 12] == c[p + 8..p + 12];
    assert b[q..q + 4] == c[q..q + 4];
  }

  /** What the buffer holds at the next subframe after one is unpacked. */
  lemma NextFour(b: seq<byte>, p: nat, q: nat, end: nat)
    requires p < q < end && end + SLACK <= |b| && q == p + Stride(LengthAt(b, p))
    ensures Overwritten(b, p)[q..q + 4] == FirstFour(b, [p, q], 1, end)
    ensures SameFrom(b, Overwritten(b, p), q + 4)
  {
    hide Overwritten, SameFrom, Stride;
    StrideFollows(b, p, q, end);
    var c := Overwritten(b, p);
    OverwrittenSame(b, p);
    SameSides(c, b, p + 20);
    SameLater(b, c, p + 20, q + 4);
    if !HasSnap(b, p) {
      SameSides(c, b, p + 14);
      FourAlike(b, c, p + 14, q);
    } else if LengthAt(b, p) <= 2 {
      assert q == p + 16;
      ShortSnap(b, p);
    } else {
      FourAlike(b, c, p + 20, q);
    }
  }

  lemma FourAlike(b: seq<byte>, c: seq<byte>, p: nat, q: nat)
    requires |b| == |c| && SameFrom(b, c, p) && p <= q && q + 4 <= |b|
    ensures b[q..q + 4] == c[q..q + 4]
  {
  }

  /** Unpacking in place delivers what the bytes say. */
  lemma {:induction false} DeliveredOutright(b: seq<byte>, p: nat, end: nat)
    requires end + SLACK <= |b|
    ensures DeliveredBytes(b, end, OffsetsInPlace(b, p, end), FramesInPlace(b, p, end))
    decreases end - p
  {
    hide FrameAt, HasSnap, Stride, Overwritten, SameFrom, FrameBytes, FirstFour, OffsetsInPlace, FramesInPlace,
         DeliveredBytes, LengthAt, Overlong, Chained;
    InPlaceCases(b, p, end);
    if p < end && !Overlong(b, p, end) {
      var c, q := Overwritten(b, p), p + Stride(LengthAt(b, p));
      DeliveredOutright(c, q, end);
      VisitsChained(c, q, end);
      DeliveredCons(b, p, q, end, OffsetsInPlace(c, q, end), FramesInPlace(c, q, end));
    } else {
      NoneDelivered(b, end);
    }
  }

  lemma NoneDelivered(b: seq<byte>, end: nat)
    requires end + 19 <= |b|
    ensures DeliveredBytes(b, end, [], [])
  {
  }

  lemma DeliveredCons(b: seq<byte>, p: nat, q: nat, end: nat, ps: seq<nat>, fs: seq<Frame>)
    requires p < end && end + SLACK <= |b| && !Overlong(b, p, end) && q == p + Stride(LengthAt(b, p))
    requires |Overwritten(b, p)| == |b| && Chained(Overwritten(b, p), q, end, ps) && AllFrom(ps, q)
    requires DeliveredBytes(Overwritten(b, p), end, ps, fs)
    ensures DeliveredBytes(b, end, [p] + ps, [FrameAt(b, p, LengthAt(b, p))] + fs)
  {
    hide FrameAt, HasSnap, Stride, Overwritten, FrameBytes, FirstFour, Chained;
    FrameIs(b, p);
    FirstOwn(b, [p] + ps, end);
    forall i | 0 <= i < |ps| ensures FrameBytes(b, ps[i], FirstFour(b, [p] + ps, i + 1, end), fs[i]) {
      LaterFrame(b, p, q, end, ps, i, fs[i]);
    }
  }

  lemma FirstOwn(b: seq<byte>, ps: seq<nat>, end: nat)
    requires ps != [] && end + 19 <= |b| && forall k :: 0 <= k < |ps| ==> ps[k] < end
    ensures FirstFour(b, ps, 0, end) == b[ps[0]..ps[0] + 4]
  {
  }

  lemma FirstFourShift(b: seq<byte>, p: nat, ps: seq<nat>, i: nat, end: nat)
    requires p < end && i < |ps| && end + 19 <= |b| && forall k :: 0 <= k < |ps| ==> ps[k] < end
    ensures i > 0 ==> FirstFour(b, [p] + ps, i + 1, end) == FirstFour(b, ps, i, end)
    ensures i == 0 ==> FirstFour(b, [p] + ps, 1, end) == FirstFour(b, [p, ps[0]], 1, end)
  {
    hide FourBehind;
  }

  lemma LaterFrame(b: seq<byte>, p: nat, q: nat, end: nat, ps: seq<nat>, i: nat, f: Frame)
    requires p < end && end + SLACK <= |b| && !Overlong(b, p, end) && q == p + Stride(LengthAt(b, p)) && i < |ps|
    requires Chained(Overwritten(b, p), q, end, ps) && forall k :: 0 <= k < |ps| ==> q <= ps[k] < end
    requires FrameBytes(Overwritten(b, p), ps[i], FirstFour(Overwritten(b, p), ps, i, end), f)
    ensures FrameBytes(b, ps[i], FirstFour(b, [p] + ps, i + 1, end), f)
  {
    hide HasSnap, Stride, Overwritten, SameFrom, FrameBytes, FirstFour, Ends;
    var c := Overwritten(b, p);
    NextFour(b, p, q, end);
    SameLater(b, c, q + 4, ps[i] + 4);
    FrameBytesAlike(b, c, ps[i], FirstFour(c, ps, i, end), f);
    FirstFourShift(b, p, ps, i, end);
    if i == 0 {
      FirstOwn(c, ps, end);
    } else {
      assert Follows(c, ps[i - 1], ps[i], end);
      SameLater(b, c, q + 4, ps[i - 1] + 4);
      FirstFourAlike(b, c, ps, i, end);
    }
  }

  // ---------- The driver's loops ----------

  lemma ExtendedReads(b: seq<byte>, p: nat)
    ensures p + 14 <= |b| ==> LengthAt(Extended(b), p) == LengthAt(b, p)
    ensures p + 20 <= |b| ==> HasSnap(Extended(b), p) == HasSnap(b, p)
  {
    if p + 20 <= |b| {
      assert Extended(b)[p + 14..p + 20] == b[p + 14..p + 20];
    }
  }

  /** What stands behind the buffer does not matter to unpacking a subframe inside it. */
  lemma ExtendedUnpacks(b: seq<byte>, p: nat, n: nat)
    requires p + 20 <= |b| && p + n + 14 <= |b|
    ensures FrameAt(Extended(b), p, n) == FrameAt(b, p, n)
    ensures Overwritten(Extended(b), p) == Extended(Overwritten(b, p))
  {
    var e := Extended(b);
    assert e[p..p + 12] == b[p..p + 12];
    if HasSnap(b, p) {
      SplicedExtended(b, p + 8, b[p..p + 12]);
      assert n >= 6 ==> e[p + 20..p + 14 + n] == b[p + 20..p + 14 + n];
      assert n < 6 ==> e[p..p + n + 6] == b[p..p + n + 6];
    } else {
      SplicedExtended(b, p + 12, [0, 0]);
      assert e[p + 14..p + 14 + n] == b[p + 14..p + 14 + n];
    }
    ExtendedReads(b, p);
    hide HasSnap, Spliced, Extended;
  }

  lemma SplicedExtended(b: seq<byte>, at: nat, s: seq<byte>)
    requires at + |s| <= |b|
    ensures Spliced(Extended(b), at, s) == Extended(Spliced(b, at, s))
  {
  }

  /** wlan_11n_get_num_aggrpkts. `outside` says that the next header is not in the buffer; the source reads it all
      the same, and the model stops there. */
  method GetNumAggrPkts(buf: array<byte>, start: nat, len: nat) returns (count: nat, outside: bool)
    requires start + len <= buf.Length
    ensures outside ==> !InMemory(Extended(buf[..]), start, start + len, buf.Length)
    ensures !outside ==> count == |Offsets(Extended(buf[..]), start, start + len)|
  {
    hide LengthAt, Extended;
    ghost var b, end := Extended(buf[..]), start + len;
    count := 0;
    var data, total: int := start, len;
    while total > 0
      invariant data + total == end && data >= 0
      invariant InMemory(b, start, end, buf.Length) ==> InMemory(b, data, end, buf.Length)
      invariant count + |Offsets(b, data, end)| == |Offsets(b, start, end)|
    {
      if data + 14 > buf.Length {
        return count, true;
      }
      ExtendedReads(buf[..], data);
      var pktLen := ReadLength(buf, data);
      var pad := Pad(pktLen + ETH_HEADER);
      data := data + pktLen + pad + ETH_HEADER;
      total := total - (pktLen + pad + ETH_HEADER);
      count := count + 1;
    }
    return count, false;
  }

  /** The length field, in network order. */
  method ReadLength(buf: array<byte>, p: nat) returns (n: nat)
    requires p + 14 <= buf.Length
    ensures n == LengthAt(buf[..], p)
  {
    n := (buf[p + 12] as nat) * 256 + buf[p + 13] as nat;
  }

  /** The body of the parser's loop on one subframe: where the frame now starts, and how long it is. */
  method UnpackInPlace(buf: array<byte>, p: nat, n: nat) returns (data: nat, len: nat)
    requires p + SLACK < buf.Length && p + n + 14 <= buf.Length
    modifies buf
    ensures data + len == p + n + 14 && p <= data
    ensures buf[..] == Overwritten(old(buf[..]), p)
    ensures buf[data..data + len] == FrameAt(old(buf[..]), p, n)
  {
    FrameIsInPlace(buf[..], p, n);
    hide FrameAt, Spliced;
    if buf[p + 14..p + 20] == RFC1042 {
      Memcpy(buf, p + LLC_SNAP_LEN, buf[p..p + ADDRESSES]);
      data := p + LLC_SNAP_LEN;
      len := n + ETH_HEADER - LLC_SNAP_LEN;
    } else {
      Memcpy(buf, p + ADDRESSES, [0, 0]);
      data := p;
      len := n + ETH_HEADER;
    }
    assert buf[data..data + len] == buf[..][data..data + len];
  }

  lemma FrameIsInPlace(b: seq<byte>, p: nat, n: nat)
    requires p + SLACK < |b| && p + n + 14 <= |b|
    ensures var data := if HasSnap(b, p) then p + LLC_SNAP_LEN else p;
            Overwritten(b, p)[data..p + n + 14] == FrameAt(b, p, n)
  {
    hide HasSnap, Spliced;
    if HasSnap(b, p) {
      SnapInPlace(b, p, n);
    } else {
      PlainInPlace(b, p, n);
    }
  }

  lemma SnapInPlace(b: seq<byte>, p: nat, n: nat)
    requires p + SLACK < |b| && p + n + 14 <= |b|
    ensures Spliced(b, p + 8, b[p..p + 12])[p + 8..p + n + 14]
         == if n >= 6 then b[p..p + 12] + b[p + 20..p + 14 + n] else b[p..p + n + 6]
  {
    hide Spliced;
    var moved := b[p..p + 12];
    if n >= 6 {
      SplicedWithin(b, p + 8, moved, 12);
      SplicedApart(b, p + 8, moved, p + 20, p + n + 14);
      SliceSplit(Spliced(b, p + 8, moved), p + 8, p + 20, p + n + 14);
      assert moved[..12] == moved;
    } else {
      SplicedWithin(b, p + 8, moved, n + 6);
      SliceOfSlice(b, p, p + 12, 0, n + 6);
      assert moved[..n + 6] == moved[0..n + 6];
    }
  }

  lemma PlainInPlace(b: seq<byte>, p: nat, n: nat)
    requires p + SLACK < |b| && p + n + 14 <= |b|
    ensures Spliced(b, p + 12, [0, 0])[p..p + n + 14] == b[p..p + 12] + [0, 0] + b[p + 14..p + 14 + n]
  {
    hide Spliced;
    var c, end := Spliced(b, p + 12, [0, 0]), p + n + 14;
    SplicedApart(b, p + 12, [0, 0], p, p + 12);
    SplicedWithin(b, p + 12, [0, 0], 2);
    SplicedApart(b, p + 12, [0, 0], p + 14, end);
    SliceSplit(c, p, p + 12, end);
    SliceSplit(c, p + 12, p + 14, end);
    assert [0, 0][..2] == [0, 0];
    ConcatAssociates(b[p..p + 12], [0, 0], b[p + 14..end]);
  }

  /** The parser's loop invariant: with `delivered` behind it, from the subframes `visited`, and the buffer now
      `c`, it stands at `p`. */
  ghost predicate Parsed(b: seq<byte>, start: nat, end: nat, delivered: seq<Frame>, visited: seq<nat>,
                         c: seq<byte>, p: nat)
    requires end + SLACK <= |b| == |c|
  {
    && delivered + FramesInPlace(c, p, end) == FramesInPlace(b, start, end)
    && visited + OffsetsInPlace(c, p, end) == OffsetsInPlace(b, start, end)
  }

  lemma ParsedStep(b: seq<byte>, start: nat, end: nat, delivered: seq<Frame>, visited: seq<nat>, c: seq<byte>, p: nat)
    requires end + SLACK <= |b| == |c| && p < end && !Overlong(c, p, end)
    requires Parsed(b, start, end, delivered, visited, c, p)
    ensures var n := LengthAt(c, p);
            Parsed(b, start, end, delivered + [FrameAt(c, p, n)], visited + [p], Overwritten(c, p), p + Stride(n))
  {
    hide FrameAt, LengthAt, Overwritten, Stride, FramesInPlace, OffsetsInPlace;
    InPlaceStep(c, p, end);
    var n, d := LengthAt(c, p), Overwritten(c, p);
    ConcatAssociates(delivered, [FrameAt(c, p, n)], FramesInPlace(d, p + Stride(n), end));
    ConcatAssociates(visited, [p], OffsetsInPlace(d, p + Stride(n), end));
  }

  lemma InPlaceStep(c: seq<byte>, p: nat, end: nat)
    requires end + SLACK <= |c| && p < end && !Overlong(c, p, end)
    ensures var n, d := LengthAt(c, p), Overwritten(c, p);
            && FramesInPlace(c, p, end) == [FrameAt(c, p, n)] + FramesInPlace(d, p + Stride(n), end)
            && OffsetsInPlace(c, p, end) == [p] + OffsetsInPlace(d, p + Stride(n), end)
  {
    hide FrameAt, LengthAt, Overwritten, Stride;
  }

  lemma ParsedEnds(b: seq<byte>, start: nat, end: nat, delivered: seq<Frame>, visited: seq<nat>, c: seq<byte>, p: nat)
    requires end + SLACK <= |b| == |c|
    ensures Parsed(b, start, end, [], [], b, start)
    ensures Parsed(b, start, end, delivered, visited, c, p) && (p >= end || Overlong(c, p, end)) ==>
              delivered == FramesInPlace(b, start, end) && visited == OffsetsInPlace(b, start, end)
  {
  }

  /** Unpacking a subframe that lies in the buffer does not change whether the later ones do. */
  lemma InMemoryNext(c: seq<byte>, p: nat, end: nat, mem: nat)
    requires end + SLACK <= |c| && p < end && !Overlong(c, p, end)
    ensures var n := LengthAt(c, p);
            InMemory(c, p, end, mem)
            <==> p + 20 <= mem && p + n + 14 <= mem && InMemory(Overwritten(c, p), p + Stride(n), end, mem)
  {
    hide LengthAt, Overwritten, SameFrom, Stride;
    var q := p + Stride(LengthAt(c, p));
    OverwrittenSame(c, p);
    SameLater(Overwritten(c, p), c, p + 20, q + 12);
    SameOffsets(Overwritten(c, p), c, q, end);
  }

  lemma InMemoryEnds(c: seq<byte>, p: nat, end: nat, mem: nat)
    requires end + SLACK <= |c|
    ensures p >= end ==> InMemory(c, p, end, mem)
    ensures p < end && Overlong(c, p, end) ==> (InMemory(c, p, end, mem) <==> p + 14 <= mem)
    ensures p < end && InMemory(c, p, end, mem) ==> p + 14 <= mem
  {
  }

  /** What the original bytes say of it is exact: the walk over the changing buffer stays before `mem` if and only if
      they say so. */
  lemma {:induction false} ReachExactly(b: seq<byte>, p: nat, end: nat, mem: nat)
    requires end + SLACK <= |b|
    ensures ReachInPlace(b, p, end) <= mem <==> InMemory(b, p, end, mem)
    decreases end - p
  {
    hide LengthAt, Overwritten, Stride, InMemory;
    InMemoryEnds(b, p, end, mem);
    if p < end && !Overlong(b, p, end) {
      InMemoryNext(b, p, end, mem);
      ReachExactly(Overwritten(b, p), p + Stride(LengthAt(b, p)), end, mem);
    }
  }

  /** An aggregate that passes the length check and reaches out of its buffer: a subframe that claims all that is
      left, its own header included. */
  lemma OutsideExample() returns (b: seq<byte>)
    ensures |b| == 32 && !Overlong(Extended(b), 0, 32)
    ensures ReachInPlace(Extended(b), 0, 32) > 32 && !InMemory(Extended(b), 0, 32, 32)
  {
    b := Zeros(13) + [32] + Zeros(18);
    assert Extended(b)[12] == 0 && Extended(b)[13] == 32;
    assert LengthAt(Extended(b), 0) == 32;
    InMemoryNext(Extended(b), 0, 32, 32);
    ReachExactly(Extended(b), 0, 32, 32);
  }

  /** wlan_11n_deaggregate_pkt. `delivered` is what wrapper_deliver_amsdu_subframe receives, and `visited` where
      the subframes of these frames start. `outside` says that a header, or what a subframe claims, is not in the
      buffer; the source does not check this, and the model stops there. */
  method Deaggregate(buf: array<byte>, start: nat, len: nat)
    returns (success: bool, useCount: nat, delivered: seq<Frame>, outside: bool, ghost visited: seq<nat>)
    requires start + len <= buf.Length
    modifies buf
    ensures len > 4096 ==> delivered == [] && !success && !outside
    ensures len <= 4096 && !outside ==>
              var b, end := Extended(old(buf[..])), start + len;
              Chained(b, start, end, visited) && DeliveredBytes(b, end, visited, delivered)
    ensures len <= 4096 ==>
              var b, end := Extended(old(buf[..])), start + len;
              outside <==> !InMemory(b, start, end, buf.Length)
    ensures len <= 4096 && !outside ==>
              var b, end := Extended(old(buf[..])), start + len;
              && delivered == FramesInPlace(b, start, end)
              && |delivered| <= |Offsets(b, start, end)| == useCount
              && visited == Offsets(b, start, end)[..|delivered|]
              && (success <==> delivered != [])
              && useCount == |delivered| + (if BreaksOut(b, start, end) then 1 else 0)
  {
    hide FrameAt, Pad, Frames, Undisturbed, BreaksOut, Offsets, Overwritten, FramesInPlace, OffsetsInPlace, Parsed,
         HasSnap, LengthAt, Extended, InMemory, Chained, DeliveredBytes;
    success, useCount, delivered, outside, visited := false, 0, [], false, [];
    var total: int := len;
    if total > RX_DATA_BUF_SIZE {
      return;
    }
    ghost var b, end := Extended(buf[..]), start + len;
    useCount, outside := GetNumAggrPkts(buf, start, len);
    if outside {
      return;
    }
    CountOffsets(b, start, end);
    InPlaceVisits(b, start, end);
    ParsedEnds(b, start, end, [], [], b, start);
    var data: nat := start;
    while total > 0
      invariant data + total == end
      invariant success <==> delivered != []
      invariant Parsed(b, start, end, delivered, visited, Extended(buf[..]), data)
      invariant InMemory(Extended(buf[..]), data, end, buf.Length) == InMemory(b, start, end, buf.Length)
    {
      ghost var c, p := Extended(buf[..]), data;
      InMemoryEnds(c, p, end, buf.Length);
      if data + 14 > buf.Length {
        outside := true;
        return;
      }
      ExtendedReads(buf[..], p);
      var pktLen := ReadLength(buf, data);
      if pktLen > total {
        break;
      }
      InMemoryNext(c, p, end, buf.Length);
      if data + 20 > buf.Length || data + pktLen + 14 > buf.Length {
        outside := true;
        return;
      }
      ExtendedUnpacks(buf[..], p, pktLen);
      var pad := Pad(pktLen + ETH_HEADER);
      total := total - (pktLen + pad + ETH_HEADER);
      var frameLen;
      data, frameLen := UnpackInPlace(buf, data, pktLen);
      ParsedStep(b, start, end, delivered, visited, c, p);
      delivered, visited := delivered + [buf[data..data + frameLen]], visited + [p];
      success := true;
      data := data + frameLen + pad;
    }
    InMemoryEnds(Extended(buf[..]), data, end, buf.Length);
    ParsedEnds(b, start, end, delivered, visited, Extended(buf[..]), data);
    VisitsChained(b, start, end);
    DeliveredOutright(b, start, end);
  }

  // ---------- The round trip ----------

  /** `b` holds, at `p`, the aggregate of `fs` without the last `cut` bytes. */
  predicate Holds(b: seq<byte>, p: nat, fs: seq<Frame>, cut: nat)
    requires AllEthernet(fs)
  {
    && cut <= |Aggregate(fs)|
    && p + |Aggregate(fs)| - cut <= |b|
    && b[p..p + |Aggregate(fs)| - cut] == Aggregate(fs)[..|Aggregate(fs)| - cut]
  }

  function LastPad(fs: seq<Frame>): nat {
    if fs == [] then 0 else Pad(|fs[|fs| - 1]| + LLC_SNAP_LEN)
  }

  lemma PrintedFrame(b: seq<byte>, p: nat, f: Frame)
    requires Ethernet(f) && p + |f| + LLC_SNAP_LEN <= |b|
    requires b[p..p + |f| + LLC_SNAP_LEN] == Subframe(f)[..|f| + LLC_SNAP_LEN]
    ensures LengthAt(b, p) == |f| - 6 && HasSnap(b, p) && FrameAt(b, p, |f| - 6) == f
    ensures Stride(|f| - 6) == |Subframe(f)|
  {
    var t, n := Subframe(f)[..|f| + LLC_SNAP_LEN], |f| + LLC_SNAP_LEN;
    SubframeParts(f);
    hide Subframe, Be16;
    assert b[p + 12] == b[p..p + n][12] && b[p + 13] == b[p..p + n][13];
    SliceOfSlice(b, p, p + n, 0, 12);
    SliceOfSlice(b, p, p + n, 14, 20);
    SliceOfSlice(b, p, p + n, 20, n);
    SliceSplit(f, 0, 12, |f|);
    assert f[0..|f|] == f && f[0..12] == f[..12] && f[12..|f|] == f[12..];
  }

  /** The printed frame without its padding, field by field. */
  lemma SubframeParts(f: Frame)
    requires Ethernet(f)
    ensures var t := Subframe(f)[..|f| + LLC_SNAP_LEN];
            && t[0..12] == f[..12] && t[14..20] == RFC1042 && t[20..|t|] == f[12..]
            && (t[12] as nat) * 256 + t[13] as nat == |f| - 6
  {
    var t, field := Subframe(f)[..|f| + LLC_SNAP_LEN], Be16(|f| - 6);
    assert t == f[..12] + field + RFC1042 + f[12..];
    assert t[12] == field[0] && t[13] == field[1];
    PartsOfConcat(f[..12] + field, RFC1042, f[12..]);
    assert t[0..12] == f[..12];
    assert t[20..|t|] == t[20..];
  }

  lemma SplitPrefix(b: seq<byte>, p: nat, s: seq<byte>, r: seq<byte>, n: nat, k: nat)
    requires k <= |s| && k <= n <= |s + r| && p + n <= |b| && b[p..p + n] == (s + r)[..n]
    ensures b[p..p + k] == s[..k]
  {
    assert b[p..p + k] == b[p..p + n][..k];
  }

  lemma SplitSuffix(b: seq<byte>, p: nat, s: seq<byte>, r: seq<byte>, n: nat)
    requires |s| <= n <= |s + r| && p + n <= |b| && b[p..p + n] == (s + r)[..n]
    ensures b[p + |s|..p + n] == r[..n - |s|]
  {
    assert b[p + |s|..p + n] == b[p..p + n][|s|..];
  }

  /** Reading what was printed gives the frames back, with the padding of the last subframe in place or
      left out. */
  lemma {:induction false} RoundTrip(fs: seq<Frame>, b: seq<byte>, p: nat, cut: nat)
    requires AllEthernet(fs)
    requires (cut == 0 || cut == LastPad(fs)) && Holds(b, p, fs, cut)
    requires p + |Aggregate(fs)| - cut + SLACK <= |b|
    ensures var end := p + |Aggregate(fs)| - cut;
            Frames(b, p, end) == fs && Undisturbed(b, p, end) && !BreaksOut(b, p, end) && InMemory(b, p, end, end)
  {
    hide FrameAt, HasSnap, LengthAt, Subframe, Stride, Pad, Aggregate, Frames, Undisturbed, BreaksOut, InMemory;
    AggregateHead(fs);
    var end := p + |Aggregate(fs)| - cut;
    if fs == [] {
      FramesEnd(b, p, end);
    } else {
      var f, rest := fs[0], fs[1..];
      var s, r := Subframe(f), Aggregate(rest);
      assert fs == [f] + rest;
      LastPadFits(rest);
      var n := |s| + |r| - cut;
      SplitPrefix(b, p, s, r, n, |f| + LLC_SNAP_LEN);
      PrintedFrame(b, p, f);
      FramesHead(b, p, end);
      if rest != [] {
        SplitSuffix(b, p, s, r, n);
        RoundTrip(rest, b, p + |s|, cut);
      } else {
        FramesEnd(b, p + |s|, end);
      }
    }
  }

  lemma FramesEnd(b: seq<byte>, p: nat, end: nat)
    requires end + SLACK <= |b| && p >= end
    ensures Frames(b, p, end) == [] && Undisturbed(b, p, end) && !BreaksOut(b, p, end) && InMemory(b, p, end, end)
  {
  }

  lemma FramesHead(b: seq<byte>, p: nat, end: nat)
    requires end + SLACK <= |b| && p < end && !Overlong(b, p, end)
    ensures var n := LengthAt(b, p);
            && Frames(b, p, end) == [FrameAt(b, p, n)] + Frames(b, p + Stride(n), end)
            && (Undisturbed(b, p, end) <==> NextUntouched(b, p, end) && Undisturbed(b, p + Stride(n), end))
            && (BreaksOut(b, p, end) <==> BreaksOut(b, p + Stride(n), end))
            && (p + 20 <= end && p + n + 14 <= end && InMemory(b, p + Stride(n), end, end) ==> InMemory(b, p, end, end))
  {
    hide FrameAt, NextUntouched, LengthAt, Stride;
  }

  /** How many bytes are sent: the last padding is dropped or not. */
  function SentSize(fs: seq<Frame>, dropLastPad: bool): int
    requires AllEthernet(fs)
  {
    |Aggregate(fs)| - (if dropLastPad then LastPad(fs) else 0)
  }

  /** The loop that forms the frames one after another, and the size of the last padding. */
  method FormAll(buf: array<byte>, fs: seq<Frame>) returns (size: nat, lastPad: nat)
    requires AllEthernet(fs) && |Aggregate(fs)| <= buf.Length
    modifies buf
    ensures size == |Aggregate(fs)| && buf[..size] == Aggregate(fs) && lastPad == LastPad(fs)
  {
    hide Spliced, Subframe, Pad, Aggregate, LastPad;
    AggregateNone();
    size, lastPad := 0, 0;
    for i := 0 to |fs|
      invariant AllEthernet(fs[..i]) && size == |Aggregate(fs[..i])| && lastPad == LastPad(fs[..i])
      invariant size <= buf.Length && buf[..size] == Aggregate(fs[..i])
    {
      var len;
      AggregateStep(fs, i);
      ghost var b := buf[..];
      len, lastPad := FormAmsduPkt(buf, size, fs[i]);
      SplicedPrefix(b, size, Subframe(fs[i]));
      size := size + len;
      assert buf[..size] == buf[..][..size];
    }
    assert fs[..|fs|] == fs;
  }

  lemma AggregateNone()
    ensures Aggregate([]) == [] && LastPad([]) == 0
  {
  }

  /** The driver's own former and parser undo each other: form the frames one after another, drop the last
      padding or not, and de-aggregate in place. */
  method FormThenDeaggregate(buf: array<byte>, fs: seq<Frame>, dropLastPad: bool)
    returns (success: bool, useCount: nat, delivered: seq<Frame>)
    requires AllEthernet(fs) && |Aggregate(fs)| <= buf.Length && SentSize(fs, dropLastPad) <= 4096
    modifies buf
    ensures delivered == fs && useCount == |fs| && (success <==> fs != [])
  {
    hide Aggregate, LastPad, Frames, Undisturbed, BreaksOut, Offsets, OffsetsInPlace, FramesInPlace, Ethernet,
         InMemory;
    LastPadFits(fs);
    var size, lastPad := FormAll(buf, fs);
    var sent := if dropLastPad then size - lastPad else size;
    ghost var b := Extended(buf[..]);
    assert b[0..sent] == buf[..][..sent] == buf[..size][..sent];
    RoundTrip(fs, b, 0, size - sent);
    MoreMemory(b, 0, sent, sent, buf.Length);
    InPlaceIsFaithful(b, 0, sent);
    var outside;
    ghost var visited;
    success, useCount, delivered, outside, visited := Deaggregate(buf, 0, sent);
  }

  lemma {:induction false} MoreMemory(b: seq<byte>, p: nat, end: nat, mem: nat, mem': nat)
    requires end + SLACK <= |b| && InMemory(b, p, end, mem) && mem <= mem'
    ensures InMemory(b, p, end, mem')
    decreases end - p
  {
    hide LengthAt, Stride;
    if p < end && !Overlong(b, p, end) {
      MoreMemory(b, p + Stride(LengthAt(b, p)), end, mem, mem');
    }
  }

  lemma SplicedPrefix(b: seq<byte>, at: nat, s: seq<byte>)
    requires at + |s| <= |b|
    ensures Spliced(b, at, s)[..at + |s|] == b[..at] + s
  {
  }

  lemma AggregateStep(fs: seq<Frame>, i: nat)
    requires AllEthernet(fs) && i < |fs|
    ensures AllEthernet(fs[..i + 1]) && AllEthernet(fs[..i])
    ensures Aggregate(fs[..i + 1]) == Aggregate(fs[..i]) + Subframe(fs[i])
    ensures |Aggregate(fs[..i + 1])| <= |Aggregate(fs)|
    ensures LastPad(fs[..i + 1]) == Pad(|fs[i]| + LLC_SNAP_LEN)
  {
    hide Subframe, Pad, Aggregate, Ethernet;
    assert fs[..i + 1] == fs[..i] + [fs[i]];
    AggregateConcat(fs[..i], [fs[i]]);
    AggregateOne(fs[i]);
    assert fs == fs[..i + 1] + fs[i + 1..];
    AggregateConcat(fs[..i + 1], fs[i + 1..]);
  }

  lemma LastPadFits(fs: seq<Frame>)
    requires AllEthernet(fs)
    ensures LastPad(fs) <= |Aggregate(fs)|
  {
    hide Aggregate, Pad, Ethernet;
    if fs != [] {
      var last := fs[|fs| - 1];
      assert fs == fs[..|fs| - 1] + [last];
      AggregateConcat(fs[..|fs| - 1], [last]);
      AggregateOne(last);
    }
  }

  lemma AggregateHead(fs: seq<Frame>)
    requires AllEthernet(fs)
    ensures Aggregate([]) == []
    ensures fs != [] ==> Aggregate(fs) == Subframe(fs[0]) + Aggregate(fs[1..])
  {
  }

  lemma {:induction false} AggregateConcat(fs: seq<Frame>, gs: seq<Frame>)
    requires AllEthernet(fs) && AllEthernet(gs)
    ensures Aggregate(fs + gs) == Aggregate(fs) + Aggregate(gs)
  {
    hide Aggregate, Subframe;
    AggregateHead(fs);
    if fs == [] {
      assert fs + gs == gs;
    } else {
      AggregateHead(fs + gs);
      TailOfConcat(fs, gs);
      AggregateConcat(fs[1..], gs);
      ConcatAssociates(Subframe(fs[0]), Aggregate(fs[1..]), Aggregate(gs));
    }
  }

  lemma AggregateOne(f: Frame)
    requires Ethernet(f)
    ensures Aggregate([f]) == Subframe(f)
  {
    hide Subframe, Ethernet;
    AggregateHead([f]);
    assert [f][1..] == [];
  }
}
