/** Facts about slots, deliveries, the bitmap and the circle of sequence numbers. */
module RxReorderLemmas {
  import opened Bits
  import opened RxReorderModel
  import opened Seqs

  // ---------- Deliveries ----------

  lemma DeliveriesHead(s: seq<Slot>, base: nat)
    ensures Deliveries([], base) == []
    ensures s != [] ==>
              Deliveries(s, base)
              == (if s[0].Full? then [InWindow(base, s[0].pkt)] else []) + Deliveries(s[1..], base + 1)
  {
  }

  lemma {:induction false} DeliveriesConcat(s: seq<Slot>, s': seq<Slot>, base: nat)
    ensures Deliveries(s + s', base) == Deliveries(s, base) + Deliveries(s', base + |s|)
  {
    hide Deliveries;
    DeliveriesHead(s, base);
    if s == [] {
      assert s + s' == s';
    } else {
      var first := if s[0].Full? then [InWindow(base, s[0].pkt)] else [];
      DeliveriesHead(s + s', base);
      TailOfConcat(s, s');
      DeliveriesConcat(s[1..], s', base + 1);
      ConcatAssociates(first, Deliveries(s[1..], base + 1), Deliveries(s', base + |s|));
    }
  }

  /** One slot more. */
  lemma DeliveriesSnoc(s: seq<Slot>, i: nat, base: nat)
    requires i < |s|
    ensures Deliveries(s[..i + 1], base)
         == Deliveries(s[..i], base) + (if s[i].Full? then [InWindow(base + i, s[i].pkt)] else [])
  {
    hide Deliveries;
    assert s[..i + 1] == s[..i] + [s[i]];
    DeliveriesConcat(s[..i], [s[i]], base);
    DeliveriesHead([s[i]], base + i);
    DeliveriesHead([], base + i + 1);
    var last := if s[i].Full? then [InWindow(base + i, s[i].pkt)] else [];
    assert [s[i]][1..] == [] && last + [] == last;
  }

  lemma {:induction false} DeliveriesOfEmpty(s: seq<Slot>, base: nat)
    requires AllEmpty(s)
    ensures Deliveries(s, base) == []
  {
    if s != [] {
      DeliveriesOfEmpty(s[1..], base + 1);
    }
  }

  // ---------- The bitmap ----------

  lemma BitmapHead(s: seq<Slot>)
    ensures BitmapOf([]) == 0
    ensures s != [] ==> BitmapOf(s) == (if s[0].Full? then 1 else 0) + 2 * BitmapOf(s[1..])
  {
  }

  lemma BitmapHalf(s: seq<Slot>)
    requires s != []
    ensures BitmapOf(s) / 2 == BitmapOf(s[1..]) && (BitmapOf(s) % 2 == 1 <==> s[0].Full?)
  {
    hide *;
    BitmapHead(s);
  }

  lemma {:induction false} BitmapShift(s: seq<Slot>, n: nat)
    requires n <= |s|
    ensures ShiftRight(BitmapOf(s), n) == BitmapOf(s[n..])
  {
    hide BitmapOf;
    if n > 0 {
      BitmapHalf(s);
      BitmapShift(s[1..], n - 1);
      assert s[1..][n - 1..] == s[n..];
    } else {
      assert s[0..] == s;
    }
  }

  lemma {:induction false} BitmapPad(s: seq<Slot>, e: seq<Slot>)
    requires AllEmpty(e)
    ensures BitmapOf(s + e) == BitmapOf(s)
  {
    hide BitmapOf;
    BitmapHead(s);
    if s != [] {
      TailOfConcat(s, e);
      BitmapHead(s + e);
      BitmapPad(s[1..], e);
    } else {
      BitmapHead(e);
      assert s + e == e;
      if e != [] {
        BitmapPad([], e[1..]);
        assert [] + e[1..] == e[1..];
      }
    }
  }

  lemma {:induction false} BitmapSet(s: seq<Slot>, i: nat, p: Packet)
    requires i < |s|
    ensures SetBit(BitmapOf(s), i) == BitmapOf(s[i := Full(p)])
  {
    hide BitmapOf;
    var s' := s[i := Full(p)];
    BitmapHead(s);
    BitmapHalf(s);
    BitmapHead(s');
    if i > 0 {
      BitmapSet(s[1..], i - 1, p);
      assert s'[1..] == s[1..][i - 1 := Full(p)];
    } else {
      assert s'[1..] == s[1..];
    }
  }

  lemma {:induction false} BitmapZero(s: seq<Slot>)
    ensures BitmapOf(s) == 0 <==> AllEmpty(s)
  {
    if s != [] {
      BitmapZero(s[1..]);
      assert AllEmpty(s) <==> s[0] == Empty && AllEmpty(s[1..]) by {
        if s[0] == Empty && AllEmpty(s[1..]) {
          forall i | 0 <= i < |s| ensures s[i] == Empty { assert i > 0 ==> s[i] == s[1..][i - 1]; }
        }
      }
    }
  }

  /** Bit i of the bitmap is set iff slot i is full, and the bitmap fits a word of one bit a slot. */
  lemma {:induction false} BitmapBits(s: seq<Slot>, i: nat)
    ensures Bit(BitmapOf(s), i) <==> i < |s| && s[i].Full?
    ensures BitmapOf(s) < Pow2(|s|)
    decreases i + |s|
  {
    if s != [] {
      BitmapBits(s[1..], if i > 0 then i - 1 else 0);
    } else if i > 0 {
      BitmapBits(s, i - 1);
    }
  }

  // ---------- Window moves keep the invariant ----------

  lemma AdvanceSlots(t: Table, n: nat, newStart: Position)
    requires n <= |t.slots| && t.bitmap == BitmapOf(t.slots)
    ensures var t' := Advance(t, n, newStart); t'.bitmap == BitmapOf(t'.slots) && |t'.slots| == |t.slots|
  {
    BitmapShift(t.slots, n);
    BitmapPad(t.slots[n..], Empties(n));
  }

  lemma AdvanceInv(t: Table, n: nat, newStart: SeqNum)
    requires Inv(t) && n <= t.winSize
    requires Distance(t.startWin, newStart) == n || (forall i :: n <= i < t.winSize ==> t.slots[i] == Empty)
    ensures Inv(Advance(t, n, newStart))
  {
    AdvanceSlots(t, n, newStart);
    var t' := Advance(t, n, newStart);
    forall i | 0 <= i < |t'.slots| && t'.slots[i].Full?
      ensures t'.slots[i].pkt.seqNum == Plus(newStart, i) && t'.slots[i] == t.slots[n + i]
    {
      assert t'.slots[i] == t.slots[n + i];
    }
    assert AllEmpty(t.slots) ==> AllEmpty(t'.slots);
  }

  lemma FlushInv(t: Table, newStart: SeqNum)
    requires Inv(t)
    ensures Inv(FlushTo(t, newStart).0)
  {
    AdvanceInv(t, FlushCount(t, newStart), newStart);
  }

  /** The timer's flush is a move past the last full slot. */
  lemma FlushIsMove(t: Table)
    requires Inv(t)
    ensures Inv(t.(timerIsSet := true)) && |t.slots| == t.winSize <= 64
    ensures var last := LastFull(t.slots);
            if last < 0 then Flush(t) == (t.(timerIsSet := false), [])
            else var newStart := Plus(t.startWin, last + 1);
                 var (t', out) := FlushTo(t.(timerIsSet := true), newStart);
                 Flush(t) == (t'.(timerIsSet := false), out) && Distance(t.startWin, newStart) == last + 1
  {
    hide Deliveries, ShiftRight, LastFull;
  }

  lemma MoveEmpties(t: Table, newStart: SeqNum)
    requires Inv(t) && forall i :: FlushCount(t, newStart) <= i < t.winSize ==> t.slots[i] == Empty
    ensures AllEmpty(FlushTo(t, newStart).0.slots)
  {
    hide Deliveries, ShiftRight, BitmapOf, InPlace;
  }

  lemma Disarm(t: Table)
    requires Inv(t) && AllEmpty(t.slots)
    ensures Inv(t.(timerIsSet := false)) && t.bitmap == 0
  {
    BitmapZero(t.slots);
    hide BitmapOf;
  }

  lemma FlushEmpties(t: Table)
    requires Inv(t)
    ensures var t' := Flush(t).0; Inv(t') && AllEmpty(t'.slots) && t'.bitmap == 0 && !t'.timerIsSet
  {
    hide Inv, Flush, FlushTo, LastFull;
    FlushIsMove(t);
    var last := LastFull(t.slots);
    if last >= 0 {
      var t1, newStart := t.(timerIsSet := true), Plus(t.startWin, last + 1);
      FlushInv(t1, newStart);
      MoveEmpties(t1, newStart);
      Disarm(FlushTo(t1, newStart).0);
    } else {
      Disarm(t);
    }
  }

  lemma DrainEmpties(t: Table)
    requires Inv(t)
    ensures AllEmpty(Drain(t).0.slots)
  {
  }

  // ---------- Every event keeps the invariant ----------

  /** A move leaves the last slot free: the arrival that caused it is never taken for a duplicate. */
  lemma MovedSlotIsFree(t: Table, a: Arrival)
    requires Inv(t) && Moves(t, a)
    ensures MakeRoom(t, a).0.slots[SlotIndex(t, a)] == Empty
  {
  }

  lemma TargetReaches(t: Table, a: Arrival)
    requires 2 <= t.winSize <= 64 && !a.Bar?
    ensures Moves(t, a) ==> Plus(Target(t, a), t.winSize - 1) == a.Seq()
    ensures !Moves(t, a) ==> Plus(t.startWin, Reach(t, a)) == a.Seq()
  {
  }

  lemma MoveKeeps(t: Table, newStart: SeqNum)
    requires |t.slots| == t.winSize
    ensures var t' := FlushTo(t, newStart).0;
            t'.winSize == t.winSize && t'.checkStartWin == t.checkStartWin && t'.startWin == newStart
  {
  }

  lemma MakeRoomInv(t: Table, a: Arrival)
    requires Inv(t)
    ensures var t' := MakeRoom(t, a).0; Inv(t') && t'.winSize == t.winSize && t'.checkStartWin == t.checkStartWin
    ensures !a.Bar? ==> Plus(MakeRoom(t, a).0.startWin, SlotIndex(t, a)) == a.Seq()
  {
    hide Inv, FlushTo, Moves, Target, Reach, Plus;
    InvShape(t);
    if !a.Bar? {
      TargetReaches(t, a);
    }
    if Moves(t, a) {
      FlushInv(t, Target(t, a));
      MoveKeeps(t, Target(t, a));
    }
  }

  lemma InvShape(t: Table)
    requires Inv(t)
    ensures |t.slots| == t.winSize && 2 <= t.winSize <= 64
  {
  }

  /** Invariant of a table whose timer flag has not been settled yet, and whose start may be 4096 with
      a frame just stored. */
  ghost predicate Unsettled(t: Table) {
    && 2 <= t.winSize <= 64
    && |t.slots| == t.winSize
    && !t.checkStartWin
    && (t.lastSeq < MAX_TID_VALUE || t.lastSeq == DEFAULT_SEQ_NUM)
    && t.pktCount < 256
    && InPlace(t)
    && t.bitmap == BitmapOf(t.slots)
  }

  lemma ScanInv(t: Table)
    requires Unsettled(t)
    ensures Inv(SettleTimer(Scan(t).0))
  {
    var n := RunLength(t.slots);
    var t' := Scan(t).0;
    AdvanceSlots(t, n, t'.startWin);
    BitmapZero(t'.slots);
    forall i | 0 <= i < |t'.slots| && t'.slots[i].Full?
      ensures t'.slots[i].pkt.seqNum == Plus(t'.startWin, i)
    {
      assert t'.slots[i] == t.slots[n + i];
    }
  }

  lemma AdmitInv(t: Table, a: Arrival)
    requires Inv(t) && !t.checkStartWin
    ensures Inv(Admit(t, a).table)
  {
    hide Place, FlushTo;
    MakeRoomInv(t, a);
    PlaceInv(MakeRoom(t, a).0, SlotIndex(t, a), a);
  }

  lemma PlaceInv(t: Table, i: nat, a: Arrival)
    requires Inv(t) && !t.checkStartWin && i < t.winSize
    requires !a.Bar? ==> Plus(t.startWin, i) == a.Seq()
    ensures Inv(Place(t, i, a).table)
  {
    hide Scan;
    BitmapZero(t.slots);
    if a.Bar? {
      ScanInv(t);
    } else if !t.slots[i].Full? {
      BitmapSet(t.slots, i, a.pkt);
      ScanInv(Store(t, i, a.pkt));
    }
  }

  lemma ReorderInv(t: Table, a: Arrival)
    requires Inv(t) && !t.checkStartWin
    ensures Inv(Reorder(t, a).table)
  {
    hide Admit;
    BitmapZero(t.slots);
    if !Refuses(t, a) {
      AdmitInv(t.(forceNoDrop := false), a);
    }
  }

  lemma EndStartUpInv(t: Table, a: Arrival)
    requires Inv(t) && t.checkStartWin
    ensures Inv(EndStartUp(t, a)) && !EndStartUp(t, a).checkStartWin
  {
    BitmapZero(t.slots);
    hide BitmapOf, Distance;
    assert t.slots[0..] + Empties(0) == t.slots;
  }

  lemma ReceiveInv(t: Table, a: Arrival)
    requires Inv(t)
    ensures Inv(Receive(t, a).table)
  {
    hide Reorder, EndStartUp, Rebases, BitmapOf;
    if !(a.Amsdu? && !t.amsdu) && !StillStarting(t, a) {
      if t.checkStartWin {
        EndStartUpInv(t, a);
      }
      ReorderInv(if t.checkStartWin then EndStartUp(t, a) else t, a);
    }
  }

  lemma ApplyInv(t: Table, e: Event)
    requires Inv(t)
    ensures Inv(Apply(t, e).table)
  {
    hide Receive, Flush, FlushTo;
    match e
    case Arrive(a) => ReceiveInv(t, a);
    case TimerFires => FlushEmpties(t);
    case ReAddba(ssn) => FlushInv(t, ssn);
    case HostSleepActivated =>
    case AddbaCompleted(_) =>
  }

  // ---------- What the slots hold ----------

  lemma HeldHead(s: seq<Slot>)
    ensures HeldPackets([]) == []
    ensures s != [] ==>
              HeldPackets(s) == (if s[0].Full? then [s[0].pkt] else []) + HeldPackets(s[1..])
  {
  }

  lemma {:induction false} HeldConcat(s: seq<Slot>, s': seq<Slot>)
    ensures HeldPackets(s + s') == HeldPackets(s) + HeldPackets(s')
  {
    hide HeldPackets;
    HeldHead(s);
    if s == [] {
      assert s + s' == s';
    } else {
      var first := if s[0].Full? then [s[0].pkt] else [];
      HeldHead(s + s');
      TailOfConcat(s, s');
      HeldConcat(s[1..], s');
      ConcatAssociates(first, HeldPackets(s[1..]), HeldPackets(s'));
    }
  }
}
