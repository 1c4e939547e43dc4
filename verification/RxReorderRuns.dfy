/** What holds over every run of events on a reorder buffer: the invariant, conservation of frames, no stranded
    frame, and what a BAR does to the window. */
module RxReorderRuns {
  import opened Bits
  import opened RxReorderModel
  import opened RxReorderLemmas
  import opened Seqs

  ghost function Run(t: Table, es: seq<Event>): (r: Step)
    requires Inv(t)
    ensures Inv(r.table) && |r.table.slots| == r.table.winSize && 2 <= r.table.winSize <= 64
    decreases |es|
  {
    if es == [] then Step(t, [], [], true)
    else
      ApplyInv(t, es[0]);
      var s := Apply(t, es[0]);
      var r := Run(s.table, es[1..]);
      Step(r.table, s.out + r.out, s.refused + r.refused, r.accepted)
  }

  /** The buffer of a fresh block-ack agreement. */
  function Fresh(winSize: nat, ssn: SeqNum, lastSeq: nat, amsdu: bool): Table {
    Table(winSize, ssn, lastSeq, Empties(winSize), 0, false, amsdu, false, true, 0, 0)
  }

  lemma FreshInv(winSize: nat, ssn: SeqNum, lastSeq: nat, amsdu: bool)
    requires 2 <= winSize <= 64 && (lastSeq < MAX_TID_VALUE || lastSeq == DEFAULT_SEQ_NUM)
    ensures Inv(Fresh(winSize, ssn, lastSeq, amsdu))
  {
    BitmapZero(Empties(winSize));
  }

  /** What the invariant says, in its own words: a frame in slot i is number startWin + i and the timer is
      armed; bit i of the bitmap is slot i, and the bitmap fits 64 bits; during start-up, and while the
      window start is the unmasked 4096, nothing is held. */
  ghost predicate WellKept(t: Table) {
    && |t.slots| == t.winSize
    && (forall i :: 0 <= i < |t.slots| && t.slots[i].Full? ==>
          t.slots[i].pkt.seqNum == (t.startWin + i) % MAX_TID_VALUE && t.timerIsSet)
    && (forall i :: 0 <= i < 64 ==> (Bit(t.bitmap, i) <==> i < t.winSize && t.slots[i].Full?))
    && t.bitmap < Pow2(64)
    && (t.checkStartWin || t.startWin == MAX_TID_VALUE ==> AllEmpty(t.slots))
  }

  lemma HeldNumbers(t: Table)
    requires Inv(t)
    ensures forall i :: 0 <= i < |t.slots| && t.slots[i].Full? ==>
              t.slots[i].pkt.seqNum == (t.startWin + i) % MAX_TID_VALUE && t.timerIsSet
  {
    hide BitmapOf;
    forall i | 0 <= i < |t.slots| && t.slots[i].Full? ensures Plus(t.startWin, i) == (t.startWin + i) % MAX_TID_VALUE {
      hide *;
      PlusIsModular(t.startWin, i);
    }
  }

  lemma SlotBits(s: seq<Slot>)
    requires |s| <= 64
    ensures forall i :: 0 <= i < 64 ==> (Bit(BitmapOf(s), i) <==> i < |s| && s[i].Full?)
    ensures BitmapOf(s) < Pow2(64)
  {
    hide *;
    forall i: nat ensures Bit(BitmapOf(s), i) <==> i < |s| && s[i].Full? {
      BitmapBits(s, i);
    }
    BitmapBits(s, 0);
    Pow2Monotone(|s|, 64);
  }

  lemma InvMeaning(t: Table)
    requires Inv(t)
    ensures WellKept(t)
  {
    hide InPlace, BitmapOf, Bit, Pow2;
    HeldNumbers(t);
    SlotBits(t.slots);
  }

  lemma PlusIsModular(from: Position, d: nat)
    requires d < MAX_TID_VALUE
    ensures Plus(from, d) == (from + d) % MAX_TID_VALUE
    ensures from == MAX_TID_VALUE ==> Plus(from, d) == Plus(0, d)
  {
  }

  /** Over every run from a fresh agreement: start-up, BARs, timer firings, repeated ADDBAs, host sleep. */
  lemma ReachableWellKept(winSize: nat, ssn: SeqNum, lastSeq: nat, amsdu: bool, es: seq<Event>)
    requires 2 <= winSize <= 64 && (lastSeq < MAX_TID_VALUE || lastSeq == DEFAULT_SEQ_NUM)
    ensures Inv(Fresh(winSize, ssn, lastSeq, amsdu))
    ensures WellKept(Run(Fresh(winSize, ssn, lastSeq, amsdu), es).table)
  {
    hide Inv, WellKept;
    FreshInv(winSize, ssn, lastSeq, amsdu);
    InvMeaning(Run(Fresh(winSize, ssn, lastSeq, amsdu), es).table);
  }

  // ---------- Conservation ----------

  function Delivered(out: seq<Delivery>): seq<Packet> {
    if out == [] then [] else [out[0].pkt] + Delivered(out[1..])
  }

  function HandedIn(e: Event): seq<Packet> {
    if e.Arrive? then Packets(e.arrival) else []
  }

  function AllHandedIn(es: seq<Event>): seq<Packet> {
    if es == [] then [] else HandedIn(es[0]) + AllHandedIn(es[1..])
  }

  lemma DeliveredHead(out: seq<Delivery>)
    ensures Delivered([]) == []
    ensures out != [] ==> Delivered(out) == [out[0].pkt] + Delivered(out[1..])
  {
  }

  lemma {:induction false} DeliveredConcat(a: seq<Delivery>, b: seq<Delivery>)
    ensures Delivered(a + b) == Delivered(a) + Delivered(b)
  {
    hide Delivered;
    DeliveredHead(a);
    if a == [] {
      assert a + b == b;
    } else {
      DeliveredHead(a + b);
      TailOfConcat(a, b);
      DeliveredConcat(a[1..], b);
      ConcatAssociates([a[0].pkt], Delivered(a[1..]), Delivered(b));
    }
  }

  lemma {:induction false} DeliveredHeld(s: seq<Slot>, base: nat)
    ensures Delivered(Deliveries(s, base)) == HeldPackets(s)
  {
    if s != [] {
      DeliveredHeld(s[1..], base + 1);
      var first := if s[0].Full? then [InWindow(base, s[0].pkt)] else [];
      DeliveredConcat(first, Deliveries(s[1..], base + 1));
    }
  }

  lemma {:induction false} HeldEmpty(s: seq<Slot>)
    requires AllEmpty(s)
    ensures HeldPackets(s) == []
  {
    if s != [] {
      HeldEmpty(s[1..]);
    }
  }

  lemma StoreHolds(s: seq<Slot>, i: nat, p: Packet)
    requires i < |s| && s[i] == Empty
    ensures multiset(HeldPackets(s[i := Full(p)])) == multiset(HeldPackets(s)) + multiset{p}
  {
    assert HeldPackets([Full(p)]) == [p] && HeldPackets([Empty]) == [];
    hide HeldPackets;
    var l, r := s[..i], s[i + 1..];
    HeldConcat(l, [Empty] + r);
    HeldConcat([Empty], r);
    HeldConcat(l, [Full(p)] + r);
    HeldConcat([Full(p)], r);
    assert s == l + ([Empty] + r);
    assert s[i := Full(p)] == l + ([Full(p)] + r);
    assert [] + HeldPackets(r) == HeldPackets(r);
  }

  /** What is held before plus what is handed in is what is dispatched, refused, and held after. */
  ghost predicate Conserves(t: Table, handedIn: seq<Packet>, s: Step) {
    multiset(HeldPackets(t.slots)) + multiset(handedIn)
    == multiset(Delivered(s.out)) + multiset(s.refused) + multiset(HeldPackets(s.table.slots))
  }

  /** A window move splits what was held, in order, into what is dispatched and what stays. */
  lemma AdvanceSplits(t: Table, n: nat, newStart: Position)
    requires n <= |t.slots|
    ensures HeldPackets(t.slots)
         == Delivered(Deliveries(t.slots[..n], t.Base())) + HeldPackets(Advance(t, n, newStart).slots)
  {
    hide HeldPackets, Deliveries, Delivered;
    DeliveredHeld(t.slots[..n], t.Base());
    HeldConcat(t.slots[..n], t.slots[n..]);
    HeldConcat(t.slots[n..], Empties(n));
    HeldEmpty(Empties(n));
    assert t.slots[..n] + t.slots[n..] == t.slots;
  }

  lemma AdvanceConserves(t: Table, n: nat, newStart: Position)
    requires n <= |t.slots|
    ensures Conserves(t, [], Step(Advance(t, n, newStart), Deliveries(t.slots[..n], t.Base()), [], true))
  {
    hide HeldPackets, Deliveries, Delivered, Advance;
    AdvanceSplits(t, n, newStart);
  }

  lemma Chain<X(!new)>(held: multiset<X>, inA: multiset<X>, outA: multiset<X>, refA: multiset<X>, mid: multiset<X>,
                 inB: multiset<X>, outB: multiset<X>, refB: multiset<X>, end: multiset<X>)
    requires held + inA == outA + refA + mid && mid + inB == outB + refB + end
    ensures held + (inA + inB) == (outA + outB) + (refA + refB) + end
  {
    forall x: X
      ensures (held + (inA + inB))[x] == ((outA + outB) + (refA + refB) + end)[x]
    {
      assert (held + inA)[x] == (outA + refA + mid)[x] && (mid + inB)[x] == (outB + refB + end)[x];
    }
  }

  /** One step after another conserves. */
  lemma ConservesThen(t: Table, inA: seq<Packet>, a: Step, inB: seq<Packet>, b: Step)
    requires Conserves(t, inA, a) && Conserves(a.table, inB, b)
    ensures Conserves(t, inA + inB, Step(b.table, a.out + b.out, a.refused + b.refused, b.accepted))
  {
    hide HeldPackets, Delivered;
    DeliveredConcat(a.out, b.out);
    Chain(multiset(HeldPackets(t.slots)), multiset(inA), multiset(Delivered(a.out)), multiset(a.refused),
          multiset(HeldPackets(a.table.slots)), multiset(inB), multiset(Delivered(b.out)), multiset(b.refused),
          multiset(HeldPackets(b.table.slots)));
  }

  lemma ScanConserves(t: Table)
    requires |t.slots| <= 64
    ensures Conserves(t, [], Step(SettleTimer(Scan(t).0), Scan(t).1, [], true))
  {
    hide HeldPackets, Delivered, Deliveries, Advance;
    AdvanceConserves(t, RunLength(t.slots), Plus(t.startWin, RunLength(t.slots)));
  }

  lemma StoreThenConserves(t: Table, i: nat, p: Packet, s: Step)
    requires i < |t.slots| && t.slots[i] == Empty && Conserves(Store(t, i, p), [], s)
    ensures Conserves(t, [p], s)
  {
    hide HeldPackets, Delivered;
    StoreHolds(t.slots, i, p);
  }

  lemma PlaceConserves(t: Table, i: nat, a: Arrival)
    requires i < |t.slots| <= 64
    ensures Conserves(t, Packets(a), Place(t, i, a))
  {
    hide HeldPackets, Delivered, Scan;
    if a.Bar? {
      ScanConserves(t);
    } else if t.slots[i].Full? {
      DeliveredHead([]);
    } else {
      ScanConserves(Store(t, i, a.pkt));
      StoreThenConserves(t, i, a.pkt, Place(t, i, a));
    }
  }

  lemma FlushToConserves(t: Table, newStart: SeqNum)
    requires |t.slots| == t.winSize
    ensures var (t', out) := FlushTo(t, newStart); Conserves(t, [], Step(t', out, [], true))
  {
    AdvanceConserves(t, FlushCount(t, newStart), newStart);
  }

  lemma AdmitConserves(t: Table, a: Arrival)
    requires |t.slots| == t.winSize && 1 <= t.winSize <= 64
    ensures Conserves(t, Packets(a), Admit(t, a))
  {
    hide Place, HeldPackets, FlushTo;
    var (t', flushed) := MakeRoom(t, a);
    if Moves(t, a) {
      FlushToConserves(t, Target(t, a));
    }
    var s := Place(t', SlotIndex(t, a), a);
    PlaceConserves(t', SlotIndex(t, a), a);
    ConservesThen(t, [], Step(t', flushed, [], true), Packets(a), s);
    assert [] + Packets(a) == Packets(a) && [] + s.refused == s.refused;
  }

  lemma ReorderConserves(t: Table, a: Arrival)
    requires |t.slots| == t.winSize && 1 <= t.winSize <= 64
    ensures Conserves(t, Packets(a), Reorder(t, a))
  {
    hide Admit, HeldPackets;
    AdmitConserves(t.(forceNoDrop := false), a);
  }

  /** A frame is forwarded, or refused, and the slots stay as they are. */
  lemma SlotsKept(t: Table, t': Table, ps: seq<Packet>, p: Packet, accepted: bool)
    requires t'.slots == t.slots
    ensures Conserves(t, ps, Step(t', [], ps, accepted))
    ensures Conserves(t, [p], Step(t', [Direct(p)], [], accepted))
  {
    hide HeldPackets;
    assert Delivered([Direct(p)]) == [p];
  }

  lemma ReceiveConserves(t: Table, a: Arrival)
    requires |t.slots| == t.winSize && 1 <= t.winSize <= 64
    ensures Conserves(t, Packets(a), Receive(t, a))
  {
    hide Reorder, HeldPackets, Delivered, Conserves, StillStarting, EndStartUp;
    var s, p := Receive(t, a), if a.Bar? then Packet(0, 0) else a.pkt;
    if (a.Amsdu? && !t.amsdu) || StillStarting(t, a) {
      SlotsKept(t, s.table, Packets(a), p, s.accepted);
    } else {
      var t1 := if t.checkStartWin then EndStartUp(t, a) else t;
      ReorderConserves(t1, a);
      ConservesAs(t, t1, Packets(a), s);
    }
  }

  lemma ConservesAs(t: Table, t1: Table, ps: seq<Packet>, s: Step)
    requires t1.slots == t.slots && Conserves(t1, ps, s)
    ensures Conserves(t, ps, s)
  {
    hide HeldPackets, Delivered;
  }

  lemma FlushConserves(t: Table)
    requires |t.slots| == t.winSize && 1 <= t.winSize <= 64
    ensures Conserves(t, [], Step(Flush(t).0, Flush(t).1, [], true))
  {
    hide HeldPackets, FlushTo;
    if LastFull(t.slots) >= 0 {
      FlushToConserves(t.(timerIsSet := false), Plus(t.startWin, LastFull(t.slots) + 1));
    }
  }

  lemma ApplyConserves(t: Table, e: Event)
    requires |t.slots| == t.winSize && 1 <= t.winSize <= 64
    ensures Conserves(t, HandedIn(e), Apply(t, e))
  {
    hide Receive, HeldPackets, FlushTo, Flush;
    match e
    case Arrive(a) => ReceiveConserves(t, a);
    case TimerFires => FlushConserves(t);
    case ReAddba(ssn) => FlushToConserves(t, ssn);
    case HostSleepActivated =>
    case AddbaCompleted(_) =>
  }

  /** Over every run no frame is lost, duplicated or made up. */
  lemma {:induction false} Conservation(t: Table, es: seq<Event>)
    requires Inv(t)
    ensures Conserves(t, AllHandedIn(es), Run(t, es))
    decreases |es|
  {
    hide HeldPackets;
    if es != [] {
      InvShape(t);
      ApplyInv(t, es[0]);
      ApplyConserves(t, es[0]);
      hide Apply, Inv, Conserves;
      var s := Apply(t, es[0]);
      Conservation(s.table, es[1..]);
      ConservesThen(t, HandedIn(es[0]), s, AllHandedIn(es[1..]), Run(s.table, es[1..]));
    }
  }

  lemma DrainEmptied(t: Table)
    requires Inv(t)
    ensures HeldPackets(Drain(t).0.slots) == []
  {
    DrainEmpties(t);
    HeldEmpty(Drain(t).0.slots);
  }

  lemma LastLink<X(!new)>(handedIn: multiset<X>, out: multiset<X>, refused: multiset<X>, held: multiset<X>,
                          drained: multiset<X>, freed: multiset<X>)
    requires multiset{} + handedIn == out + refused + held && held == drained + freed
    ensures handedIn == out + refused + drained + freed
  {
    forall x: X ensures handedIn[x] == (out + refused + drained + freed)[x] {
      assert (multiset{} + handedIn)[x] == (out + refused + held)[x];
    }
  }

  /** What the end of the agreement does with the held frames: dispatched, or freed in a reset. */
  function Closing(t: Table, inReset: bool): (r: (seq<Packet>, seq<Packet>))
    requires |t.slots| == t.winSize <= 64
  {
    if inReset then ([], HeldPackets(t.slots)) else (Delivered(Drain(t).1), [])
  }

  lemma ClosingConserves(t: Table, inReset: bool)
    requires Inv(t)
    ensures var (drained, freed) := Closing(t, inReset);
            multiset(HeldPackets(t.slots)) == multiset(drained) + multiset(freed)
  {
    var end := Plus(t.startWin, t.winSize);
    AdvanceSplits(t, FlushCount(t, end), end);
    DrainEmptied(t);
  }

  /** From an empty buffer to the end of the agreement, every frame handed in is dispatched once, refused,
      or, when the entry goes in a reset, freed. */
  lemma ConservationToTheEnd(t: Table, es: seq<Event>, inReset: bool)
    requires Inv(t) && AllEmpty(t.slots)
    ensures var r := Run(t, es);
            var (drained, freed) := Closing(r.table, inReset);
            multiset(AllHandedIn(es))
            == multiset(Delivered(r.out)) + multiset(r.refused) + multiset(drained) + multiset(freed)
  {
    HeldEmpty(t.slots);
    Conservation(t, es);
    hide Inv, Run, HeldPackets, Closing, Delivered, AllEmpty, AllHandedIn;
    var r := Run(t, es);
    ClosingConserves(r.table, inReset);
    var (drained, freed) := Closing(r.table, inReset);
    LastLink(multiset(AllHandedIn(es)), multiset(Delivered(r.out)), multiset(r.refused),
             multiset(HeldPackets(r.table.slots)), multiset(drained), multiset(freed));
  }

  // ---------- No stranded frame ----------

  lemma PlaceFront(t: Table, i: nat, a: Arrival)
    requires 1 <= |t.slots| <= 64 && i < |t.slots|
    ensures Place(t, i, a).accepted ==> Place(t, i, a).table.slots[0] == Empty
    ensures Place(t, i, a).table.timerIsSet <==> Place(t, i, a).table.bitmap != 0
  {
    hide Deliveries, ShiftRight, SetBit;
  }

  /** After an arrival that goes through the window the timer is armed exactly when something is held, and
      nothing deliverable is withheld; a firing timer empties the buffer, wrapped or not. */
  lemma NothingStranded(t: Table, a: Arrival)
    requires Inv(t) && (a.Amsdu? ==> t.amsdu) && !StillStarting(t, a)
    ensures var s := Receive(t, a);
            && (s.table.timerIsSet <==> s.table.bitmap != 0)
            && (s.table.timerIsSet <==> !AllEmpty(s.table.slots))
            && (s.accepted ==> s.table.slots[0] == Empty)
    ensures var t' := Flush(t).0; AllEmpty(t'.slots) && t'.bitmap == 0 && !t'.timerIsSet
  {
    ReceiveInv(t, a);
    InvMeaning(t);
    var s := Receive(t, a);
    BitmapZero(s.table.slots);
    assert s.table.bitmap == BitmapOf(s.table.slots);
    FlushEmpties(t);
    hide Inv, WellKept, Flush, BitmapOf, Place, MakeRoom, AllEmpty;
    var t1 := if t.checkStartWin then EndStartUp(t, a) else t;
    if !Refuses(t1, a) {
      var t2 := t1.(forceNoDrop := false);
      PlaceFront(MakeRoom(t2, a).0, SlotIndex(t2, a), a);
    }
  }

  /** A data frame that moves the window is never refused as a duplicate. */
  lemma MoverAccepted(t: Table, a: Arrival)
    requires Inv(t) && !t.checkStartWin && !Refuses(t, a) && Moves(t, a)
    ensures Reorder(t, a).accepted
  {
    hide Scan;
    MovedSlotIsFree(t.(forceNoDrop := false), a);
  }

  // ---------- BAR ----------

  lemma {:induction false} RunLengthPad(s: seq<Slot>, e: seq<Slot>)
    requires AllEmpty(e)
    ensures RunLength(s + e) == RunLength(s)
  {
    if s == [] {
      assert s + e == e;
    } else {
      RunLengthPad(s[1..], e);
      assert (s + e)[1..] == s[1..] + e;
    }
  }

  /** Length of the run of held frames from number `s` on. It is lost when `s` lies past 4095 from the
      window start: a wrapping move flushes the whole window. */
  function HeldRun(t: Table, s: SeqNum): (n: nat)
    ensures n <= |t.slots|
  {
    var d := Distance(t.startWin, s);
    if s >= t.startWin && d < |t.slots| then RunLength(t.slots[d..]) else 0
  }

  lemma BarRoom(t: Table, s: SeqNum)
    requires Inv(t) && Distance(t.startWin, s) <= MAX_TID_VALUE - t.winSize
    ensures var t' := MakeRoom(t, Bar(s)).0;
            && t'.Base() == t.Base() + Distance(t.startWin, s)
            && (t'.startWin == s || (s == 0 && t'.startWin == MAX_TID_VALUE))
            && RunLength(t'.slots) == HeldRun(t, s)
            && |t'.slots| == t.winSize
  {
    hide Deliveries, ShiftRight, BitmapOf, InPlace;
    var d := Distance(t.startWin, s);
    if Moves(t, Bar(s)) {
      var n := FlushCount(t, s);
      assert Target(t, Bar(s)) == s;
      RunLengthPad(t.slots[n..], Empties(n));
      if HeldRun(t, s) > 0 {
        assert n == d;
      }
    } else {
      assert d == 0 && t.slots[0..] == t.slots;
    }
  }

  lemma ScanStart(t: Table)
    requires |t.slots| <= 64
    ensures Scan(t).0.startWin == Plus(t.startWin, RunLength(t.slots))
    ensures Scan(t).0.Base() == t.Base() + RunLength(t.slots)
  {
    hide Deliveries, ShiftRight;
  }

  /** A BAR for a number less than a window behind the start moves nothing. */
  lemma BarBehind(t: Table, s: SeqNum)
    requires 2 <= t.winSize <= 64 && |t.slots| == t.winSize && Distance(t.startWin, s) > MAX_TID_VALUE - t.winSize
    ensures MakeRoom(t, Bar(s)) == (t, [])
  {
    hide FlushTo;
  }

  /** An accepted BAR with number s leaves the window start past the run of frames held from s on. Only when the
      staleness test has been switched off can s lie less than a window behind the start; the start then moves
      past the run of frames held at the front. */
  lemma BarMovesStart(t: Table, s: SeqNum)
    requires Inv(t) && !t.checkStartWin && !Refuses(t, Bar(s))
    ensures var t' := Reorder(t, Bar(s)).table;
            var behind := Distance(t.startWin, s) > MAX_TID_VALUE - t.winSize;
            && (behind ==> t.forceNoDrop)
            && t'.startWin == (if behind then Plus(t.startWin, RunLength(t.slots)) else Plus(s, HeldRun(t, s)))
            && t'.Base() == t.Base() + if behind then RunLength(t.slots)
                                       else Distance(t.startWin, s) + HeldRun(t, s)
  {
    hide MakeRoom, Scan, Inv, HeldRun, Reorder, RunLength, Distance;
    InvShape(t);
    var t0 := t.(forceNoDrop := false);
    SameButFlag(t, s);
    BarScan(t, s);
    if Distance(t.startWin, s) > MAX_TID_VALUE - t.winSize {
      BarBehind(t0, s);
    } else {
      BarRoom(t0, s);
    }
    ScanStart(MakeRoom(t0, Bar(s)).0);
  }

  lemma SameButFlag(t: Table, s: SeqNum)
    requires Inv(t)
    ensures Inv(t.(forceNoDrop := false)) && HeldRun(t.(forceNoDrop := false), s) == HeldRun(t, s)
  {
  }

  lemma BarScan(t: Table, s: SeqNum)
    requires |t.slots| == t.winSize && 1 <= t.winSize <= 64 && !Refuses(t, Bar(s))
    ensures Reorder(t, Bar(s)).table == SettleTimer(Scan(MakeRoom(t.(forceNoDrop := false), Bar(s)).0).0)
  {
    hide Scan, MakeRoom, SlotIndex, Stale, Distance;
  }
}
