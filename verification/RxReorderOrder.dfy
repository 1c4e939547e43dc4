/** In-order, duplicate-free delivery, and exactly when the driver provides it. */
module RxReorderOrder {
  import opened Bits
  import opened RxReorderModel
  import opened RxReorderLemmas
  import opened RxReorderRuns
  import opened Seqs

  /** Deliveries out of the window at strictly increasing positions in [lo, hi), each position being the
      frame's sequence number modulo 4096. */
  ghost predicate InOrder(out: seq<Delivery>, lo: int, hi: int) {
    && (forall i :: 0 <= i < |out| ==> Numbered(out[i]) && lo <= out[i].pos < hi)
    && Increasing(out)
  }

  ghost predicate Increasing(out: seq<Delivery>) {
    forall i, j :: 0 <= i < j < |out| ==> out[i].InWindow? && out[j].InWindow? && out[i].pos < out[j].pos
  }

  predicate Numbered(d: Delivery) {
    d.InWindow? && d.pos % MAX_TID_VALUE == d.pkt.seqNum
  }

  lemma InOrderIncreases(r: Step)
    requires exists lo, hi :: InOrder(r.out, lo, hi)
    ensures Increasing(r.out)
  {
  }

  lemma InOrderConcat(a: seq<Delivery>, b: seq<Delivery>, lo: int, mid: int, hi: int)
    requires InOrder(a, lo, mid) && InOrder(b, mid, hi) && lo <= mid <= hi
    ensures InOrder(a + b, lo, hi)
  {
  }

  /** Slot i holds number base + i. */
  ghost predicate SlotsNumbered(s: seq<Slot>, base: nat) {
    forall i :: 0 <= i < |s| && s[i].Full? ==> s[i].pkt.seqNum == (base + i) % MAX_TID_VALUE
  }

  lemma PrefixNumbered(s: seq<Slot>, base: nat, n: nat)
    requires n <= |s| && SlotsNumbered(s, base)
    ensures SlotsNumbered(s[..n], base)
  {
  }

  lemma {:induction false} DeliveriesInOrder(s: seq<Slot>, base: nat)
    requires SlotsNumbered(s, base)
    ensures InOrder(Deliveries(s, base), base, base + |s|)
  {
    if s != [] {
      forall i | 0 <= i < |s[1..]| && s[1..][i].Full?
        ensures s[1..][i].pkt.seqNum == (base + 1 + i) % MAX_TID_VALUE
      {
        assert s[1..][i] == s[i + 1];
      }
      DeliveriesInOrder(s[1..], base + 1);
      var first := if s[0].Full? then [InWindow(base, s[0].pkt)] else [];
      InOrderConcat(first, Deliveries(s[1..], base + 1), base, base + 1, base + |s|);
    }
  }

  /** A held frame is delivered at the position of its slot. */
  lemma {:induction false} DeliveryOf(s: seq<Slot>, base: nat, i: nat)
    requires i < |s| && s[i].Full?
    ensures InWindow(base + i, s[i].pkt) in Deliveries(s, base)
  {
    if i > 0 {
      DeliveryOf(s[1..], base + 1, i - 1);
    }
  }

  lemma SlotNumbers(t: Table)
    requires InPlace(t) && |t.slots| <= 64
    ensures SlotsNumbered(t.slots, t.Base())
  {
    forall i | 0 <= i < |t.slots| && t.slots[i].Full?
      ensures t.slots[i].pkt.seqNum == (t.Base() + i) % MAX_TID_VALUE
    {
      var p := Plus(t.startWin, i);
      assert t.Base() + i == MAX_TID_VALUE * (t.laps + (t.startWin + i - p) / MAX_TID_VALUE) + p;
    }
  }

  // ---------- Safe moves ----------

  /** A move to `newStart` passes 4095 while a frame is held at or beyond the new start. */
  ghost predicate FlushesAhead(t: Table, newStart: SeqNum) {
    && newStart <= t.startWin
    && exists i :: Distance(t.startWin, newStart) <= i < |t.slots| && t.slots[i].Full?
  }

  /** The events the ordering is about: frames and BARs that go through the window, and the timer. */
  predicate Ordinary(t: Table, e: Event) {
    e.TimerFires? || (e.Arrive? && (e.arrival.Amsdu? ==> t.amsdu))
  }

  /** The event does not make the driver flush ahead of the window. */
  ghost predicate Safe(t: Table, e: Event)
    requires Inv(t)
  {
    e.Arrive? && !Refuses(t, e.arrival) && Moves(t, e.arrival) ==> !FlushesAhead(t, Target(t, e.arrival))
  }

  ghost predicate AllOrdinary(t: Table, es: seq<Event>) {
    forall i :: 0 <= i < |es| ==> Ordinary(t, es[i])
  }

  ghost predicate SafeRun(t: Table, es: seq<Event>)
    requires Inv(t)
    decreases |es|
  {
    es == [] || (ApplyInv(t, es[0]); Safe(t, es[0]) && SafeRun(Apply(t, es[0]).table, es[1..]))
  }

  /** Of `n` slots that are empty from `d` on, the deliveries stay below base + d. */
  lemma PrefixInOrder(s: seq<Slot>, base: nat, n: nat, d: nat)
    requires n <= |s| && SlotsNumbered(s, base) && (forall i :: d <= i < n ==> s[i] == Empty)
    ensures InOrder(Deliveries(s[..n], base), base, base + d)
  {
    if n <= d {
      DeliveriesInOrder(s[..n], base);
    } else {
      assert s[..n] == s[..d] + s[d..n];
      DeliveriesConcat(s[..d], s[d..n], base);
      DeliveriesOfEmpty(s[d..n], base + d);
      DeliveriesInOrder(s[..d], base);
    }
  }

  lemma FlushToInOrder(t: Table, newStart: SeqNum)
    requires Inv(t) && !FlushesAhead(t, newStart)
    ensures var (t', out) := FlushTo(t, newStart);
            InOrder(out, t.Base(), t'.Base()) && t.Base() <= t'.Base() == t.Base() + Distance(t.startWin, newStart)
  {
    SlotNumbers(t);
    hide Inv, InPlace, Deliveries, ShiftRight, SlotsNumbered, InOrder;
    PrefixInOrder(t.slots, t.Base(), FlushCount(t, newStart), Distance(t.startWin, newStart));
  }

  lemma ScanInOrder(t: Table)
    requires InPlace(t) && |t.slots| <= 64
    ensures var (t', out) := Scan(t); InOrder(out, t.Base(), t'.Base()) && t.Base() <= t'.Base()
  {
    ScanStart(t);
    SlotNumbers(t);
    hide InPlace, Deliveries, SlotsNumbered;
    PrefixNumbered(t.slots, t.Base(), RunLength(t.slots));
    DeliveriesInOrder(t.slots[..RunLength(t.slots)], t.Base());
  }

  lemma PlaceInOrder(t: Table, i: nat, a: Arrival)
    requires InPlace(t) && i < |t.slots| <= 64 && (!a.Bar? ==> Plus(t.startWin, i) == a.Seq())
    ensures var s := Place(t, i, a); InOrder(s.out, t.Base(), s.table.Base()) && t.Base() <= s.table.Base()
  {
    if a.Bar? {
      ScanInOrder(t);
    } else if t.slots[i] == Empty {
      ScanInOrder(Store(t, i, a.pkt));
    }
  }

  lemma AdmitInOrder(t: Table, a: Arrival)
    requires Inv(t) && !t.checkStartWin && (Moves(t, a) ==> !FlushesAhead(t, Target(t, a)))
    ensures var s := Admit(t, a); InOrder(s.out, t.Base(), s.table.Base()) && t.Base() <= s.table.Base()
  {
    MakeRoomInv(t, a);
    var (t', flushed) := MakeRoom(t, a);
    if Moves(t, a) {
      FlushToInOrder(t, Target(t, a));
    }
    assert InPlace(t');
    PlaceInOrder(t', SlotIndex(t, a), a);
    hide Inv, InPlace, Place, MakeRoom, FlushTo;
    var s := Place(t', SlotIndex(t, a), a);
    InOrderConcat(flushed, s.out, t.Base(), t'.Base(), s.table.Base());
  }

  lemma FlushInOrder(t: Table)
    requires Inv(t)
    ensures var (t', out) := Flush(t); InOrder(out, t.Base(), t'.Base()) && t.Base() <= t'.Base()
  {
    hide Inv, Flush, FlushTo, Plus, Distance, LastFull;
    FlushIsMove(t);
    var last := LastFull(t.slots);
    if last >= 0 {
      FlushToInOrder(t.(timerIsSet := true), Plus(t.startWin, last + 1));
    }
  }

  lemma ReorderInOrder(t: Table, a: Arrival)
    requires Inv(t) && !t.checkStartWin && (!Refuses(t, a) && Moves(t, a) ==> !FlushesAhead(t, Target(t, a)))
    ensures var s := Reorder(t, a); InOrder(s.out, t.Base(), s.table.Base()) && t.Base() <= s.table.Base()
  {
    hide Admit;
    if !Refuses(t, a) {
      AdmitInOrder(t.(forceNoDrop := false), a);
    }
  }

  /** One safe event: what it delivers lies between the window start before and the window start after. */
  lemma StepInOrder(t: Table, e: Event)
    requires Inv(t) && !t.checkStartWin && Ordinary(t, e) && Safe(t, e)
    ensures var s := Apply(t, e);
            && InOrder(s.out, t.Base(), s.table.Base()) && t.Base() <= s.table.Base()
            && !s.table.checkStartWin && s.table.amsdu == t.amsdu
  {
    hide Inv, InOrder, Flush, Reorder, Moves, Target, FlushesAhead, Refuses;
    InvShape(t);
    if e.TimerFires? {
      FlushInOrder(t);
      FlushKeeps(t);
    } else {
      ReorderInOrder(t, e.arrival);
      ReorderKeeps(t, e.arrival);
    }
  }

  lemma FlushKeeps(t: Table)
    requires |t.slots| == t.winSize <= 64
    ensures var t' := Flush(t).0; t'.checkStartWin == t.checkStartWin && t'.amsdu == t.amsdu
  {
    hide Deliveries, ShiftRight, LastFull, FlushCount, Plus;
  }

  /** Over every safe run of ordinary events, frames come out at strictly increasing unwrapped sequence
      numbers: in order and without duplicates. */
  lemma {:induction false} OrderedDelivery(t: Table, es: seq<Event>)
    requires Inv(t) && !t.checkStartWin && AllOrdinary(t, es) && SafeRun(t, es)
    ensures var r := Run(t, es); InOrder(r.out, t.Base(), r.table.Base()) && t.Base() <= r.table.Base()
    decreases |es|
  {
    if es != [] {
      ApplyInv(t, es[0]);
      StepInOrder(t, es[0]);
      var s := Apply(t, es[0]);
      hide Apply, Inv;
      OrderedDelivery(s.table, es[1..]);
      var r := Run(s.table, es[1..]);
      InOrderConcat(s.out, r.out, t.Base(), s.table.Base(), r.table.Base());
    }
  }

  // ---------- Every accepted frame is delivered, and where ----------

  lemma FlushDelivers(t: Table, i: nat)
    requires |t.slots| == t.winSize <= 64 && i < t.winSize && t.slots[i].Full?
    ensures InWindow(t.Base() + i, t.slots[i].pkt) in Flush(t).1
  {
    var last := LastFull(t.slots);
    var n := FlushCount(t, Plus(t.startWin, last + 1));
    assert i <= last < n;
    DeliveryOf(t.slots[..n], t.Base(), i);
  }

  /** A scan dispatches a held frame or keeps it, at the same position. */
  lemma ScanKeeps(t: Table, i: nat)
    requires i < |t.slots| <= 64 && t.slots[i].Full?
    ensures var (t', out) := Scan(t);
            var n := RunLength(t.slots);
            if i < n then InWindow(t.Base() + i, t.slots[i].pkt) in out
            else t'.slots[i - n] == t.slots[i] && t'.Base() + (i - n) == t.Base() + i
  {
    ScanStart(t);
    hide Deliveries;
    var n := RunLength(t.slots);
    if i < n {
      DeliveryOf(t.slots[..n], t.Base(), i);
    }
  }

  lemma RoomPosition(t: Table, a: Arrival)
    requires Inv(t) && !a.Bar?
    ensures MakeRoom(t, a).0.Base() + SlotIndex(t, a) == t.Base() + Distance(t.startWin, a.Seq())
    ensures MakeRoom(t, a).0.winSize == t.winSize
  {
    hide Deliveries, ShiftRight, InPlace;
  }

  lemma ReorderCases(t: Table, a: Arrival)
    requires |t.slots| == t.winSize && 1 <= t.winSize <= 64
    ensures if Refuses(t, a) then !Reorder(t, a).accepted else Reorder(t, a) == Admit(t.(forceNoDrop := false), a)
  {
    hide Admit, Stale;
  }

  // ---------- Whatever comes before the timer ----------

  /** The frame is held, at the slot of its position. */
  ghost predicate Held(t: Table, pos: nat, p: Packet) {
    exists i :: 0 <= i < |t.slots| && t.slots[i] == Full(p) && t.Base() + i == pos
  }

  /** The frame comes out at its position, or is held at its position afterwards. */
  ghost predicate OutOrHeld(out: seq<Delivery>, t: Table, pos: nat, p: Packet) {
    InWindow(pos, p) in out || Held(t, pos, p)
  }

  lemma HeldShape(t: Table, pos: nat, p: Packet)
    requires Inv(t) && Held(t, pos, p)
    ensures !t.checkStartWin && |t.slots| == t.winSize && 2 <= t.winSize <= 64
  {
  }

  lemma HeldAlike(t: Table, t': Table, pos: nat, p: Packet)
    requires Held(t, pos, p) && t'.slots == t.slots && t'.Base() == t.Base()
    ensures Held(t', pos, p)
  {
  }

  lemma MoveHeld(t: Table, newStart: SeqNum, pos: nat, p: Packet)
    requires |t.slots| == t.winSize <= 64 && Held(t, pos, p)
    ensures OutOrHeld(FlushTo(t, newStart).1, FlushTo(t, newStart).0, pos, p)
  {
    hide Deliveries, ShiftRight;
    var i :| 0 <= i < |t.slots| && t.slots[i] == Full(p) && t.Base() + i == pos;
    var n := FlushCount(t, newStart);
    if i < n {
      DeliveryOf(t.slots[..n], t.Base(), i);
    } else {
      var t' := FlushTo(t, newStart).0;
      assert t'.slots[i - n] == t.slots[i] && t'.Base() + (i - n) == pos;
    }
  }

  lemma ScanHeld(t: Table, pos: nat, p: Packet)
    requires |t.slots| <= 64 && Held(t, pos, p)
    ensures OutOrHeld(Scan(t).1, Scan(t).0, pos, p)
  {
    hide Scan, RunLength;
    var i :| 0 <= i < |t.slots| && t.slots[i] == Full(p) && t.Base() + i == pos;
    ScanKeeps(t, i);
  }

  lemma StoreHeld(t: Table, i: nat, q: Packet, pos: nat, p: Packet)
    requires i < |t.slots| && t.slots[i] == Empty && Held(t, pos, p)
    ensures Held(Store(t, i, q), pos, p)
  {
    hide SetBit;
    var k :| 0 <= k < |t.slots| && t.slots[k] == Full(p) && t.Base() + k == pos;
    assert Store(t, i, q).slots[k] == t.slots[k];
  }

  lemma PlaceHeld(t: Table, i: nat, a: Arrival, pos: nat, p: Packet)
    requires i < |t.slots| <= 64 && Held(t, pos, p)
    ensures OutOrHeld(Place(t, i, a).out, Place(t, i, a).table, pos, p)
  {
    hide Scan, SetBit, Held;
    if a.Bar? {
      ScanHeld(t, pos, p);
      Settled(Scan(t).0, pos, p);
    } else if t.slots[i].Full? {
      Settled(t, pos, p);
    } else {
      var t1 := Store(t, i, a.pkt);
      StoreHeld(t, i, a.pkt, pos, p);
      ScanHeld(t1, pos, p);
      Settled(Scan(t1).0, pos, p);
    }
  }

  lemma Settled(t: Table, pos: nat, p: Packet)
    ensures Held(SettleTimer(t), pos, p) <==> Held(t, pos, p)
  {
    if Held(t, pos, p) {
      HeldAlike(t, SettleTimer(t), pos, p);
    }
    if Held(SettleTimer(t), pos, p) {
      HeldAlike(SettleTimer(t), t, pos, p);
    }
  }

  lemma AdmitHeld(t: Table, a: Arrival, pos: nat, p: Packet)
    requires |t.slots| == t.winSize && 2 <= t.winSize <= 64 && Held(t, pos, p)
    ensures OutOrHeld(Admit(t, a).out, Admit(t, a).table, pos, p)
  {
    hide FlushTo, Place, Held, Moves, Target;
    if Moves(t, a) {
      MoveHeld(t, Target(t, a), pos, p);
    }
    var (t', flushed) := MakeRoom(t, a);
    if Held(t', pos, p) {
      PlaceHeld(t', SlotIndex(t, a), a, pos, p);
    }
  }

  lemma ReceiveHeld(t: Table, a: Arrival, pos: nat, p: Packet)
    requires Inv(t) && Held(t, pos, p)
    ensures OutOrHeld(Receive(t, a).out, Receive(t, a).table, pos, p)
  {
    HeldShape(t, pos, p);
    hide Inv, Admit, Refuses, StillStarting, Held;
    var t0 := t.(forceNoDrop := false);
    HeldAlike(t, t0, pos, p);
    Settled(t, pos, p);
    if !Refuses(t, a) {
      AdmitHeld(t0, a, pos, p);
    }
  }

  /** One event dispatches a held frame or keeps it, at its position. */
  lemma ApplyHeld(t: Table, e: Event, pos: nat, p: Packet)
    requires Inv(t) && Held(t, pos, p)
    ensures OutOrHeld(Apply(t, e).out, Apply(t, e).table, pos, p)
  {
    hide Inv, Receive, Flush, FlushTo, Held;
    HeldShape(t, pos, p);
    match e
    case Arrive(a) => ReceiveHeld(t, a, pos, p);
    case TimerFires => FlushHeld(t, pos, p);
    case ReAddba(ssn) => MoveHeld(t, ssn, pos, p);
    case HostSleepActivated => HeldAlike(t, t.(forceNoDrop := true), pos, p);
    case AddbaCompleted(flag) => HeldAlike(t, t.(amsdu := flag), pos, p);
  }

  lemma FlushHeld(t: Table, pos: nat, p: Packet)
    requires |t.slots| == t.winSize <= 64 && Held(t, pos, p)
    ensures InWindow(pos, p) in Flush(t).1
  {
    hide Flush;
    var i :| 0 <= i < |t.slots| && t.slots[i] == Full(p) && t.Base() + i == pos;
    FlushDelivers(t, i);
  }

  lemma {:induction false} RunHeld(t: Table, es: seq<Event>, pos: nat, p: Packet)
    requires Inv(t) && Held(t, pos, p)
    ensures OutOrHeld(Run(t, es).out, Run(t, es).table, pos, p)
    decreases |es|
  {
    hide Inv, Apply, Held, Run;
    RunEmpty(t);
    if es != [] {
      ApplyHeld(t, es[0], pos, p);
      RunCons(t, es[0], es[1..]);
      assert es == [es[0]] + es[1..];
      if Held(Apply(t, es[0]).table, pos, p) {
        RunHeld(Apply(t, es[0]).table, es[1..], pos, p);
      }
    }
  }

  lemma RunEmpty(t: Table)
    requires Inv(t)
    ensures Run(t, []) == Step(t, [], [], true)
  {
  }

  lemma {:induction false} RunConcat(t: Table, es: seq<Event>, fs: seq<Event>)
    requires Inv(t)
    ensures Run(t, es + fs).out == Run(t, es).out + Run(Run(t, es).table, fs).out
    decreases |es|
  {
    hide Inv, Apply, Run;
    RunEmpty(t);
    if es == [] {
      assert es + fs == fs && [] + Run(t, fs).out == Run(t, fs).out;
    } else {
      var t' := Apply(t, es[0]).table;
      RunCons(t, es[0], es[1..]);
      RunCons(t, es[0], es[1..] + fs);
      assert es == [es[0]] + es[1..] && es + fs == [es[0]] + (es[1..] + fs);
      RunConcat(t', es[1..], fs);
      ConcatAssociates(Apply(t, es[0]).out, Run(t', es[1..]).out, Run(Run(t', es[1..]).table, fs).out);
    }
  }

  /** A held frame is delivered at the latest by the next timer firing, whatever comes before it. */
  lemma HeldIsDelivered(t: Table, es: seq<Event>, pos: nat, p: Packet)
    requires Inv(t) && Held(t, pos, p)
    ensures InWindow(pos, p) in Run(t, es + [TimerFires]).out
  {
    hide Inv, Run, Flush, Held;
    RunHeld(t, es, pos, p);
    RunConcat(t, es, [TimerFires]);
    var u := Run(t, es).table;
    if Held(u, pos, p) {
      HeldShape(u, pos, p);
      FlushHeld(u, pos, p);
      RunCons(u, TimerFires, []);
      assert [TimerFires] == [TimerFires] + [];
    }
  }

  /** An accepted frame goes out at once, or is held. */
  lemma PlacedOutOrHeld(t: Table, i: nat, a: Arrival)
    requires i < |t.slots| <= 64 && !a.Bar? && Place(t, i, a).accepted
    ensures OutOrHeld(Place(t, i, a).out, Place(t, i, a).table, t.Base() + i, a.pkt)
  {
    hide Scan, SetBit;
    var t1 := Store(t, i, a.pkt);
    assert t1.slots[i] == Full(a.pkt) && t1.Base() + i == t.Base() + i;
    ScanHeld(t1, t.Base() + i, a.pkt);
    Settled(Scan(t1).0, t.Base() + i, a.pkt);
  }

  lemma AcceptedOutOrHeld(t: Table, a: Arrival)
    requires Inv(t) && !a.Bar? && Reorder(t, a).accepted
    ensures OutOrHeld(Reorder(t, a).out, Reorder(t, a).table, t.Base() + Distance(t.startWin, a.Seq()), a.pkt)
  {
    hide Inv, Place, MakeRoom, Distance, SlotIndex, Moves, Refuses, Reorder, Held;
    var t0 := t.(forceNoDrop := false);
    InvShape(t);
    ClearForce(t);
    ReorderCases(t, a);
    RoomPosition(t0, a);
    PlacedOutOrHeld(MakeRoom(t0, a).0, SlotIndex(t0, a), a);
  }

  /** A frame the driver accepts is delivered, at the latest by the next timer firing and whatever comes before
      it, at the position its sequence number has ahead of the window start. */
  lemma AcceptedIsDelivered(t: Table, a: Arrival, es: seq<Event>)
    requires Inv(t) && !t.checkStartWin && !a.Bar? && (a.Amsdu? ==> t.amsdu) && Reorder(t, a).accepted
    ensures InWindow(t.Base() + Distance(t.startWin, a.Seq()), a.pkt)
         in Run(t, [Arrive(a)] + (es + [TimerFires])).out
  {
    hide Inv, Run, Reorder, Distance, Held;
    InvShape(t);
    ArrivalIsReordered(t, a);
    AcceptedOutOrHeld(t, a);
    RunCons(t, Arrive(a), es + [TimerFires]);
    var pos, u := t.Base() + Distance(t.startWin, a.Seq()), Apply(t, Arrive(a)).table;
    if Held(u, pos, a.pkt) {
      HeldIsDelivered(u, es, pos, a.pkt);
    }
  }

  /** The transmitter numbers its frames without bound; `number` is that number. As long as it is less than
      half the circle away from the window start, the driver refuses exactly the frames behind the start,
      and delivers an accepted one at that very number. */
  lemma DeliveredAtTrueNumber(t: Table, a: Arrival, number: nat, es: seq<Event>)
    requires Inv(t) && !t.checkStartWin && !t.forceNoDrop && !a.Bar? && (a.Amsdu? ==> t.amsdu)
    requires number % MAX_TID_VALUE == a.Seq() && t.Base() - TWOPOW11 < number < t.Base() + TWOPOW11
    ensures Refuses(t, a) <==> number < t.Base()
    ensures Reorder(t, a).accepted ==> InWindow(number, a.pkt) in Run(t, [Arrive(a)] + (es + [TimerFires])).out
  {
    hide Inv, Reorder, Run;
    TrueDistance(t.Base(), t.startWin, t.laps, number, a.Seq());
    InvShape(t);
    if Reorder(t, a).accepted {
      ReorderCases(t, a);
      AcceptedIsDelivered(t, a, es);
    }
  }

  lemma TrueDistance(base: nat, startWin: Position, laps: nat, number: nat, seqNum: SeqNum)
    requires base == MAX_TID_VALUE * laps + startWin && number % MAX_TID_VALUE == seqNum
    requires base - TWOPOW11 < number < base + TWOPOW11
    ensures Distance(startWin, seqNum) == if number >= base then number - base else number - base + MAX_TID_VALUE
  {
  }

  // ---------- The condition is exact ----------

  lemma UnsafeRoom(t: Table, a: Arrival, k: nat)
    requires Inv(t) && Moves(t, a) && Target(t, a) <= t.startWin
    requires k < t.winSize && t.slots[k].Full?
    ensures var (t', out) := MakeRoom(t, a);
            && AllEmpty(t'.slots) && t'.startWin == Target(t, a) < MAX_TID_VALUE
            && t'.winSize == t.winSize == |t'.slots|
            && t'.Base() == t.Base() + Distance(t.startWin, Target(t, a))
            && InWindow(t.Base() + k, t.slots[k].pkt) in out
  {
    hide ShiftRight, InPlace, BitmapOf;
    DeliveryOf(t.slots[..t.winSize], t.Base(), k);
  }

  lemma PlaceOnEmpty(t: Table, a: Arrival)
    requires AllEmpty(t.slots) && 2 <= |t.slots| <= 64 && t.startWin < MAX_TID_VALUE
    ensures var s := Place(t, |t.slots| - 1, a);
            && s.table.startWin == t.startWin && s.table.Base() == t.Base() && |s.table.slots| == |t.slots|
            && (forall j :: 0 <= j < |t.slots| - 1 ==> s.table.slots[j] == Empty)
  {
    hide ShiftRight, SetBit, Deliveries;
  }

  lemma ClearForce(t: Table)
    requires Inv(t)
    ensures Inv(t.(forceNoDrop := false))
  {
  }

  /** What a flush ahead of the window leaves: at most the last slot full, and the frame in slot k gone. */
  ghost predicate FlushedAhead(t: Table, start: SeqNum, k: nat, s: Step)
    requires k < |t.slots| && t.slots[k].Full?
  {
    && s.table.startWin == start
    && s.table.Base() == t.Base() + Distance(t.startWin, start)
    && |s.table.slots| == |t.slots|
    && (forall j :: 0 <= j < |t.slots| - 1 ==> s.table.slots[j] == Empty)
    && InWindow(t.Base() + k, t.slots[k].pkt) in s.out
  }

  lemma AdmitParts(t: Table, a: Arrival)
    requires |t.slots| == t.winSize && 1 <= t.winSize <= 64 && Moves(t, a)
    ensures var (t', flushed) := MakeRoom(t, a);
            var s := Place(t', t.winSize - 1, a);
            Admit(t, a) == s.(out := flushed + s.out)
  {
    hide MakeRoom, Place;
  }

  lemma AdmitUnsafe(t: Table, a: Arrival, k: nat)
    requires Inv(t) && Moves(t, a) && Target(t, a) <= t.startWin && k < t.winSize && t.slots[k].Full?
    ensures FlushedAhead(t, Target(t, a), k, Admit(t, a))
  {
    hide Inv, MakeRoom, Place, Admit, FlushedAhead, Target, Moves, Distance;
    InvShape(t);
    UnsafeRoom(t, a, k);
    var (t', flushed) := MakeRoom(t, a);
    PlaceOnEmpty(t', a);
    AdmitParts(t, a);
    FlushedParts(t, k, t', flushed, Place(t', t.winSize - 1, a));
  }

  lemma FlushedParts(t: Table, k: nat, t': Table, flushed: seq<Delivery>, s: Step)
    requires k < |t.slots| && t.slots[k].Full? && InWindow(t.Base() + k, t.slots[k].pkt) in flushed
    requires t'.startWin < MAX_TID_VALUE && t'.Base() == t.Base() + Distance(t.startWin, t'.startWin)
    requires s.table.startWin == t'.startWin && s.table.Base() == t'.Base() && |s.table.slots| == |t.slots|
    requires forall j :: 0 <= j < |t.slots| - 1 ==> s.table.slots[j] == Empty
    ensures FlushedAhead(t, t'.startWin, k, s.(out := flushed + s.out))
  {
  }

  lemma AfterUnsafe(t: Table, a: Arrival, k: nat)
    requires Inv(t) && !Refuses(t, a) && Moves(t, a) && Target(t, a) <= t.startWin
    requires k < t.winSize && t.slots[k].Full?
    ensures FlushedAhead(t, Target(t, a), k, Reorder(t, a))
  {
    hide Inv, Admit, Reorder, Refuses, Distance, Plus, FlushedAhead, Moves, Target;
    InvShape(t);
    ClearForce(t);
    ReorderCases(t, a);
    SameMove(t, a);
    AdmitUnsafe(t.(forceNoDrop := false), a, k);
    FlagIrrelevant(t, Target(t, a), k, Reorder(t, a));
  }

  /** Where an arrival belongs does not depend on the flag that disables the staleness test. */
  lemma SameMove(t: Table, a: Arrival)
    requires 1 <= t.winSize <= 64
    ensures var t0 := t.(forceNoDrop := false);
            Moves(t0, a) == Moves(t, a) && (Moves(t, a) ==> Target(t0, a) == Target(t, a))
  {
  }

  lemma FlagIrrelevant(t: Table, start: SeqNum, k: nat, s: Step)
    requires k < |t.slots| && t.slots[k].Full? && FlushedAhead(t.(forceNoDrop := false), start, k, s)
    ensures FlushedAhead(t, start, k, s)
  {
  }

  /** The retransmission of a frame, and the timer. */
  function Again(q: Packet): seq<Event> {
    [Arrive(Data(q)), TimerFires]
  }

  lemma RepeatAccepted(u: Table, j: nat, q: Packet)
    requires Inv(u) && !u.checkStartWin && j < u.winSize - 1 && Plus(u.startWin, j) == q.seqNum
    requires u.startWin < MAX_TID_VALUE && u.slots[j] == Empty
    ensures Distance(u.startWin, q.seqNum) == j && !Moves(u, Data(q)) && Reorder(u, Data(q)).accepted
  {
    hide Scan, Inv, InPlace;
    InvShape(u);
  }

  lemma AgainIsSafe(u: Table, q: Packet)
    requires Inv(u) && !u.checkStartWin && !Moves(u, Data(q))
    ensures SafeRun(u, Again(q))
  {
    hide Inv, Apply, Moves;
    InvShape(u);
    var e := Arrive(Data(q));
    ApplyInv(u, e);
    TimerNext(Apply(u, e).table);
    assert Again(q)[1..] == [TimerFires];
  }

  lemma ArrivalIsReordered(u: Table, a: Arrival)
    requires Inv(u) && !u.checkStartWin && (a.Amsdu? ==> u.amsdu)
    ensures Apply(u, Arrive(a)) == Reorder(u, a)
  {
    hide Reorder;
  }

  lemma TimerNext(u: Table)
    requires Inv(u)
    ensures SafeRun(u, [TimerFires])
    ensures Inv(Apply(u, TimerFires).table) && Run(Apply(u, TimerFires).table, []).out == []
  {
    hide Inv, Apply;
    ApplyInv(u, TimerFires);
    assert [TimerFires][1..] == [];
  }

  lemma TwiceNotIncreasing(a: seq<Delivery>, b: seq<Delivery>, d: Delivery)
    requires d in a && d in b
    ensures !Increasing(a + b)
  {
    var i :| 0 <= i < |a| && a[i] == d;
    var j :| 0 <= j < |b| && b[j] == d;
    assert (a + b)[i] == (a + b)[|a| + j] == d;
  }

  lemma RunCons(t: Table, e: Event, rest: seq<Event>)
    requires Inv(t)
    ensures Inv(Apply(t, e).table) && Run(t, [e] + rest).out == Apply(t, e).out + Run(Apply(t, e).table, rest).out
    ensures Run(t, [e] + rest).table == Run(Apply(t, e).table, rest).table && Run(t, []).table == t
  {
    ApplyInv(t, e);
    assert ([e] + rest)[1..] == rest;
  }

  lemma RepeatDelivered(u: Table, j: nat, q: Packet)
    requires Inv(u) && !u.checkStartWin && j < u.winSize - 1 && Plus(u.startWin, j) == q.seqNum
    requires u.startWin < MAX_TID_VALUE && u.slots[j] == Empty
    ensures SafeRun(u, Again(q)) && InWindow(u.Base() + j, q) in Run(u, Again(q)).out
  {
    hide Inv, Reorder, Flush, Moves, Distance, Plus, SafeRun, Run, Apply;
    RepeatAccepted(u, j, q);
    AgainIsSafe(u, q);
    AcceptedIsDelivered(u, Data(q), []);
    assert Again(q) == [Arrive(Data(q))] + ([] + [TimerFires]);
  }

  /** A flush ahead of the window has dispatched a frame whose position is still in the new window. */
  lemma UnsafeStep(t: Table, e: Event) returns (j: nat, q: Packet)
    requires Inv(t) && !t.checkStartWin && Ordinary(t, e) && !Safe(t, e)
    ensures var s := Apply(t, e);
            && Inv(s.table) && !s.table.checkStartWin && s.table.startWin < MAX_TID_VALUE
            && j < s.table.winSize - 1 && s.table.slots[j] == Empty && Plus(s.table.startWin, j) == q.seqNum
            && InWindow(s.table.Base() + j, q) in s.out
  {
    hide Inv, Reorder, Moves, Target, Distance, Plus;
    InvShape(t);
    ApplyInv(t, e);
    var a := e.arrival;
    var d := Distance(t.startWin, Target(t, a));
    var k :| d <= k < |t.slots| && t.slots[k].Full?;
    q, j := t.slots[k].pkt, k - d;
    AfterUnsafe(t, a, k);
    UnsafeOffset(t, a, k);
    InvShape(Apply(t, e).table);
    ReorderKeeps(t, a);
  }

  lemma ReorderKeeps(t: Table, a: Arrival)
    requires |t.slots| == t.winSize && 1 <= t.winSize <= 64
    ensures var t' := Reorder(t, a).table;
            t'.winSize == t.winSize && t'.checkStartWin == t.checkStartWin && t'.amsdu == t.amsdu
  {
    hide Deliveries, ShiftRight, SetBit, RunLength, Stale, Distance, Plus, Admit;
    AdmitKeeps(t.(forceNoDrop := false), a);
  }

  lemma AdmitKeeps(t: Table, a: Arrival)
    requires |t.slots| == t.winSize && 1 <= t.winSize <= 64
    ensures var t' := Admit(t, a).table;
            t'.winSize == t.winSize && t'.checkStartWin == t.checkStartWin && t'.amsdu == t.amsdu
  {
    hide Deliveries, ShiftRight, SetBit, RunLength, Reach, Plus, FlushCount;
  }

  /** After a flush ahead of the window, one of the frames flushed, sent again, is delivered again. */
  lemma UnsafeRepeats(t: Table, e: Event) returns (rest: seq<Event>)
    requires Inv(t) && !t.checkStartWin && Ordinary(t, e) && !Safe(t, e)
    ensures Inv(Apply(t, e).table)
    ensures AllOrdinary(t, rest) && SafeRun(Apply(t, e).table, rest) && !Increasing(Run(t, [e] + rest).out)
  {
    hide Inv, Apply, Run, SafeRun, Safe, Plus, Increasing;
    InvShape(t);
    var j, q := UnsafeStep(t, e);
    rest := Again(q);
    var s := Apply(t, e);
    RepeatDelivered(s.table, j, q);
    RunCons(t, e, rest);
    TwiceNotIncreasing(s.out, Run(s.table, rest).out, InWindow(s.table.Base() + j, q));
  }

  lemma UnsafeOffset(t: Table, a: Arrival, k: nat)
    requires Inv(t) && Moves(t, a) && Target(t, a) <= t.startWin
    requires Distance(t.startWin, Target(t, a)) <= k < t.winSize && t.slots[k].Full?
    ensures var d := Distance(t.startWin, Target(t, a));
            d >= 1 && Plus(Target(t, a), k - d) == t.slots[k].pkt.seqNum
  {
    hide BitmapOf;
  }

  /** Exactly when delivery stays ordered: an ordinary event is safe if and only if every safe continuation
      delivers in strictly increasing order. The condition can be checked before the event: the window does
      not move across 4095 while a frame is held at or beyond the new start. */
  lemma OrderedExactlyWhenSafe(t: Table, e: Event)
    requires Inv(t) && !t.checkStartWin && Ordinary(t, e)
    ensures Inv(Apply(t, e).table)
    ensures Safe(t, e) <==> forall rest :: AllOrdinary(t, rest) && SafeRun(Apply(t, e).table, rest) ==>
                              Increasing(Run(t, [e] + rest).out)
  {
    ApplyInv(t, e);
    hide Inv, Apply, Safe, Run, SafeRun, InOrder;
    if Safe(t, e) {
      forall rest | AllOrdinary(t, rest) && SafeRun(Apply(t, e).table, rest)
        ensures Increasing(Run(t, [e] + rest).out)
      {
        SafeCons(t, e, rest);
        OrderedDelivery(t, [e] + rest);
        InOrderIncreases(Run(t, [e] + rest));
      }
    } else {
      var rest := UnsafeRepeats(t, e);
    }
  }

  lemma SafeCons(t: Table, e: Event, rest: seq<Event>)
    requires Inv(t) && Ordinary(t, e) && Safe(t, e) && AllOrdinary(t, rest)
    requires Inv(Apply(t, e).table) && SafeRun(Apply(t, e).table, rest)
    ensures AllOrdinary(t, [e] + rest) && SafeRun(t, [e] + rest)
  {
    assert ([e] + rest)[1..] == rest;
  }

  /** The failing family is reached by a run. A window of four slots starts at 4093. Frame 4093 is delivered and
      frame 1 is held in slot 3; then frame 3 moves the window to 0 and flushes frame 1, whose place in the new
      window is slot 1. */
  lemma WrapFlushesAhead() returns (t0: Table, es: seq<Event>, e: Event)
    ensures t0 == Fresh(4, 4093, 4093, false) && e == Arrive(Data(Packet(3, 8)))
    ensures es == [Arrive(Data(Packet(4093, 6))), Arrive(Data(Packet(1, 7)))]
    ensures Inv(t0)
    ensures var t := Run(t0, es).table; !t.checkStartWin && Ordinary(t, e) && !Safe(t, e)
  {
    hide Inv, Run, Apply, Safe, Ordinary;
    var first, second := Data(Packet(4093, 6)), Data(Packet(1, 7));
    t0, es, e := Fresh(4, 4093, 4093, false), [Arrive(first), Arrive(second)], Arrive(Data(Packet(3, 8)));
    FreshInv(4, 4093, 4093, false);
    var t1 := FirstArrives(t0, first);
    ApplyInv(t0, Arrive(first));
    var t2 := SecondArrives(t1, second);
    RunCons(t0, Arrive(first), [Arrive(second)]);
    RunCons(t1, Arrive(second), []);
    RunEmpty(t2);
    assert es == [Arrive(first)] + [Arrive(second)];
    assert [Arrive(second)] == [Arrive(second)] + [];
    ThirdIsUnsafe(t2, e);
  }

  lemma ThirdIsUnsafe(t: Table, e: Event)
    requires t == Table(4, 4094, 4093, [Empty, Empty, Empty, Full(Packet(1, 7))], 8, true, false, false, false, 0, 0)
    requires e == Arrive(Data(Packet(3, 8))) && Inv(t)
    ensures !t.checkStartWin && Ordinary(t, e) && !Safe(t, e)
  {
    hide Inv;
    assert t.slots[3].Full?;
  }

  lemma FirstArrives(t: Table, a: Arrival) returns (t': Table)
    requires t == Fresh(4, 4093, 4093, false) && a == Data(Packet(4093, 6)) && Inv(t)
    ensures t' == Apply(t, Arrive(a)).table == Table(4, 4094, 4093, Empties(4), 0, false, false, false, false, 0, 0)
  {
    t' := Apply(t, Arrive(a)).table;
    ApplyInv(t, Arrive(a));
    BitmapZero(t'.slots);
    hide BitmapOf, Deliveries;
    assert t.slots[0 := Full(a.pkt)][1..] == Empties(3);
    assert RunLength(t.slots[0 := Full(a.pkt)]) == 1;
    assert t'.slots == Empties(4);
  }

  lemma SecondArrives(t: Table, a: Arrival) returns (t': Table)
    requires t == Table(4, 4094, 4093, Empties(4), 0, false, false, false, false, 0, 0) && a == Data(Packet(1, 7))
    ensures t' == Apply(t, Arrive(a)).table
    ensures t' == Table(4, 4094, 4093, [Empty, Empty, Empty, Full(a.pkt)], 8, true, false, false, false, 0, 0)
  {
    t' := Apply(t, Arrive(a)).table;
    var slots := t.slots[3 := Full(a.pkt)];
    assert slots == [Empty, Empty, Empty, Full(a.pkt)];
    assert RunLength(slots) == 0 && slots[0..] == slots && slots + Empties(0) == slots;
    assert SetBit(0, 0) == 1 && SetBit(0, 1) == 2 && SetBit(0, 2) == 4 && SetBit(0, 3) == 8;
    hide Deliveries;
  }
}
