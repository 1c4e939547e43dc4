/** The start-up phase of a reorder buffer: how long it lasts, what goes out while it does, and where the window
    starts when it is over. */
module RxReorderStartUp {
  import opened Bits
  import opened RxReorderModel
  import opened RxReorderLemmas
  import opened RxReorderRuns
  import opened Seqs

  function Arrivals(ars: seq<Arrival>): (es: seq<Event>)
    ensures |es| == |ars| && forall i :: 0 <= i < |es| ==> es[i] == Arrive(ars[i])
  {
    seq(|ars|, i requires 0 <= i < |ars| => Arrive(ars[i]))
  }

  lemma ArrivalsHead(ars: seq<Arrival>)
    ensures Arrivals([]) == []
    ensures ars != [] ==> Arrivals(ars) == [Arrive(ars[0])] + Arrivals(ars[1..])
  {
  }

  /** No arrival is forwarded past the buffer. */
  ghost predicate NoneBypassed(t: Table, ars: seq<Arrival>) {
    forall i :: 0 <= i < |ars| && ars[i].Amsdu? ==> t.amsdu
  }

  // ---------- What goes out ----------

  /** The frames that do not repeat the number before them, `last` being the number before the first. */
  function Forwarded(last: nat, ars: seq<Arrival>): seq<Delivery>
    decreases |ars|
  {
    if ars == [] then []
    else (if ars[0].Bar? || ars[0].Seq() == last then [] else [Direct(ars[0].pkt)]) + Forwarded(ars[0].Seq(), ars[1..])
  }

  /** The frames that do. */
  function Repeated(last: nat, ars: seq<Arrival>): seq<Packet>
    decreases |ars|
  {
    if ars == [] then []
    else (if !ars[0].Bar? && ars[0].Seq() == last then [ars[0].pkt] else []) + Repeated(ars[0].Seq(), ars[1..])
  }

  function LastNumber(last: nat, ars: seq<Arrival>): nat {
    if ars == [] then last else ars[|ars| - 1].Seq()
  }

  lemma OneForwarded(t: Table, a: Arrival)
    requires Inv(t) && t.checkStartWin && t.pktCount + 1 < t.winSize / 2
    requires a.Seq() != t.startWin && (a.Amsdu? ==> t.amsdu)
    ensures var s := Apply(t, Arrive(a));
            && s.table == t.(pktCount := t.pktCount + 1, lastSeq := a.Seq())
            && s.out == (if a.Bar? || a.Seq() == t.lastSeq then [] else [Direct(a.pkt)])
            && s.refused == (if !a.Bar? && a.Seq() == t.lastSeq then [a.pkt] else [])
            && (s.accepted <==> a.Seq() != t.lastSeq)
  {
    hide Reorder, InPlace, BitmapOf, AllEmpty;
  }

  /** While start-up lasts, every frame is forwarded as it comes, unless it repeats the number before it. */
  lemma {:induction false} StartUpForwards(t: Table, ars: seq<Arrival>)
    requires Inv(t) && t.checkStartWin && NoneBypassed(t, ars) && t.pktCount + |ars| < t.winSize / 2
    requires forall i :: 0 <= i < |ars| ==> ars[i].Seq() != t.startWin
    ensures var r := Run(t, Arrivals(ars));
            && r.table == t.(pktCount := t.pktCount + |ars|, lastSeq := LastNumber(t.lastSeq, ars))
            && r.out == Forwarded(t.lastSeq, ars) && r.refused == Repeated(t.lastSeq, ars)
    decreases |ars|
  {
    hide Inv, Apply, Run;
    ArrivalsHead(ars);
    RunSteps(t, Arrivals(ars));
    if ars != [] {
      var a, rest := ars[0], ars[1..];
      OneForwarded(t, a);
      ApplyInv(t, Arrive(a));
      assert Arrivals(ars)[0] == Arrive(a) && Arrivals(ars)[1..] == Arrivals(rest);
      StartUpForwards(Apply(t, Arrive(a)).table, rest);
    }
  }

  lemma RunSteps(t: Table, es: seq<Event>)
    requires Inv(t)
    ensures Run(t, []) == Step(t, [], [], true)
    ensures es != [] ==>
              && Inv(Apply(t, es[0]).table)
              && var s := Apply(t, es[0]);
                 var r := Run(s.table, es[1..]);
                 Run(t, es) == Step(r.table, s.out + r.out, s.refused + r.refused, r.accepted)
  {
    hide Apply, Inv;
    if es != [] {
      ApplyInv(t, es[0]);
    }
  }

  // ---------- How long it lasts ----------

  /** Start-up is over with the arrival at the window start, and with the arrival that completes half a window. */
  lemma OneEnds(t: Table, a: Arrival)
    requires Inv(t) && t.checkStartWin && (a.Amsdu? ==> t.amsdu) && t.pktCount + 1 <= t.winSize / 2
    requires a.Seq() == t.startWin || t.pktCount + 1 == t.winSize / 2
    ensures !Apply(t, Arrive(a)).table.checkStartWin
    ensures Apply(t, Arrive(a)) == Reorder(EndStartUp(t, a), a)
  {
    hide Reorder, InPlace, BitmapOf, AllEmpty;
    var u := EndStartUp(t, a);
    InvShape(t);
    hide EndStartUp;
    ReorderStarts(u, a);
    EndStartUpInv(t, a);
  }

  lemma ReorderStarts(t: Table, a: Arrival)
    requires |t.slots| == t.winSize && 1 <= t.winSize <= 64
    ensures Reorder(t, a).table.checkStartWin == t.checkStartWin
  {
    hide Deliveries, ShiftRight, SetBit, RunLength, Stale, Distance, Plus, Reach, FlushCount;
  }

  /** Once over, start-up does not come back. */
  lemma OverForGood(t: Table, e: Event)
    requires Inv(t) && !t.checkStartWin
    ensures !Apply(t, e).table.checkStartWin
  {
    hide Reorder, FlushTo, LastFull;
    match e
    case Arrive(a) => ReorderStarts(t, a);
    case TimerFires => MoveStarts(t.(timerIsSet := false), Plus(t.startWin, LastFull(t.slots) + 1));
    case ReAddba(ssn) => MoveStarts(t, ssn);
    case HostSleepActivated =>
    case AddbaCompleted(_) =>
  }

  lemma MoveStarts(t: Table, newStart: SeqNum)
    requires |t.slots| == t.winSize
    ensures FlushTo(t, newStart).0.checkStartWin == t.checkStartWin
  {
  }

  lemma {:induction false} NeverAgain(t: Table, es: seq<Event>)
    requires Inv(t) && !t.checkStartWin
    ensures !Run(t, es).table.checkStartWin
    decreases |es|
  {
    hide Inv, Apply, Run;
    RunSteps(t, es);
    if es != [] {
      OverForGood(t, es[0]);
      NeverAgain(Apply(t, es[0]).table, es[1..]);
    }
  }

  lemma {:induction false} StartUpLasts(t: Table, ars: seq<Arrival>)
    requires Inv(t) && t.checkStartWin && NoneBypassed(t, ars) && t.pktCount < t.winSize / 2
    ensures Run(t, Arrivals(ars)).table.checkStartWin
       <==> t.pktCount + |ars| < t.winSize / 2 && forall i :: 0 <= i < |ars| ==> ars[i].Seq() != t.startWin
    decreases |ars|
  {
    hide Inv, Apply, Run;
    ArrivalsHead(ars);
    RunSteps(t, Arrivals(ars));
    if ars != [] {
      var a, rest := ars[0], ars[1..];
      assert Arrivals(ars)[0] == Arrive(a) && Arrivals(ars)[1..] == Arrivals(rest);
      var t' := Apply(t, Arrive(a)).table;
      if a.Seq() == t.startWin || t.pktCount + 1 == t.winSize / 2 {
        OneEnds(t, a);
        NeverAgain(t', Arrivals(rest));
      } else {
        OneForwarded(t, a);
        StartUpLasts(t', rest);
        assert forall i :: 0 < i < |ars| ==> ars[i] == rest[i - 1];
      }
    }
  }

  /** Over every run of arrivals from a fresh agreement, start-up lasts as long as fewer than half a window of them
      have come and none had the agreed starting number; and while it lasts exactly the frames that do not repeat
      the number before them have gone out, forwarded, and nothing is held. */
  lemma StartUpExactly(winSize: nat, ssn: SeqNum, lastSeq: nat, amsdu: bool, ars: seq<Arrival>)
    requires 2 <= winSize <= 64 && (lastSeq < 4096 || lastSeq == 0xffff)
    requires NoneBypassed(Fresh(winSize, ssn, lastSeq, amsdu), ars)
    ensures var t := Fresh(winSize, ssn, lastSeq, amsdu);
            && Inv(t)
            && var r := Run(t, Arrivals(ars));
               && (r.table.checkStartWin <==> |ars| < winSize / 2 && forall i :: 0 <= i < |ars| ==> ars[i].Seq() != ssn)
               && (r.table.checkStartWin ==>
                     r.out == Forwarded(lastSeq, ars) && r.table.startWin == ssn && AllEmpty(r.table.slots))
  {
    hide Inv, Run;
    var t := Fresh(winSize, ssn, lastSeq, amsdu);
    FreshInv(winSize, ssn, lastSeq, amsdu);
    StartUpLasts(t, ars);
    if |ars| < winSize / 2 && forall i :: 0 <= i < |ars| ==> ars[i].Seq() != ssn {
      StartUpForwards(t, ars);
    }
  }

  // ---------- Where the window starts afterwards ----------

  /** The end of start-up, outright. The number forwarded last is known unless it is 0xffff; the window starts after
      it if it is within the window but not its last number, or between the arrival and the old start. */
  lemma StartAdopted(t: Table, a: Arrival)
    requires 2 <= t.winSize <= 64 && t.startWin < 4096 && (t.lastSeq < 4096 || t.lastSeq == 0xffff)
    ensures var inWindow := (t.lastSeq + 4096 - t.startWin) % 4096 < t.winSize - 1;
            var adopts := a.Seq() != t.startWin && t.lastSeq != 0xffff
                          && (inWindow || t.lastSeq < a.Seq() < t.startWin);
            var u := EndStartUp(t, a);
            && !u.checkStartWin && u.slots == t.slots && u.bitmap == t.bitmap
            && u.startWin == (if adopts then t.lastSeq + 1 else t.startWin)
            && u.laps == (if adopts && t.lastSeq + 1 < t.startWin then t.laps + 1 else t.laps)
  {
    assert t.slots[0..] + Empties(0) == t.slots;
  }

  /** Window 4 from 100: frame 102 is forwarded, frame 103 ends start-up and is delivered through a window that
      starts at 103, and frame 105 is held for 104. */
  lemma StartUpExample(t: Table, a: Arrival, b: Arrival, d: Arrival)
    requires t == Fresh(4, 100, 0xffff, false)
    requires a == Data(Packet(102, 1)) && b == Data(Packet(103, 2)) && d == Data(Packet(105, 3))
    ensures Inv(t)
    ensures var r := Run(t, Arrivals([a, b, d]));
            && r.out == [Direct(a.pkt), InWindow(103, b.pkt)]
            && r.table.startWin == 104 && r.table.slots == [Empty, Full(d.pkt), Empty, Empty] && r.table.timerIsSet
  {
    hide Inv, Run;
    FreshInv(4, 100, 0xffff, false);
    OneForwarded(t, a);
    ApplyInv(t, Arrive(a));
    var t1 := Apply(t, Arrive(a)).table;
    SecondIsDelivered(t1, b);
    ApplyInv(t1, Arrive(b));
    var t2 := Apply(t1, Arrive(b)).table;
    ThirdIsHeld(t2, d);
    ApplyInv(t2, Arrive(d));
    var es := Arrivals([a, b, d]);
    assert es == [Arrive(a), Arrive(b), Arrive(d)];
    assert es[1..] == [Arrive(b), Arrive(d)] && es[1..][1..] == [Arrive(d)] && es[1..][1..][1..] == [];
    RunSteps(t, es);
    RunSteps(t1, es[1..]);
    RunSteps(t2, es[1..][1..]);
    RunSteps(Apply(t2, Arrive(d)).table, []);
    hide Apply;
  }

  lemma SecondIsDelivered(t: Table, b: Arrival)
    requires t == Fresh(4, 100, 102, false).(pktCount := 1) && b == Data(Packet(103, 2)) && Inv(t)
    ensures var s := Apply(t, Arrive(b));
            && s.out == [InWindow(103, b.pkt)]
            && s.table == Table(4, 104, 102, Empties(4), 0, false, false, false, false, 2, 0)
  {
    OneEnds(t, b);
    StartAdopted(t, b);
    var u := EndStartUp(t, b);
    assert u == Table(4, 103, 102, Empties(4), 0, false, false, false, false, 2, 0);
    ApplyInv(t, Arrive(b));
    var s := Reorder(u, b);
    var slots := u.slots[0 := Full(b.pkt)];
    BitmapZero(s.table.slots);
    hide BitmapOf, EndStartUp;
    assert slots[1..] == Empties(3);
    assert RunLength(slots) == 1;
    assert slots[..1] == [Full(b.pkt)] && Deliveries(slots[..1], 103) == [InWindow(103, b.pkt)];
    assert s.table.slots == Empties(4);
  }

  lemma ThirdIsHeld(t: Table, d: Arrival)
    requires t == Table(4, 104, 102, Empties(4), 0, false, false, false, false, 2, 0) && d == Data(Packet(105, 3))
    ensures var s := Apply(t, Arrive(d));
            && s.out == [] && s.table.startWin == 104 && s.table.slots == [Empty, Full(d.pkt), Empty, Empty]
            && s.table.timerIsSet
  {
    var slots := t.slots[1 := Full(d.pkt)];
    assert slots == [Empty, Full(d.pkt), Empty, Empty];
    assert RunLength(slots) == 0 && slots[0..] == slots && slots + Empties(0) == slots && slots[..0] == [];
    assert SetBit(0, 0) == 1 && SetBit(0, 1) == 2;
  }
}
