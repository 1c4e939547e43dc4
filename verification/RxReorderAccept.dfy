/** Which arrivals a reorder buffer accepts, and what every event leaves in it, outright. */
module RxReorderAccept {
  import opened Bits
  import opened RxReorderModel
  import opened RxReorderLemmas
  import opened RxReorderRuns
  import opened RxReorderOrder

  /** No held frame has this number. */
  ghost predicate NotHeld(t: Table, number: SeqNum) {
    forall i :: 0 <= i < |t.slots| && t.slots[i].Full? ==> t.slots[i].pkt.seqNum != number
  }

  lemma RoomIsFree(t: Table, a: Arrival)
    requires Inv(t) && !a.Bar?
    ensures MakeRoom(t, a).0.slots[SlotIndex(t, a)] == Empty <==> NotHeld(t, a.Seq())
  {
    hide Deliveries, ShiftRight, BitmapOf;
    if Moves(t, a) {
      MovedSlotIsFree(t, a);
    } else {
      forall i | 0 <= i < |t.slots| && t.slots[i].Full? && t.slots[i].pkt.seqNum == a.Seq() ensures i == Reach(t, a) {
        assert Distance(t.startWin, Plus(t.startWin, i)) == i;
      }
    }
  }

  /** Past start-up the driver accepts a data frame exactly if its number is not more than half the circle ahead of
      the window start, the opposite point excepted as told, or the one-time flag suspends that test, and no held
      frame has it; a BAR need pass the first test only. The flag is used up. */
  lemma AcceptedExactly(t: Table, a: Arrival)
    requires Inv(t) && !t.checkStartWin && (a.Amsdu? ==> t.amsdu)
    ensures var ahead := (a.Seq() + 4096 - t.startWin) % 4096;
            var recent := t.forceNoDrop || ahead < 2048 || (ahead == 2048 && t.startWin < 2048);
            var s := Apply(t, Arrive(a));
            && (s.accepted <==> recent && (a.Bar? || NotHeld(t, a.Seq())))
            && s.refused == (if s.accepted || a.Bar? then [] else [a.pkt])
            && !s.table.forceNoDrop
  {
    hide Inv, Reorder, Admit, Refuses, NotHeld, Apply;
    InvShape(t);
    ArrivalIsReordered(t, a);
    RefusesExactly(t, a);
    ClearForce(t);
    if Refuses(t, a) {
      ReorderRefused(t, a);
    }
    ReorderCases(t, a);
    AdmitAccepts(t.(forceNoDrop := false), a);
    NotHeldAlike(t, t.(forceNoDrop := false), a.Seq());
  }

  lemma NotHeldAlike(t: Table, t': Table, number: SeqNum)
    requires t'.slots == t.slots
    ensures NotHeld(t', number) == NotHeld(t, number)
  {
  }

  lemma RefusesExactly(t: Table, a: Arrival)
    ensures var ahead := (a.Seq() + 4096 - t.startWin) % 4096;
            Refuses(t, a) <==> !t.forceNoDrop && (ahead > 2048 || (ahead == 2048 && t.startWin >= 2048))
  {
  }

  lemma ReorderRefused(t: Table, a: Arrival)
    requires |t.slots| == t.winSize && 1 <= t.winSize <= 64 && Refuses(t, a)
    ensures var s := Reorder(t, a); !s.accepted && s.refused == Packets(a) && !s.table.forceNoDrop
  {
    hide Admit, Stale;
  }

  lemma AdmitAccepts(t: Table, a: Arrival)
    requires Inv(t)
    ensures var s := Admit(t, a);
            && (s.accepted <==> a.Bar? || NotHeld(t, a.Seq()))
            && s.refused == (if s.accepted then [] else [a.pkt]) && s.table.forceNoDrop == t.forceNoDrop
  {
    hide Inv, Place, MakeRoom, SlotIndex, Moves, NotHeld;
    InvShape(t);
    if !a.Bar? {
      RoomIsFree(t, a);
    }
    MakeRoomFlag(t, a);
    PlaceAccepts(MakeRoom(t, a).0, SlotIndex(t, a), a);
  }

  lemma MakeRoomFlag(t: Table, a: Arrival)
    requires |t.slots| == t.winSize && 1 <= t.winSize <= 64
    ensures MakeRoom(t, a).0.forceNoDrop == t.forceNoDrop
  {
    hide Deliveries, ShiftRight, Moves, Target;
  }

  lemma PlaceAccepts(t: Table, i: nat, a: Arrival)
    requires i < |t.slots| <= 64
    ensures var s := Place(t, i, a);
            && (s.accepted <==> a.Bar? || t.slots[i] == Empty)
            && s.refused == (if s.accepted then [] else [a.pkt]) && s.table.forceNoDrop == t.forceNoDrop
  {
    hide Deliveries, ShiftRight, SetBit, RunLength;
  }

  /** After a host sleep the next arrival is accepted however old its number, unless a held frame has it. */
  lemma SleepAccepts(t: Table, a: Arrival)
    requires Inv(t) && !t.checkStartWin && (a.Amsdu? ==> t.amsdu)
    ensures var t' := Apply(t, HostSleepActivated).table;
            && t'.slots == t.slots && t'.startWin == t.startWin && Inv(t')
            && (Apply(t', Arrive(a)).accepted <==> a.Bar? || NotHeld(t, a.Seq()))
  {
    ApplyInv(t, HostSleepActivated);
    var t' := Apply(t, HostSleepActivated).table;
    AcceptedExactly(t', a);
    NotHeldAlike(t, t', a.Seq());
    assert t' == t.(forceNoDrop := true);
    hide Inv, Apply, NotHeld;
  }

  /** An A-MSDU of an agreement without A-MSDUs goes straight up and changes nothing. */
  lemma BypassExactly(t: Table, a: Arrival)
    requires |t.slots| == t.winSize && 1 <= t.winSize <= 64 && a.Amsdu? && !t.amsdu
    ensures Apply(t, Arrive(a)) == Step(t, [Direct(a.pkt)], [], true)
  {
  }

  // ---------- The buffer afterwards ----------

  /** Where the window starts when it has moved to include an arrival: for a frame outside it, so that the frame is
      its last number; for a BAR, at the BAR's number, unless that is less than a window behind. */
  function StartFor(t: Table, a: Arrival): Position {
    var ahead := (a.Seq() + 4096 - t.startWin) % 4096;
    if a.Bar? then (if ahead == 0 || ahead + t.winSize > 4096 then t.startWin else a.Seq())
    else if ahead < t.winSize then t.startWin
    else (a.Seq() + 4097 - t.winSize) % 4096
  }

  /** What a slot holds after a move of the window from `from` to `start`: what stood there, unless the move passed
      4095 or left the slot's number out. */
  function Kept(slots: seq<Slot>, from: Position, start: Position, i: nat): Slot {
    if start >= from && start - from + i < |slots| then slots[start - from + i] else Empty
  }

  lemma MoveKeeps(t: Table, start: SeqNum)
    requires |t.slots| == t.winSize && 1 <= t.winSize && start != t.startWin
    ensures var t' := FlushTo(t, start).0;
            && t'.startWin == start && t'.winSize == t.winSize
            && forall i :: 0 <= i < t.winSize ==> t'.slots[i] == Kept(t.slots, t.startWin, start, i)
  {
    hide Deliveries, ShiftRight;
  }

  lemma RoomExactly(t: Table, a: Arrival)
    requires |t.slots| == t.winSize && 2 <= t.winSize <= 64
    ensures var t' := MakeRoom(t, a).0;
            && t'.startWin == StartFor(t, a) && t'.winSize == t.winSize
            && forall i :: 0 <= i < t.winSize ==> t'.slots[i] == Kept(t.slots, t.startWin, StartFor(t, a), i)
    ensures !a.Bar? ==> (StartFor(t, a) + SlotIndex(t, a)) % 4096 == a.Seq()
  {
    hide FlushTo, Kept, StartFor, Target, Moves;
    RoomCases(t, a);
    if Moves(t, a) {
      TargetIsStart(t, a);
      MoveKeeps(t, StartFor(t, a));
    } else {
      StaysAtStart(t, a);
      assert forall i :: 0 <= i < t.winSize ==> Kept(t.slots, t.startWin, t.startWin, i) == t.slots[i] by {
        KeptAll(t);
      }
    }
  }

  lemma RoomCases(t: Table, a: Arrival)
    requires |t.slots| == t.winSize && 1 <= t.winSize <= 64
    ensures Moves(t, a) ==> MakeRoom(t, a) == FlushTo(t, Target(t, a)) && SlotIndex(t, a) == t.winSize - 1
    ensures !Moves(t, a) ==> MakeRoom(t, a) == (t, []) && SlotIndex(t, a) == Reach(t, a)
  {
    hide FlushTo, Target, Reach;
  }

  lemma StaysAtStart(t: Table, a: Arrival)
    requires 2 <= t.winSize <= 64 && !Moves(t, a)
    ensures StartFor(t, a) == t.startWin
    ensures !a.Bar? ==> (StartFor(t, a) + Reach(t, a)) % 4096 == a.Seq()
  {
  }

  lemma KeptAll(t: Table)
    ensures forall i :: 0 <= i < |t.slots| ==> Kept(t.slots, t.startWin, t.startWin, i) == t.slots[i]
  {
  }

  lemma TargetIsStart(t: Table, a: Arrival)
    requires 2 <= t.winSize <= 64 && Moves(t, a)
    ensures Target(t, a) == StartFor(t, a) != t.startWin
    ensures !a.Bar? ==> (StartFor(t, a) + t.winSize - 1) % 4096 == a.Seq()
  {
  }

  /** The sequence number of a slot then. */
  function NumberAt(t: Table, a: Arrival, i: nat): nat {
    (StartFor(t, a) + i) % 4096
  }

  /** The buffer when the arrival is in its place and before the run at the front goes out. */
  ghost predicate Placed(t: Table, a: Arrival, slots: seq<Slot>) {
    && |slots| == t.winSize
    && forall i :: 0 <= i < t.winSize ==>
         slots[i] == if !a.Bar? && NumberAt(t, a, i) == a.Seq() then Full(a.pkt)
                     else Kept(t.slots, t.startWin, StartFor(t, a), i)
  }

  /** `after` is what is left of `slots` when its first `n` have gone out. */
  ghost predicate RunGone(slots: seq<Slot>, n: nat, after: seq<Slot>) {
    && n <= |slots| == |after| && (forall k :: 0 <= k < n ==> slots[k].Full?) && (n < |slots| ==> slots[n] == Empty)
    && forall i :: 0 <= i < |slots| ==> after[i] == if i + n < |slots| then slots[i + n] else Empty
  }

  /** The buffer after every accepted arrival past start-up, outright: the window has moved as told, the arrival has
      been put in its place, and the run at the front has gone out. */
  lemma AcceptedLeaves(t: Table, a: Arrival) returns (slots: seq<Slot>, n: nat)
    requires Inv(t) && !t.checkStartWin && (a.Amsdu? ==> t.amsdu) && Apply(t, Arrive(a)).accepted
    ensures Placed(t, a, slots) && RunGone(slots, n, Apply(t, Arrive(a)).table.slots)
    ensures Apply(t, Arrive(a)).table.startWin == Plus(StartFor(t, a), n)
  {
    hide Inv, Reorder, Admit, Refuses, Placed, RunGone, Apply, StartFor;
    InvShape(t);
    ArrivalIsReordered(t, a);
    ClearForce(t);
    if Refuses(t, a) {
      ReorderRefused(t, a);
    }
    ReorderCases(t, a);
    slots, n := AdmitLeaves(t.(forceNoDrop := false), a);
    PlacedAlike(t, t.(forceNoDrop := false), a, slots);
  }

  lemma PlacedAlike(t: Table, t': Table, a: Arrival, slots: seq<Slot>)
    requires t' == t.(forceNoDrop := t'.forceNoDrop)
    ensures Placed(t', a, slots) == Placed(t, a, slots) && StartFor(t', a) == StartFor(t, a)
  {
    hide Kept;
  }

  lemma AdmitLeaves(t: Table, a: Arrival) returns (slots: seq<Slot>, n: nat)
    requires Inv(t) && Admit(t, a).accepted
    ensures Placed(t, a, slots) && RunGone(slots, n, Admit(t, a).table.slots)
    ensures Admit(t, a).table.startWin == Plus(StartFor(t, a), n)
  {
    hide Inv, Place, MakeRoom, SlotIndex, Moves, StartFor, Kept, RunGone;
    InvShape(t);
    var i := SlotIndex(t, a);
    RoomExactly(t, a);
    slots, n := PlaceLeaves(MakeRoom(t, a).0, i, a);
    if !a.Bar? {
      forall k | 0 <= k < t.winSize ensures NumberAt(t, a, k) == a.Seq() <==> k == i {
        OneNumber(t, a, i, k);
      }
    }
  }

  lemma OneNumber(t: Table, a: Arrival, i: nat, k: nat)
    requires 2 <= t.winSize <= 64 && i < t.winSize && k < t.winSize && (StartFor(t, a) + i) % 4096 == a.Seq()
    ensures NumberAt(t, a, k) == a.Seq() <==> k == i
  {
    hide StartFor;
  }

  lemma PlaceLeaves(t: Table, i: nat, a: Arrival) returns (slots: seq<Slot>, n: nat)
    requires 2 <= |t.slots| <= 64 && i < |t.slots| && Place(t, i, a).accepted
    ensures slots == if a.Bar? then t.slots else t.slots[i := Full(a.pkt)]
    ensures RunGone(slots, n, Place(t, i, a).table.slots) && Place(t, i, a).table.startWin == Plus(t.startWin, n)
  {
    hide Deliveries, ShiftRight, SetBit;
    slots := if a.Bar? then t.slots else t.slots[i := Full(a.pkt)];
    n := RunLength(slots);
  }

  /** A firing timer leaves the window one past the highest number held, in window order, and nothing in it; with
      nothing held it moves nothing. */
  lemma TimerLeaves(t: Table)
    requires Inv(t)
    ensures var t' := Apply(t, TimerFires).table;
            && AllEmpty(t'.slots)
            && (AllEmpty(t.slots) ==> t'.startWin == t.startWin)
            && forall i :: 0 <= i < t.winSize && t.slots[i].Full?
                           && (forall k :: i < k < t.winSize ==> t.slots[k] == Empty) ==>
                 t'.startWin == (t.slots[i].pkt.seqNum + 1) % 4096
  {
    hide BitmapOf, Inv, AllEmpty, Flush, LastFull, Plus, Deliveries, ShiftRight;
    InvShape(t);
    FlushEmpties(t);
    TimerStart(t);
    forall i | 0 <= i < t.winSize && t.slots[i].Full? && (forall k :: i < k < t.winSize ==> t.slots[k] == Empty)
      ensures Flush(t).0.startWin == (t.slots[i].pkt.seqNum + 1) % 4096
    {
      HighestHeld(t, i);
    }
  }

  lemma HighestHeld(t: Table, i: nat)
    requires Inv(t) && i < t.winSize && |t.slots| == t.winSize <= 64 && t.slots[i].Full?
    requires forall k :: i < k < t.winSize ==> t.slots[k] == Empty
    ensures !AllEmpty(t.slots) && LastFull(t.slots) == i
    ensures Plus(t.startWin, i + 1) == (t.slots[i].pkt.seqNum + 1) % 4096
  {
    HeldNumbers(t);
    hide BitmapOf, Inv;
  }

  lemma TimerStart(t: Table)
    requires |t.slots| == t.winSize <= 64
    ensures Flush(t).0.startWin == if AllEmpty(t.slots) then t.startWin else Plus(t.startWin, LastFull(t.slots) + 1)
    ensures AllEmpty(t.slots) <==> LastFull(t.slots) < 0
  {
    hide Deliveries, ShiftRight;
  }

  /** A new agreement on the same entry moves the window to its number; what the window still covers is kept only if
      it has moved forward and not past 4095. */
  lemma ReAddbaLeaves(t: Table, ssn: SeqNum)
    requires Inv(t)
    ensures var t' := Apply(t, ReAddba(ssn)).table;
            && t'.startWin == ssn
            && forall i :: 0 <= i < t.winSize ==>
                 t'.slots[i] == if ssn == t.startWin then Empty else Kept(t.slots, t.startWin, ssn, i)
  {
    hide Deliveries, ShiftRight, BitmapOf, InPlace;
    if ssn != t.startWin {
      MoveKeeps(t, ssn);
    }
  }
}
