/** The reorder table entry as the driver keeps it: fields updated in place and a slot array emptied
    and rotated by loops. Each method is proved against the function of RxReorderModel that says what
    the event does. */
module RxReorderTable {
  import opened Bits
  import opened RxReorderModel
  import opened RxReorderLemmas

  // ---------- The driver's window arithmetic ----------

  /** `n & (MAX_TID_VALUE - 1)` */
  function Masked(n: nat): (r: SeqNum)
    requires n < 2 * MAX_TID_VALUE
    ensures r == if n < MAX_TID_VALUE then n else n - MAX_TID_VALUE
  {
    n % MAX_TID_VALUE
  }

  function EndWin(startWin: Position, winSize: nat): SeqNum
    requires 1 <= winSize <= 64
  {
    Masked(startWin + winSize - 1)
  }

  /** The staleness test. */
  predicate StaleTest(startWin: Position, seqNum: nat) {
    if startWin + TWOPOW11 > MAX_TID_VALUE - 1 then
      seqNum >= Masked(startWin + TWOPOW11) && seqNum < startWin
    else
      seqNum < startWin || seqNum > startWin + TWOPOW11
  }

  /** The test for a number outside the window. */
  predicate OutsideTest(startWin: nat, endWin: nat, seqNum: nat) {
    || (endWin < startWin && seqNum < startWin && seqNum > endWin)
    || (endWin > startWin && (seqNum > endWin || seqNum < startWin))
  }

  /** The window start that makes `seqNum` the window end. */
  function StartFor(seqNum: SeqNum, winSize: nat): int {
    if seqNum - winSize + 1 >= 0 then seqNum - winSize + 1 else MAX_TID_VALUE - (winSize - seqNum) + 1
  }

  function InsertIndex(startWin: nat, seqNum: nat): int {
    if seqNum >= startWin then seqNum - startWin else seqNum + MAX_TID_VALUE - startWin
  }

  /** The driver's comparisons are the distance tests of the model, for every window start, the
      unmasked 4096 included. */
  lemma WindowArithmetic(startWin: Position, winSize: nat, seqNum: SeqNum)
    requires 2 <= winSize <= 64
    ensures StaleTest(startWin, seqNum) <==> Stale(startWin, seqNum)
    ensures var ahead := if seqNum >= startWin then seqNum - startWin else seqNum + 4096 - startWin;
            && ahead % 4096 == ahead == (seqNum + 4096 - startWin) % 4096
            && (StaleTest(startWin, seqNum) <==> ahead > 2048 || (ahead == 2048 && startWin >= 2048))
    ensures OutsideTest(startWin, EndWin(startWin, winSize), seqNum) <==> Distance(startWin, seqNum) >= winSize
    ensures Distance(startWin, seqNum) >= winSize ==>
              StartFor(seqNum, winSize) == Plus(startWin, Distance(startWin, seqNum) - winSize + 1)
    ensures InsertIndex(startWin, seqNum) == Distance(startWin, seqNum)
    ensures InsertIndex(StartFor(seqNum, winSize), seqNum) == winSize - 1
  {
  }

  /** The number the driver moves the window by: a BAR's is replaced by the window end it asks for. */
  function WindowNumber(winSize: nat, a: Arrival): SeqNum
    requires 1 <= winSize <= 64
  {
    if a.Bar? then Masked(a.number + winSize - 1) else a.Seq()
  }

  /** In the model's terms: when the window moves, where to, and which slot the arrival gets. */
  lemma MoveArithmetic(t: Table, a: Arrival)
    requires 2 <= t.winSize <= 64
    ensures var n := WindowNumber(t.winSize, a);
            && (OutsideTest(t.startWin, EndWin(t.startWin, t.winSize), n) <==> Moves(t, a))
            && (Moves(t, a) ==> StartFor(n, t.winSize) == Target(t, a))
            && InsertIndex(if Moves(t, a) then StartFor(n, t.winSize) else t.startWin, n) == SlotIndex(t, a)
  {
    var n := WindowNumber(t.winSize, a);
    assert Distance(t.startWin, n) == Reach(t, a);
    WindowArithmetic(t.startWin, t.winSize, n);
    hide WindowNumber, OutsideTest, EndWin, StartFor, InsertIndex, Distance, Plus, Reach;
  }

  /** The start-up test on the last forwarded number. */
  predicate LastSeqTest(startWin: nat, endWin: nat, lastSeq: nat) {
    || (endWin > startWin && lastSeq >= startWin && lastSeq < endWin)
    || (endWin < startWin && (lastSeq >= startWin || lastSeq < endWin))
  }

  /** The test for adopting the last forwarded number. */
  predicate RebaseTest(startWin: Position, winSize: nat, lastSeq: nat, seqNum: nat)
    requires 1 <= winSize <= 64
  {
    LastSeqTest(startWin, EndWin(startWin, winSize), lastSeq) || (seqNum < startWin && seqNum > lastSeq)
  }

  lemma StartUpArithmetic(startWin: SeqNum, winSize: nat, lastSeq: SeqNum)
    requires 2 <= winSize <= 64
    ensures LastSeqTest(startWin, EndWin(startWin, winSize), lastSeq)
       <==> Distance(startWin, lastSeq) < winSize - 1
  {
  }

  /** The driver adopts the last forwarded number exactly when the model rebases: it lies in the window, its last
      slot excepted, or between the arrival and the window start. */
  lemma RebaseArithmetic(t: Table, a: Arrival)
    requires 2 <= t.winSize <= 64 && t.startWin < MAX_TID_VALUE
    requires t.lastSeq < MAX_TID_VALUE || t.lastSeq == DEFAULT_SEQ_NUM
    ensures Rebases(t, a) <==> a.Seq() != t.startWin && t.lastSeq != DEFAULT_SEQ_NUM
                               && RebaseTest(t.startWin, t.winSize, t.lastSeq, a.Seq())
  {
    if t.lastSeq < MAX_TID_VALUE {
      StartUpArithmetic(t.startWin, t.winSize, t.lastSeq);
    }
    hide Distance, EndWin, LastSeqTest;
  }

  /** A window move, field by field. */
  lemma MovedTable(t: Table, newStart: SeqNum)
    requires |t.slots| == t.winSize
    ensures var n := FlushCount(t, newStart);
            FlushTo(t, newStart) == (
              t.(slots := t.slots[n..] + Empties(n), bitmap := ShiftRight(t.bitmap, n), startWin := newStart,
                 laps := if newStart < t.startWin then t.laps + 1 else t.laps),
              Deliveries(t.slots[..n], t.Base()))
    ensures FlushCount(t, newStart)
         == if newStart > t.startWin then
              (if newStart - t.startWin < t.winSize then newStart - t.startWin else t.winSize)
            else t.winSize
  {
    hide Deliveries, ShiftRight, Empties;
  }

  /** The start-up phase, step by step. */
  lemma StartUpSteps(t: Table, a: Arrival)
    requires Inv(t) && t.checkStartWin && (a.Amsdu? ==> t.amsdu)
    ensures t.lastSeq < MAX_TID_VALUE || t.lastSeq == DEFAULT_SEQ_NUM
    ensures StillStarting(t, a) && t.lastSeq == a.Seq() ==>
              Receive(t, a) == Step(t.(pktCount := (t.pktCount + 1) % 256), [], Packets(a), false)
    ensures StillStarting(t, a) && t.lastSeq != a.Seq() ==>
              Receive(t, a) == Step(t.(pktCount := (t.pktCount + 1) % 256, lastSeq := a.Seq()),
                                    if a.Bar? then [] else [Direct(a.pkt)], [], true)
    ensures !StillStarting(t, a) && a.Seq() == t.startWin ==> EndStartUp(t, a) == t.(checkStartWin := false)
    ensures !StillStarting(t, a) && a.Seq() != t.startWin ==>
              var t1 := t.(checkStartWin := false, pktCount := (t.pktCount + 1) % 256);
              EndStartUp(t, a)
              == if t.lastSeq != DEFAULT_SEQ_NUM && RebaseTest(t.startWin, t.winSize, t.lastSeq, a.Seq()) then
                   t1.(startWin := t.lastSeq + 1, laps := if t.lastSeq + 1 < t.startWin then t.laps + 1 else t.laps)
                 else t1
  {
    assert t.slots[0..] + Empties(0) == t.slots;
    RebaseArithmetic(t, a);
    hide Reorder, InPlace, BitmapOf, AllEmpty, RebaseTest, Rebases;
  }

  class Entry {
    const winSize: nat
    const slots: array<Slot>
    var startWin: Position
    var lastSeq: nat
    var bitmap: nat
    var timerIsSet: bool
    var amsdu: bool
    var forceNoDrop: bool
    var checkStartWin: bool
    var pktCount: nat
    ghost var laps: nat
    /** Everything dispatched so far. */
    ghost var log: seq<Delivery>

    ghost function View(): Table
      reads this, slots
    {
      Table(winSize, startWin, lastSeq, slots[..], bitmap, timerIsSet, amsdu, forceNoDrop, checkStartWin, pktCount,
            laps)
    }

    ghost predicate Valid()
      reads this, slots
    {
      Inv(View())
    }

    /** A new entry: empty, and in its start-up phase. */
    constructor (winSize: nat, ssn: SeqNum, lastSeq: nat, amsdu: bool)
      requires 2 <= winSize <= 64
      requires lastSeq < MAX_TID_VALUE || lastSeq == DEFAULT_SEQ_NUM
      ensures Valid() && fresh(slots) && log == []
      ensures View() == Table(winSize, ssn, lastSeq, Empties(winSize), 0, false, amsdu, false, true, 0, 0)
    {
      this.winSize := winSize;
      this.startWin := ssn;
      this.lastSeq := lastSeq;
      this.bitmap := 0;
      this.timerIsSet := false;
      this.amsdu := amsdu;
      this.forceNoDrop := false;
      this.checkStartWin := true;
      this.pktCount := 0;
      this.laps := 0;
      this.log := [];
      this.slots := new Slot[winSize](_ => Empty);
      new;
      assert slots[..] == Empties(winSize);
      BitmapZero(slots[..]);
    }

    /** Moves every slot `n` places down; the first `n` slots are already empty. With n == 0 the loop
        would erase what it copies. */
    method Rotate(n: nat)
      requires 1 <= n <= slots.Length
      requires forall k :: 0 <= k < n ==> slots[k] == Empty
      modifies slots
      ensures slots[..] == old(slots[..])[n..] + Empties(n)
    {
      ghost var s := slots[..];
      for i := 0 to slots.Length - n
        invariant forall k :: 0 <= k < i ==> slots[k] == s[n + k]
        invariant forall k :: i <= k < n + i ==> slots[k] == Empty
        invariant forall k :: n + i <= k < slots.Length ==> slots[k] == s[k]
      {
        slots[i] := slots[n + i];
        slots[n + i] := Empty;
      }
      assert slots[..] == s[n..] + Empties(n);
    }

    /** The first loop of wlan_11n_dispatch_pkt_until_start_win: empties the first `n` slots. */
    method DispatchFirst(n: nat)
      requires n <= slots.Length
      modifies this`log, slots
      ensures log == old(log) + Deliveries(old(slots[..])[..n], View().Base())
      ensures forall k :: 0 <= k < n ==> slots[k] == Empty
      ensures forall k :: n <= k < slots.Length ==> slots[k] == old(slots[k])
    {
      hide Deliveries;
      ghost var s, base := slots[..], View().Base();
      DeliveriesHead([], base);
      assert s[..0] == [];
      for i := 0 to n
        invariant forall k :: 0 <= k < i ==> slots[k] == Empty
        invariant forall k :: i <= k < slots.Length ==> slots[k] == s[k]
        invariant log == old(log) + Deliveries(s[..i], base)
      {
        DeliveriesSnoc(s, i, base);
        if slots[i].Full? {
          log := log + [InWindow(base + i, slots[i].pkt)];
          slots[i] := Empty;
        }
      }
    }

    /** wlan_11n_dispatch_pkt_until_start_win */
    method DispatchPktUntilStartWin(newStart: SeqNum)
      requires 1 <= slots.Length == winSize <= 64
      modifies this`startWin, this`bitmap, this`laps, this`log, slots
      ensures View() == FlushTo(old(View()), newStart).0
      ensures log == old(log) + FlushTo(old(View()), newStart).1
    {
      hide Deliveries, ShiftRight, Empties, FlushCount, FlushTo;
      ghost var s := slots[..];
      MovedTable(View(), newStart);
      var noPktToSend := if newStart > startWin
                         then (if newStart - startWin < winSize then newStart - startWin else winSize)
                         else winSize;
      assert noPktToSend == FlushCount(View(), newStart);
      DispatchFirst(noPktToSend);
      assert slots[..][noPktToSend..] == s[noPktToSend..];
      Rotate(noPktToSend);
      laps := if newStart < startWin then laps + 1 else laps;
      startWin := newStart;
      bitmap := ShiftRight(bitmap, noPktToSend);
    }

    /** The first loop of wlan_11n_scan_and_dispatch: empties the run of full slots at the front. */
    method DispatchRun() returns (i: nat)
      modifies this`log, slots
      ensures i == RunLength(old(slots[..]))
      ensures log == old(log) + Deliveries(old(slots[..])[..i], View().Base())
      ensures forall k :: 0 <= k < i ==> slots[k] == Empty
      ensures forall k :: i <= k < slots.Length ==> slots[k] == old(slots[k])
    {
      hide Deliveries, RunLength;
      ghost var s, base := slots[..], View().Base();
      DeliveriesHead([], base);
      assert s[..0] == [];
      i := 0;
      while i < slots.Length
        invariant 0 <= i <= slots.Length
        invariant forall k :: 0 <= k < i ==> slots[k] == Empty && s[k].Full?
        invariant forall k :: i <= k < slots.Length ==> slots[k] == s[k]
        invariant log == old(log) + Deliveries(s[..i], base)
      {
        if slots[i] == Empty {
          break;
        }
        DeliveriesSnoc(s, i, base);
        log := log + [InWindow(base + i, slots[i].pkt)];
        slots[i] := Empty;
        i := i + 1;
      }
    }

    /** wlan_11n_scan_and_dispatch */
    method ScanAndDispatch()
      requires slots.Length <= 64
      modifies this`startWin, this`bitmap, this`laps, this`log, slots
      ensures View() == Scan(old(View())).0
      ensures log == old(log) + Scan(old(View())).1
    {
      hide Deliveries, ShiftRight;
      ghost var s := slots[..];
      var i := DispatchRun();
      assert slots[..][i..] == s[i..];
      if i > 0 {
        Rotate(i);
      } else {
        assert slots[..] == s[i..] + Empties(i);
      }
      bitmap := ShiftRight(bitmap, i);
      laps := if Masked(startWin + i) < startWin then laps + 1 else laps;
      startWin := Masked(startWin + i);
    }

    /** wlan_11n_find_last_seqnum */
    method FindLastSeqNum() returns (last: int)
      ensures last == LastFull(slots[..])
    {
      last := slots.Length - 1;
      while last >= 0
        invariant -1 <= last < slots.Length
        invariant LastFull(slots[..]) == LastFull(slots[..last + 1])
      {
        if slots[last].Full? {
          return;
        }
        assert slots[..last + 1][..last] == slots[..last];
        last := last - 1;
      }
    }

    /** wlan_flush_data */
    method FlushData()
      requires Valid()
      modifies this, slots
      ensures Valid()
      ensures View() == Flush(old(View())).0
      ensures log == old(log) + Flush(old(View())).1
      ensures AllEmpty(View().slots) && bitmap == 0 && !timerIsSet
    {
      hide FlushTo, LastFull;
      FlushEmpties(View());
      timerIsSet := false;
      var last := FindLastSeqNum();
      if last >= 0 {
        DispatchPktUntilStartWin(Masked(startWin + last + 1));
      }
    }

    /** wlan_11n_create_rxreorder_tbl on an entry that exists */
    method ReAddba(ssn: SeqNum)
      requires Valid()
      modifies this, slots
      ensures Valid()
      ensures View() == FlushTo(old(View()), ssn).0
      ensures log == old(log) + FlushTo(old(View()), ssn).1
    {
      FlushInv(View(), ssn);
      DispatchPktUntilStartWin(ssn);
    }

    /** wlan_11n_free_rxreorder_pkt */
    method FreeRxReorderPkt() returns (freed: seq<Packet>)
      modifies slots
      ensures AllEmpty(slots[..])
      ensures freed == HeldPackets(old(slots[..]))
    {
      ghost var s := slots[..];
      freed := [];
      for i := 0 to slots.Length
        invariant forall k :: 0 <= k < i ==> slots[k] == Empty
        invariant slots[i..] == s[i..]
        invariant freed == HeldPackets(s[..i])
      {
        assert s[..i + 1] == s[..i] + [s[i]] && slots[i] == s[i..][0];
        HeldConcat(s[..i], [s[i]]);
        assert slots[i + 1..] == s[i..][1..] == s[i + 1..];
        if slots[i].Full? {
          freed := freed + [slots[i].pkt];
          slots[i] := Empty;
        }
      }
      assert s[..slots.Length] == s;
    }

    /** wlan_11n_delete_rxreorder_tbl_entry: what the entry holds is dispatched, or freed in a reset. */
    method Delete(inReset: bool) returns (freed: seq<Packet>)
      requires Valid()
      modifies this, slots
      ensures AllEmpty(slots[..]) && !timerIsSet
      ensures inReset ==> log == old(log) && freed == HeldPackets(old(slots[..]))
      ensures !inReset ==> log == old(log) + Drain(old(View())).1 && freed == []
    {
      if inReset {
        freed := FreeRxReorderPkt();
      } else {
        DrainEmpties(View());
        freed := [];
        DispatchPktUntilStartWin(Masked(startWin + winSize));
      }
      timerIsSet := false;
    }

    /** The `done` label of mlan_11n_rxreorder_pkt. */
    method SettleTimerFlag()
      modifies this`timerIsSet
      ensures View() == SettleTimer(old(View()))
    {
      if timerIsSet && bitmap == 0 {
        timerIsSet := false;
      }
      if !timerIsSet && bitmap != 0 {
        timerIsSet := true;
      }
    }

    /** An arrival in the start-up phase: forwarded, unless it repeats the last one. */
    method ForwardEarly(a: Arrival) returns (accepted: bool)
      modifies this`lastSeq, this`log
      ensures accepted == (old(lastSeq) != a.Seq())
      ensures lastSeq == a.Seq()
      ensures log == old(log) + if accepted && !a.Bar? then [Direct(a.pkt)] else []
    {
      var seqNum := a.Seq();
      if lastSeq == seqNum {
        return false;
      }
      lastSeq := seqNum;
      if !a.Bar? {
        log := log + [Direct(a.pkt)];
      }
      return true;
    }

    /** The end of the start-up phase: the window may start after the last forwarded frame. */
    method AdoptLastSeq(seqNum: SeqNum)
      requires 1 <= winSize <= 64 && (lastSeq < MAX_TID_VALUE || lastSeq == DEFAULT_SEQ_NUM)
      modifies this`startWin, this`laps
      ensures var rebase := lastSeq != DEFAULT_SEQ_NUM && RebaseTest(old(startWin), winSize, lastSeq, seqNum);
              && startWin == (if rebase then lastSeq + 1 else old(startWin))
              && laps == (if rebase && startWin < old(startWin) then old(laps) + 1 else old(laps))
    {
      if lastSeq != DEFAULT_SEQ_NUM {
        if RebaseTest(startWin, winSize, lastSeq, seqNum) {
          laps := if lastSeq + 1 < startWin then laps + 1 else laps;
          startWin := lastSeq + 1;
        }
      }
    }

    /** The start-up phase: `over` is false when the arrival has been dealt with. */
    method CheckStartWin(a: Arrival) returns (over: bool, accepted: bool)
      requires Valid() && checkStartWin && (a.Amsdu? ==> amsdu)
      modifies this
      ensures Valid()
      ensures over == !StillStarting(old(View()), a)
      ensures over ==> View() == EndStartUp(old(View()), a) && log == old(log)
      ensures !over ==>
                var s := Receive(old(View()), a);
                View() == s.table && log == old(log) + s.out && accepted == s.accepted
    {
      hide Inv, Receive, EndStartUp, RebaseTest;
      InvShape(View());
      EndStartUpInv(View(), a);
      ReceiveInv(View(), a);
      StartUpSteps(View(), a);
      over, accepted := true, true;
      if a.Seq() == startWin {
        checkStartWin := false;
      } else {
        pktCount := (pktCount + 1) % 256;
        if pktCount < winSize / 2 {
          over := false;
          accepted := ForwardEarly(a);
        } else {
          checkStartWin := false;
          AdoptLastSeq(a.Seq());
        }
      }
      assert slots[..] == old(slots[..]);
    }

    /** The window move of mlan_11n_rxreorder_pkt. `start` and `seqNum` are its local variables. */
    method MoveWindow(a: Arrival) returns (start: Position, seqNum: SeqNum)
      requires slots.Length == winSize && 2 <= winSize <= 64
      modifies this`startWin, this`bitmap, this`laps, this`log, slots
      ensures View() == MakeRoom(old(View()), a).0
      ensures log == old(log) + MakeRoom(old(View()), a).1
      ensures !a.Bar? ==> InsertIndex(start, seqNum) == SlotIndex(old(View()), a)
    {
      hide FlushTo, Moves, Target, SlotIndex, OutsideTest, StartFor, InsertIndex, Masked;
      MoveArithmetic(View(), a);
      seqNum := a.Seq();
      start := startWin;
      var endWin := EndWin(start, winSize);
      if a.Bar? {
        seqNum := Masked(seqNum + winSize - 1);
      }
      if OutsideTest(start, endWin, seqNum) {
        endWin := seqNum;
        start := StartFor(seqNum, winSize);
        DispatchPktUntilStartWin(start);
      }
    }

    /** The insertion of mlan_11n_rxreorder_pkt and the scan after it. */
    method Insert(ghost i: nat, start: Position, seqNum: SeqNum, a: Arrival) returns (accepted: bool)
      requires slots.Length == winSize <= 64 && i < winSize
      requires !a.Bar? ==> InsertIndex(start, seqNum) == i
      modifies this, slots
      ensures View() == Place(old(View()), i, a).table
      ensures log == old(log) + Place(old(View()), i, a).out
      ensures accepted == Place(old(View()), i, a).accepted
    {
      ghost var t := View();
      accepted := true;
      if !a.Bar? {
        var k := InsertIndex(start, seqNum);
        if slots[k].Full? {
          SettleTimerFlag();
          return false;
        }
        slots[k] := Full(a.pkt);
        bitmap := SetBit(bitmap, k);
        assert View() == Store(t, i, a.pkt);
      }
      ScanAndDispatch();
      SettleTimerFlag();
    }

    method AdmitPkt(a: Arrival) returns (accepted: bool)
      requires slots.Length == winSize && 2 <= winSize <= 64
      modifies this, slots
      ensures View() == Admit(old(View()), a).table
      ensures log == old(log) + Admit(old(View()), a).out
      ensures accepted == Admit(old(View()), a).accepted
    {
      hide MakeRoom, Place, SlotIndex;
      ghost var t := View();
      var start, seqNum := MoveWindow(a);
      ghost var t1 := View();
      accepted := Insert(SlotIndex(t, a), start, seqNum, a);
      assert old(log) + (MakeRoom(t, a).1 + Place(t1, SlotIndex(t, a), a).out)
          == old(log) + MakeRoom(t, a).1 + Place(t1, SlotIndex(t, a), a).out;
    }

    /** The reordering of mlan_11n_rxreorder_pkt, from the staleness test to the end. */
    method ReorderPkt(a: Arrival) returns (accepted: bool)
      requires slots.Length == winSize && 2 <= winSize <= 64
      modifies this, slots
      ensures View() == Reorder(old(View()), a).table
      ensures log == old(log) + Reorder(old(View()), a).out
      ensures accepted == Reorder(old(View()), a).accepted
    {
      hide Admit;
      WindowArithmetic(startWin, winSize, a.Seq());
      if forceNoDrop {
        forceNoDrop := false;
      } else if StaleTest(startWin, a.Seq()) {
        SettleTimerFlag();
        return false;
      }
      assert View() == old(View()).(forceNoDrop := false);
      accepted := AdmitPkt(a);
    }

    /** mlan_11n_rxreorder_pkt on an entry that exists */
    method RxReorderPkt(a: Arrival) returns (accepted: bool)
      requires Valid()
      modifies this, slots
      ensures Valid()
      ensures View() == Receive(old(View()), a).table
      ensures log == old(log) + Receive(old(View()), a).out
      ensures accepted == Receive(old(View()), a).accepted
    {
      ReceiveInv(View(), a);
      if a.Amsdu? && !amsdu {
        log := log + [Direct(a.pkt)];
        return true;
      }
      if checkStartWin {
        var over;
        over, accepted := CheckStartWin(a);
        if !over {
          return;
        }
      }
      accepted := ReorderPkt(a);
    }
  }
}
