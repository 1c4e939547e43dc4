/** The receive reorder buffer of one (transmitter, TID) pair, as values: what each event does to the
    buffer, stated with distances on the circle of 4096 sequence numbers. The class in
    RxReorderTable.dfy, which works on an array with the driver's own comparisons, is proved against
    these functions; RxReorderRuns.dfy proves what holds over every run of events. */
module RxReorderModel {
  import opened Bits

  const MAX_TID_VALUE: nat := 4096
  const TWOPOW11: nat := 2048
  const DEFAULT_SEQ_NUM: nat := 0xffff

  type SeqNum = n: nat | n < 4096

  /** A received frame: its 12-bit sequence number and the identity of its buffer. */
  datatype Packet = Packet(seqNum: SeqNum, id: nat)

  datatype Slot = Empty | Full(pkt: Packet)

  /** A frame handed to the upper layer: out of the window, at an unwrapped sequence position, or
      forwarded without reordering. */
  datatype Delivery = InWindow(pos: nat, pkt: Packet) | Direct(pkt: Packet)

  /** `laps` counts how often the window start has passed 4095. The driver has no such field; it exists
      to say what "in order" means across the wrap. */
  datatype Table = Table(
    winSize: nat, startWin: Position, lastSeq: nat, slots: seq<Slot>, bitmap: nat, timerIsSet: bool,
    amsdu: bool, forceNoDrop: bool, checkStartWin: bool, pktCount: nat, laps: nat)
  {
    /** The unwrapped window start. */
    function Base(): nat {
      MAX_TID_VALUE * laps + startWin
    }
  }

  datatype Arrival = Data(pkt: Packet) | Amsdu(pkt: Packet) | Bar(number: SeqNum)
  {
    function Seq(): SeqNum {
      if Bar? then number else pkt.seqNum
    }
  }

  datatype Event =
    | Arrive(arrival: Arrival)
    | TimerFires
    | ReAddba(ssn: SeqNum)
    | HostSleepActivated
    | AddbaCompleted(amsduAllowed: bool)

  /** `accepted` is false when the driver answers MLAN_STATUS_FAILURE. */
  datatype Step = Step(table: Table, out: seq<Delivery>, refused: seq<Packet>, accepted: bool)

  // ---------- The circle of sequence numbers ----------

  type Position = n: nat | n <= 4096

  /** How far forward `to` is from `from`: their difference modulo 4096. */
  function Distance(from: Position, to: SeqNum): SeqNum {
    if to >= from then to - from else to + MAX_TID_VALUE - from
  }

  /** The sequence number `d` places after `from`. */
  function Plus(from: Position, d: nat): SeqNum
    requires d <= MAX_TID_VALUE - 1
  {
    if from + d < MAX_TID_VALUE then from + d else from + d - MAX_TID_VALUE
  }

  /** The numbers a receiver takes for old ones: the half circle behind the window start. The opposite
      point is old only when the window start is in the upper half. */
  predicate Stale(startWin: Position, seqNum: SeqNum) {
    var d := Distance(startWin, seqNum);
    d > TWOPOW11 || (d == TWOPOW11 && startWin >= TWOPOW11)
  }

  // ---------- Slots ----------

  function Empties(n: nat): (s: seq<Slot>)
    ensures |s| == n
    ensures forall i :: 0 <= i < n ==> s[i] == Empty
  {
    seq(n, _ => Empty)
  }

  predicate AllEmpty(slots: seq<Slot>) {
    forall i :: 0 <= i < |slots| ==> slots[i] == Empty
  }

  /** The frames in `slots`, in slot order, slot 0 being at position `base`. */
  function Deliveries(slots: seq<Slot>, base: nat): seq<Delivery> {
    if slots == [] then []
    else (if slots[0].Full? then [InWindow(base, slots[0].pkt)] else []) + Deliveries(slots[1..], base + 1)
  }

  /** The frames in `slots`, in slot order. */
  function HeldPackets(slots: seq<Slot>): seq<Packet> {
    if slots == [] then []
    else (if slots[0].Full? then [slots[0].pkt] else []) + HeldPackets(slots[1..])
  }

  /** Length of the run of full slots at the front. */
  function RunLength(slots: seq<Slot>): (n: nat)
    ensures n <= |slots|
    ensures forall i :: 0 <= i < n ==> slots[i].Full?
    ensures n < |slots| ==> slots[n] == Empty
  {
    if slots == [] || slots[0] == Empty then 0 else 1 + RunLength(slots[1..])
  }

  /** Index of the last full slot, or -1. */
  function LastFull(slots: seq<Slot>): (i: int)
    ensures -1 <= i < |slots|
    ensures i >= 0 ==> slots[i].Full?
    ensures forall k :: i < k < |slots| ==> slots[k] == Empty
  {
    if slots == [] then -1
    else if slots[|slots| - 1].Full? then |slots| - 1
    else LastFull(slots[..|slots| - 1])
  }

  /** The occupancy bitmap a slot sequence calls for. */
  function BitmapOf(slots: seq<Slot>): nat {
    if slots == [] then 0 else (if slots[0].Full? then 1 else 0) + 2 * BitmapOf(slots[1..])
  }

  // ---------- Window moves ----------

  /** Drops the first `n` slots and moves the window start to `newStart`. */
  function Advance(t: Table, n: nat, newStart: Position): Table
    requires n <= |t.slots|
  {
    t.(slots := t.slots[n..] + Empties(n),
       bitmap := ShiftRight(t.bitmap, n),
       startWin := newStart,
       laps := if newStart < t.startWin then t.laps + 1 else t.laps)
  }

  /** Number of slots emptied by a move to `newStart`: the distance when the move does not pass 4095,
      and the whole window when it does. */
  function FlushCount(t: Table, newStart: SeqNum): (n: nat)
    ensures n <= t.winSize
    ensures t.winSize >= 1 ==> n >= 1
  {
    if newStart > t.startWin && newStart - t.startWin < t.winSize then newStart - t.startWin else t.winSize
  }

  function FlushTo(t: Table, newStart: SeqNum): (r: (Table, seq<Delivery>))
    requires |t.slots| == t.winSize
    ensures |r.0.slots| == t.winSize
  {
    var n := FlushCount(t, newStart);
    (Advance(t, n, newStart), Deliveries(t.slots[..n], t.Base()))
  }

  function Scan(t: Table): (r: (Table, seq<Delivery>))
    requires |t.slots| <= 64
    ensures |r.0.slots| == |t.slots|
  {
    var n := RunLength(t.slots);
    (Advance(t, n, Plus(t.startWin, n)), Deliveries(t.slots[..n], t.Base()))
  }

  /** The timer is armed exactly when the bitmap is non-zero. */
  function SettleTimer(t: Table): Table {
    t.(timerIsSet := t.bitmap != 0)
  }

  // ---------- Events ----------

  /** Where the last frame of the window would be for this arrival: its own number, or, for a BAR with
      number s, the end of a window that starts at s. */
  function Reach(t: Table, a: Arrival): SeqNum
    requires 1 <= t.winSize <= 64
  {
    var d := Distance(t.startWin, a.Seq());
    if a.Bar? then Plus(d, t.winSize - 1) else d
  }

  predicate Moves(t: Table, a: Arrival)
    requires 1 <= t.winSize <= 64
  {
    Reach(t, a) >= t.winSize
  }

  /** The window start that puts the arrival in the last slot. */
  function Target(t: Table, a: Arrival): SeqNum
    requires 1 <= t.winSize <= 64 && Moves(t, a)
  {
    Plus(t.startWin, Reach(t, a) - t.winSize + 1)
  }

  predicate Refuses(t: Table, a: Arrival) {
    !t.forceNoDrop && Stale(t.startWin, a.Seq())
  }

  function Packets(a: Arrival): seq<Packet> {
    if a.Bar? then [] else [a.pkt]
  }

  /** Moves the window so that the arrival fits. */
  function MakeRoom(t: Table, a: Arrival): (r: (Table, seq<Delivery>))
    requires |t.slots| == t.winSize && 1 <= t.winSize <= 64
    ensures |r.0.slots| == t.winSize
  {
    if Moves(t, a) then FlushTo(t, Target(t, a)) else (t, [])
  }

  function SlotIndex(t: Table, a: Arrival): (i: nat)
    requires 1 <= t.winSize <= 64
    ensures i < t.winSize
  {
    if Moves(t, a) then t.winSize - 1 else Reach(t, a)
  }

  function Store(t: Table, i: nat, p: Packet): Table
    requires i < |t.slots|
  {
    t.(slots := t.slots[i := Full(p)], bitmap := SetBit(t.bitmap, i))
  }

  /** Puts a frame in its slot, unless the slot is taken, and dispatches the run at the front. */
  function Place(t: Table, i: nat, a: Arrival): Step
    requires i < |t.slots| <= 64
  {
    if !a.Bar? && t.slots[i].Full? then
      Step(SettleTimer(t), [], [a.pkt], false)
    else
      var (t', run) := Scan(if a.Bar? then t else Store(t, i, a.pkt));
      Step(SettleTimer(t'), run, [], true)
  }

  /** An arrival that is not refused as old: the window moves to include it, and it is placed. */
  function Admit(t: Table, a: Arrival): Step
    requires |t.slots| == t.winSize && 1 <= t.winSize <= 64
  {
    var (t', flushed) := MakeRoom(t, a);
    var s := Place(t', SlotIndex(t, a), a);
    s.(out := flushed + s.out)
  }

  /** The reordering proper, once start-up is over. */
  function Reorder(t: Table, a: Arrival): Step
    requires |t.slots| == t.winSize && 1 <= t.winSize <= 64
  {
    if Refuses(t, a) then Step(SettleTimer(t), [], Packets(a), false)
    else Admit(t.(forceNoDrop := false), a)
  }

  /** Start-up: until the frame at the window start arrives, or half a window of frames has passed,
      frames are forwarded as they come. */
  predicate StillStarting(t: Table, a: Arrival) {
    t.checkStartWin && a.Seq() != t.startWin && (t.pktCount + 1) % 256 < t.winSize / 2
  }

  /** A later window start is adopted if the last forwarded frame lies in the window (its last slot
      excepted), or if the arrival lies numerically between that frame and the window start. */
  predicate Rebases(t: Table, a: Arrival)
    requires 1 <= t.winSize <= 64
  {
    && a.Seq() != t.startWin
    && t.lastSeq < MAX_TID_VALUE
    && (Distance(t.startWin, t.lastSeq) < t.winSize - 1 || t.lastSeq < a.Seq() < t.startWin)
  }

  function EndStartUp(t: Table, a: Arrival): (r: Table)
    requires 1 <= t.winSize <= 64
    ensures r.slots == t.slots && r.winSize == t.winSize
  {
    var t1 := t.(checkStartWin := false,
                 pktCount := if a.Seq() == t.startWin then t.pktCount else (t.pktCount + 1) % 256);
    // The new start is one past the last forwarded number and is not masked: it can be 4096.
    if Rebases(t, a) then Advance(t1, 0, t.lastSeq + 1)
    else t1
  }

  function Receive(t: Table, a: Arrival): Step
    requires |t.slots| == t.winSize && 1 <= t.winSize <= 64
  {
    if a.Amsdu? && !t.amsdu then
      Step(t, [Direct(a.pkt)], [], true)
    else if StillStarting(t, a) then
      var t1 := t.(pktCount := (t.pktCount + 1) % 256);
      if t.lastSeq == a.Seq() then Step(t1, [], Packets(a), false)
      else Step(t1.(lastSeq := a.Seq()), if a.Bar? then [] else [Direct(a.pkt)], [], true)
    else
      Reorder(if t.checkStartWin then EndStartUp(t, a) else t, a)
  }

  /** The flush timer: everything up to the last full slot is dispatched. */
  function Flush(t: Table): (r: (Table, seq<Delivery>))
    requires |t.slots| == t.winSize <= 64
    ensures |r.0.slots| == t.winSize
  {
    var t1 := t.(timerIsSet := false);
    var last := LastFull(t.slots);
    if last < 0 then (t1, []) else FlushTo(t1, Plus(t.startWin, last + 1))
  }

  function Apply(t: Table, e: Event): Step
    requires |t.slots| == t.winSize && 1 <= t.winSize <= 64
  {
    match e
    case Arrive(a) => Receive(t, a)
    case TimerFires => var (t1, out) := Flush(t); Step(t1, out, [], true)
    case ReAddba(ssn) => var (t1, out) := FlushTo(t, ssn); Step(t1, out, [], true)
    case HostSleepActivated => Step(t.(forceNoDrop := true), [], [], true)
    case AddbaCompleted(flag) => Step(t.(amsdu := flag), [], [], true)
  }

  /** Tearing the entry down outside a reset: the whole window is dispatched. */
  function Drain(t: Table): (r: (Table, seq<Delivery>))
    requires |t.slots| == t.winSize <= 64
    ensures |r.0.slots| == t.winSize
  {
    FlushTo(t, Plus(t.startWin, t.winSize))
  }

  // ---------- The invariant ----------

  /** What holds between events. */
  ghost predicate Inv(t: Table) {
    && 2 <= t.winSize <= 64
    && |t.slots| == t.winSize
    && (t.startWin == MAX_TID_VALUE ==> AllEmpty(t.slots))
    && (t.checkStartWin ==> AllEmpty(t.slots) && t.startWin < MAX_TID_VALUE)
    && (t.lastSeq < MAX_TID_VALUE || t.lastSeq == DEFAULT_SEQ_NUM)
    && t.pktCount < 256
    && InPlace(t)
    && t.bitmap == BitmapOf(t.slots)
    && (!AllEmpty(t.slots) ==> t.timerIsSet)
  }

  /** A frame in slot i has sequence number startWin + i. */
  ghost predicate InPlace(t: Table) {
    forall i :: 0 <= i < |t.slots| <= 64 && t.slots[i].Full? ==> t.slots[i].pkt.seqNum == Plus(t.startWin, i)
  }
}
