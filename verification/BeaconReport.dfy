/** 802.11k beacon reports: how large one entry's report is, and how a scan table is split over a bounded
    buffer. */
module BeaconReport {
  import opened Bytes
  import opened Seqs

  const BUF_SIZE: nat := 1400
  /** What the driver takes to be enough room for one more report. */
  const SUFFICIENT: nat := 250
  const FIXED: nat := 31          // measurement report header and beacon report fields
  const FRAME_BODY: nat := 14     // subelement header, TSF, beacon interval, capabilities
  const MOBILITY_DOMAIN_SIZE: nat := 5
  const RM_CAP_SIZE: nat := 7
  const WMM_SIZE: nat := 26
  const LAST_INDICATION_SIZE: nat := 7
  const EMPTY_REPORT: nat := 5

  const SSID: byte := 0
  const RSN_IE: byte := 48
  const MOBILITY_DOMAIN: byte := 54
  const RRM_ENABLED_CAP: byte := 70
  const VENDOR_SPECIFIC: byte := 221

  datatype Detail = None | AsRequest | AllFields

  /** The beacon request, as far as matching and sizes go. `bits` are the element numbers asked for. */
  datatype Request = Request(bssid: seq<byte>, ssid: seq<byte>, detail: Detail, bits: set<byte>, lastInd: bool)

  /** A scan table entry: its addresses, and the sizes of the elements it would contribute. */
  datatype Bss = Bss(mac: seq<byte>, ssid: seq<byte>, rsnLen: nat, mobDomainExist: bool, rmCapExist: bool,
                     wpaLen: nat, wmmExist: bool, vendorLen: nat)

  const BROADCAST: seq<byte> := [255, 255, 255, 255, 255, 255]

  /** wlan_rrm_matched_ap_found */
  predicate Matches(req: Request, e: Bss) {
    (req.bssid == BROADCAST || req.bssid == e.mac) && (req.ssid == [] || req.ssid == e.ssid)
  }

  // ---------- The size of one report ----------

  predicate Wanted(req: Request, element: byte) {
    req.detail.AllFields? || element in req.bits
  }

  /** The builder's position in the room it has, and whether it has given up on further elements. */
  datatype Progress = Progress(pos: nat, stopped: bool)

  /** One element: it asks for `guard` bytes, and takes `size` of them. The first element without room ends the
      report. */
  function AddElement(p: Progress, present: bool, guard: nat, size: nat, room: nat): (r: Progress)
    requires size <= guard && p.pos <= room
    ensures p.pos <= r.pos <= room
  {
    if p.stopped || !present then p
    else if p.pos + guard > room then p.(stopped := true)
    else p.(pos := p.pos + size)
  }

  /** wlan_add_rm_beacon_report: how far it advances the buffer position, given `room` bytes. It never passes the
      end of the room, as long as that holds the fixed part. */
  function ReportSize(req: Request, e: Bss, room: nat): (n: nat)
    requires room >= FIXED
    ensures FIXED <= n <= room
  {
    if req.detail.None? || FIXED + FRAME_BODY > room then FIXED
    else
      var vendor := Wanted(req, VENDOR_SPECIFIC);
      var p := Progress(FIXED + FRAME_BODY, false);
      var p := AddElement(p, Wanted(req, SSID), 2 + |e.ssid|, 2 + |e.ssid|, room);
      var p := AddElement(p, Wanted(req, RSN_IE) && e.rsnLen > 0, e.rsnLen, e.rsnLen, room);
      var p := AddElement(p, Wanted(req, MOBILITY_DOMAIN), MOBILITY_DOMAIN_SIZE,
                          if e.mobDomainExist then MOBILITY_DOMAIN_SIZE else 0, room);
      var p := AddElement(p, Wanted(req, RRM_ENABLED_CAP), RM_CAP_SIZE, if e.rmCapExist then RM_CAP_SIZE else 0, room);
      var p := AddElement(p, vendor && e.wpaLen > 0, e.wpaLen, e.wpaLen, room);
      var p := AddElement(p, vendor, WMM_SIZE, if e.wmmExist then WMM_SIZE else 0, room);
      var p := AddElement(p, vendor && e.vendorLen > 0, e.vendorLen, e.vendorLen, room);
      AddElement(p, req.lastInd, LAST_INDICATION_SIZE, LAST_INDICATION_SIZE, room).pos
  }

  // ---------- Splitting a scan table ----------

  /** One entry's report in a buffer: which entry, where, and how long. */
  datatype Piece = Piece(index: nat, at: nat, size: nat)

  /** A report frame that is sent. */
  datatype Report = Report(pieces: seq<Piece>, length: nat)

  /** The pieces lie one behind the other from 0 to `end`; each found at least 250 bytes free and stays in the
      buffer. */
  ghost predicate Packed(req: Request, table: seq<Bss>, pieces: seq<Piece>, end: nat) {
    if pieces == [] then end == 0
    else
      var last := pieces[|pieces| - 1];
      && last.at + 250 <= 1400 && last.at + last.size == end <= 1400
      && last.index < |table| && last.size == ReportSize(req, table[last.index], 1400 - last.at)
      && Packed(req, table, pieces[..|pieces| - 1], last.at)
  }

  function Indices(pieces: seq<Piece>): (s: seq<nat>)
    ensures |s| == |pieces|
  {
    seq(|pieces|, i requires 0 <= i < |pieces| => pieces[i].index)
  }

  function AllIndices(reports: seq<Report>): seq<nat> {
    if reports == [] then []
    else AllIndices(reports[..|reports| - 1]) + Indices(reports[|reports| - 1].pieces)
  }

  /** The indices of the first `n` entries that match, in table order. */
  function Matching(req: Request, table: seq<Bss>, n: nat): seq<nat>
    requires n <= |table|
  {
    if n == 0 then []
    else Matching(req, table, n - 1) + (if Matches(req, table[n - 1]) then [n - 1] else [])
  }

  ghost predicate GoodReport(req: Request, table: seq<Bss>, r: Report) {
    r.pieces != [] && Packed(req, table, r.pieces, r.length)
  }

  /** wlan_process_rm_beacon_report_table: the reports sent for a scan table. */
  method ProcessReportTable(req: Request, table: seq<Bss>) returns (reports: seq<Report>)
    ensures AllIndices(reports) == Matching(req, table, |table|)
    ensures Matching(req, table, |table|) == [] ==> reports == [Report([], 5)]
    ensures Matching(req, table, |table|) != [] ==>
              reports != [] && forall k :: 0 <= k < |reports| ==> GoodReport(req, table, reports[k])
    ensures forall k :: 0 <= k < |reports| - 1 ==> reports[k].length + 250 > 1400
  {
    hide ReportSize, Matches, Packed, AllIndices, Listed, Matching;
    reports := [];
    var pieces: seq<Piece>, pos: nat := [], 0;
    NothingListed(req, table);
    for i := 0 to |table|
      invariant pos <= BUF_SIZE && Packed(req, table, pieces, pos) && (pos == 0 <==> pieces == [])
      invariant i < |table| && Matches(req, table[i]) ==> pos + SUFFICIENT <= BUF_SIZE
      invariant i == |table| ==> pieces == []
      invariant Listed(reports, pieces) == Matching(req, table, i)
      invariant forall k :: 0 <= k < |reports| ==> GoodReport(req, table, reports[k])
      invariant forall k :: 0 <= k < |reports| && (i < |table| || k < |reports| - 1) ==>
                  reports[k].length + SUFFICIENT > BUF_SIZE
    {
      MatchingNext(req, table, i);
      if Matches(req, table[i]) {
        var n := ReportSize(req, table[i], BUF_SIZE - pos);
        AddOne(req, table, reports, pieces, pos, i);
        pieces := pieces + [Piece(i, pos, n)];
        pos := pos + n;
      }
      if pos + SUFFICIENT > BUF_SIZE && i < |table| - 1 && Matches(req, table[i + 1]) {
        SendOne(req, table, reports, pieces, pos);
        reports := reports + [Report(pieces, pos)];
        pieces, pos := [], 0;
      }
      // After the last entry the buffer is not used again, whether it is emptied or not.
      if i == |table| - 1 && pos > 0 {
        SendOne(req, table, reports, pieces, pos);
        reports := reports + [Report(pieces, pos)];
        pieces, pos := [], 0;
      }
    }
    AllListed(reports);
    if reports == [] {
      AllListed([Report([], EMPTY_REPORT)]);
      reports := [Report([], EMPTY_REPORT)];
    }
  }

  /** The entries in the reports sent, and then those in the buffer. */
  function Listed(reports: seq<Report>, pieces: seq<Piece>): seq<nat> {
    AllIndices(reports) + Indices(pieces)
  }

  lemma NothingListed(req: Request, table: seq<Bss>)
    ensures Packed(req, table, [], 0) && Listed([], []) == [] && Matching(req, table, 0) == []
  {
  }

  lemma MatchingNext(req: Request, table: seq<Bss>, i: nat)
    requires i < |table|
    ensures Matching(req, table, i + 1)
         == if Matches(req, table[i]) then Matching(req, table, i) + [i] else Matching(req, table, i)
  {
    hide Matches;
  }

  lemma AddOne(req: Request, table: seq<Bss>, reports: seq<Report>, pieces: seq<Piece>, end: nat, i: nat)
    requires Packed(req, table, pieces, end) && end + SUFFICIENT <= BUF_SIZE && i < |table|
    ensures var n := ReportSize(req, table[i], BUF_SIZE - end);
            && Packed(req, table, pieces + [Piece(i, end, n)], end + n)
            && Listed(reports, pieces + [Piece(i, end, n)]) == Listed(reports, pieces) + [i]
  {
    hide ReportSize, AllIndices;
    var piece := Piece(i, end, ReportSize(req, table[i], BUF_SIZE - end));
    assert (pieces + [piece])[..|pieces|] == pieces;
    assert Indices(pieces + [piece]) == Indices(pieces) + [i];
    ConcatAssociates(AllIndices(reports), Indices(pieces), [i]);
  }

  lemma SendOne(req: Request, table: seq<Bss>, reports: seq<Report>, pieces: seq<Piece>, end: nat)
    requires Packed(req, table, pieces, end) && pieces != []
    ensures Listed(reports + [Report(pieces, end)], []) == Listed(reports, pieces)
    ensures GoodReport(req, table, Report(pieces, end)) && Packed(req, table, [], 0)
  {
    assert (reports + [Report(pieces, end)])[..|reports|] == reports;
    assert Indices([]) == [];
  }

  lemma AllListed(reports: seq<Report>)
    ensures Listed(reports, []) == AllIndices(reports)
    ensures reports == [] ==> AllIndices(reports) == []
    ensures |reports| == 1 && reports[0].pieces == [] ==> AllIndices(reports) == []
    ensures reports != [] && reports[|reports| - 1].pieces != [] ==> AllIndices(reports) != []
  {
    assert Indices([]) == [];
    if |reports| == 1 {
      assert reports[..0] == [];
    }
  }

  /** Every matching entry is in the reports exactly once, and no other entry is. */
  lemma {:induction false} MatchingExactly(req: Request, table: seq<Bss>, n: nat)
    requires n <= |table|
    ensures var m := Matching(req, table, n);
            && (forall k :: 0 <= k < |m| ==> m[k] < n && Matches(req, table[m[k]]))
            && (forall j, k :: 0 <= j < k < |m| ==> m[j] < m[k])
            && (forall i :: 0 <= i < n && Matches(req, table[i]) ==> i in m)
            && (forall i :: 0 <= i < n ==> (i in m <==> Sought(req, table[i])))
  {
    if n > 0 {
      MatchingExactly(req, table, n - 1);
    }
  }

  /** The request is for the entry's address or for any, and for its name or for any. */
  ghost predicate Sought(req: Request, e: Bss) {
    (req.bssid == e.mac || req.bssid == [255, 255, 255, 255, 255, 255]) && (req.ssid == e.ssid || |req.ssid| == 0)
  }

  // ---------- The size of one report, outright ----------

  /** A part of a report: whether it is to be there, the room it asks for, and what it takes. */
  datatype Part = Part(present: bool, guard: nat, size: nat)

  predicate AsksFor(req: Request, element: byte) {
    req.detail == AllFields || element in req.bits
  }

  /** The elements in their order: name, RSN, mobility domain, RM capabilities, the three vendor elements, and the
      indication of the last report. */
  function Parts(req: Request, e: Bss): (s: seq<Part>)
    ensures |s| == 8
  {
    [Part(AsksFor(req, 0), 2 + |e.ssid|, 2 + |e.ssid|),
     Part(AsksFor(req, 48) && e.rsnLen > 0, e.rsnLen, e.rsnLen),
     Part(AsksFor(req, 54), 5, if e.mobDomainExist then 5 else 0),
     Part(AsksFor(req, 70), 7, if e.rmCapExist then 7 else 0),
     Part(AsksFor(req, 221) && e.wpaLen > 0, e.wpaLen, e.wpaLen),
     Part(AsksFor(req, 221), 26, if e.wmmExist then 26 else 0),
     Part(AsksFor(req, 221) && e.vendorLen > 0, e.vendorLen, e.vendorLen),
     Part(req.lastInd, 7, 7)]
  }

  function Total(parts: seq<Part>, n: nat): nat
    requires n <= |parts|
  {
    if n == 0 then 0
    else Total(parts, n - 1) + (if parts[n - 1].present then parts[n - 1].size else 0)
  }

  /** The first `n` parts find the room they ask for, from `base` on, and the one after them, if any, does not. */
  ghost predicate EndsAfter(parts: seq<Part>, base: nat, room: nat, n: nat) {
    && n <= |parts|
    && (forall k :: 0 <= k < n && parts[k].present ==> base + Total(parts, k) + parts[k].guard <= room)
    && (n < |parts| ==> parts[n].present && base + Total(parts, n) + parts[n].guard > room)
  }

  /** The builder after `n` parts. */
  ghost predicate Built(parts: seq<Part>, base: nat, room: nat, n: nat, p: Progress) {
    && n <= |parts|
    && if p.stopped then exists k :: 0 <= k < n && EndsAfter(parts, base, room, k) && p.pos == base + Total(parts, k)
       else p.pos == base + Total(parts, n)
            && forall k :: 0 <= k < n && parts[k].present ==> base + Total(parts, k) + parts[k].guard <= room
  }

  lemma PartAdded(parts: seq<Part>, base: nat, room: nat, n: nat, p: Progress)
    requires n < |parts| && parts[n].size <= parts[n].guard && p.pos <= room && Built(parts, base, room, n, p)
    ensures Built(parts, base, room, n + 1, AddElement(p, parts[n].present, parts[n].guard, parts[n].size, room))
  {
    if !p.stopped && parts[n].present && p.pos + parts[n].guard > room {
      assert EndsAfter(parts, base, room, n);
    }
  }

  lemma AddAll(parts: seq<Part>, base: nat, room: nat) returns (p: Progress, n: nat)
    requires base <= room && |parts| == 8 && forall k :: 0 <= k < 8 ==> parts[k].size <= parts[k].guard
    ensures base <= p.pos <= room && EndsAfter(parts, base, room, n) && p.pos == base + Total(parts, n)
    ensures p == Adding(parts, base, room, 8)
  {
    hide EndsAfter;
    p := Progress(base, false);
    for i := 0 to 8
      invariant base <= p.pos <= room && Built(parts, base, room, i, p) && p == Adding(parts, base, room, i)
    {
      PartAdded(parts, base, room, i, p);
      p := AddElement(p, parts[i].present, parts[i].guard, parts[i].size, room);
    }
    if p.stopped {
      n :| 0 <= n < 8 && EndsAfter(parts, base, room, n) && p.pos == base + Total(parts, n);
    } else {
      n := 8;
      AllFit(parts, base, room);
    }
  }

  lemma AllFit(parts: seq<Part>, base: nat, room: nat)
    requires forall k :: 0 <= k < |parts| && parts[k].present ==> base + Total(parts, k) + parts[k].guard <= room
    ensures EndsAfter(parts, base, room, |parts|)
  {
  }

  function Adding(parts: seq<Part>, base: nat, room: nat, n: nat): (p: Progress)
    requires n <= |parts| && base <= room && forall k :: 0 <= k < n ==> parts[k].size <= parts[k].guard
    ensures p.pos <= room
  {
    if n == 0 then Progress(base, false)
    else
      AddElement(Adding(parts, base, room, n - 1), parts[n - 1].present, parts[n - 1].guard, parts[n - 1].size, room)
  }

  /** How large a report is: 31 bytes if no detail is asked for or there is no room for 14 more; else 45 and every
      wanted element up to the first that finds too little room. */
  lemma SizeExactly(req: Request, e: Bss, room: nat) returns (n: nat)
    requires room >= 31
    ensures req.detail == None || room < 45 ==> ReportSize(req, e, room) == 31
    ensures req.detail != None && room >= 45 ==>
              EndsAfter(Parts(req, e), 45, room, n) && ReportSize(req, e, room) == 45 + Total(Parts(req, e), n)
  {
    n := 0;
    if req.detail != None && room >= 45 {
      hide EndsAfter, Total, AddElement;
      var p;
      p, n := AddAll(Parts(req, e), 45, room);
      SizeIsAdding(req, e, room);
    }
  }

  lemma SizeIsAdding(req: Request, e: Bss, room: nat)
    requires room >= 45 && req.detail != None
    ensures ReportSize(req, e, room) == Adding(Parts(req, e), 45, room, 8).pos
  {
    hide AddElement, Adding;
    var parts := Parts(req, e);
    AddingNext(parts, 45, room, 0);
    AddingNext(parts, 45, room, 1);
    AddingNext(parts, 45, room, 2);
    AddingNext(parts, 45, room, 3);
    AddingNext(parts, 45, room, 4);
    AddingNext(parts, 45, room, 5);
    AddingNext(parts, 45, room, 6);
    AddingNext(parts, 45, room, 7);
  }

  lemma AddingNext(parts: seq<Part>, base: nat, room: nat, n: nat)
    requires n < |parts| && base <= room && forall k :: 0 <= k <= n ==> parts[k].size <= parts[k].guard
    ensures n == 0 ==> Adding(parts, base, room, n) == Progress(base, false)
    ensures Adding(parts, base, room, n + 1)
         == AddElement(Adding(parts, base, room, n), parts[n].present, parts[n].guard, parts[n].size, room)
  {
    hide AddElement;
  }

  /** And 45 and all wanted elements if they all fit. */
  lemma SizeWhenAllFit(req: Request, e: Bss, room: nat)
    requires req.detail != None && room >= 45
    requires forall k :: 0 <= k < 8 && Parts(req, e)[k].present ==>
               45 + Total(Parts(req, e), k) + Parts(req, e)[k].guard <= room
    ensures ReportSize(req, e, room) == 45 + Total(Parts(req, e), 8)
  {
    hide ReportSize, Total, Parts;
    var n := SizeExactly(req, e, room);
  }
}
