/** Which channels a Country element names, and that a scan leaves a row for each of them. */
module CountryLearned {
  import opened Bits
  import opened Bytes
  import opened LearnedChannels
  import opened ScanRoom
  import opened Seqs
  import opened Subbands

  /** Each triple starts at its place in the table, `at`, and beyond the last channel of the one before it. */
  ghost predicate Orderly(table: seq<byte>, ts: seq<SubBand>, at: seq<nat>, last: nat) {
    && AllPlaced(table, ts, at)
    && (ts != [] ==> ts[0].first > last)
    && (forall i :: 0 <= i < |ts| - 1 ==> ts[i + 1].first > LastOf(table, ts[i], at[i]))
  }

  ghost predicate AllPlaced(table: seq<byte>, ts: seq<SubBand>, at: seq<nat>) {
    |at| == |ts| && forall i :: 0 <= i < |ts| ==> Placed(table, ts[i], at[i])
  }

  /** The triple's first channel stands first at `p`, and the table has as many from there on. */
  ghost predicate Placed(table: seq<byte>, t: SubBand, p: nat) {
    && t.count >= 1 && p + t.count <= |table| && table[p] == t.first
    && (forall k :: 0 <= k < p ==> table[k] != t.first)
  }

  function LastOf(table: seq<byte>, t: SubBand, p: nat): nat
    requires Placed(table, t, p)
  {
    table[p + t.count - 1]
  }

  /** The channels of table[p..p + n], at one power. */
  function Segment(table: seq<byte>, p: nat, n: nat, pwr: byte): (cs: seq<Chan>)
    requires p + n <= |table|
    ensures |cs| == n && forall k :: 0 <= k < n ==> cs[k] == Chan(table[p + k], pwr)
  {
    seq(n, k requires 0 <= k < n => Chan(table[p + k], pwr))
  }

  /** The segments of all triples, one after another. */
  ghost function Segments(table: seq<byte>, ts: seq<SubBand>, at: seq<nat>): seq<Chan>
    requires AllPlaced(table, ts, at)
  {
    if ts == [] then []
    else
      assert Placed(table, ts[0], at[0]);
      Segment(table, at[0], ts[0].count, ts[0].maxPwr) + Segments(table, ts[1..], at[1..])
  }

  lemma ListedIsSegment(table: seq<byte>, t: SubBand, p: nat)
    requires Placed(table, t, p)
    ensures Listed(table, t) == Segment(table, p, t.count, t.maxPwr)
  {
    assert IndexOf(table, t.first) == p;
  }

  lemma PlacedTail(table: seq<byte>, ts: seq<SubBand>, at: seq<nat>)
    requires ts != [] && AllPlaced(table, ts, at)
    ensures |at| == |ts| && Placed(table, ts[0], at[0]) && AllPlaced(table, ts[1..], at[1..])
  {
    hide Placed;
    var ts', at' := ts[1..], at[1..];
    assert Placed(table, ts[0], at[0]);
    forall i | 0 <= i < |ts'| ensures Placed(table, ts'[i], at'[i]) {
      assert ts'[i] == ts[i + 1] && at'[i] == at[i + 1];
    }
  }

  lemma OrderlyTail(table: seq<byte>, ts: seq<SubBand>, at: seq<nat>, last: nat)
    requires ts != [] && Orderly(table, ts, at, last)
    ensures |at| == |ts| && Placed(table, ts[0], at[0]) && AllPlaced(table, ts[1..], at[1..])
    ensures Orderly(table, ts[1..], at[1..], LastOf(table, ts[0], at[0]))
  {
    hide Placed, LastOf;
    PlacedTail(table, ts, at);
    var ts', at' := ts[1..], at[1..];
    forall i | 0 <= i < |ts'| - 1 ensures ts'[i + 1].first > LastOf(table, ts'[i], at'[i]) {
      assert ts'[i] == ts[i + 1] && ts'[i + 1] == ts[i + 1 + 1] && at'[i] == at[i + 1];
    }
  }

  lemma {:induction false} NoRoom(table: seq<byte>, ts: seq<SubBand>, last: nat)
    ensures Parsed(table, ts, last, 0) == []
  {
  }

  lemma TakeConcat(a: seq<Chan>, b: seq<Chan>, room: nat)
    requires |a| <= room
    ensures Take(a + b, room) == a + Take(b, room - |a|)
  {
  }

  lemma TakeAll(a: seq<Chan>, b: seq<Chan>, room: nat)
    requires |a| >= room
    ensures Take(a + b, room) == Take(a, room) && |Take(a, room)| == room
  {
  }

  /** Orderly triples are parsed to their segments of the table, as far as there is room. */
  lemma {:induction false} SegmentsParsed(table: seq<byte>, ts: seq<SubBand>, at: seq<nat>, last: nat, room: nat)
    requires Orderly(table, ts, at, last)
    ensures Parsed(table, ts, last, room) == Take(Segments(table, ts, at), room)
    decreases |ts|
  {
    hide Placed, Listed, Take, Parsed, Orderly, Segment, LastOf;
    if ts == [] {
      ParsedNone(table, last, room);
      TakeConcat([], [], room);
    } else {
      OrderlyTail(table, ts, at, last);
      OrderlyFirst(table, ts, at, last);
      ParsedHead(table, ts, last, room);
      ListedIsSegment(table, ts[0], at[0]);
      var a, n := Segment(table, at[0], ts[0].count, ts[0].maxPwr), ts[0].count;
      var rest := Segments(table, ts[1..], at[1..]);
      if n < room {
        SegmentsParsed(table, ts[1..], at[1..], LastOf(table, ts[0], at[0]), room - n);
        TakeConcat(a, rest, room);
        TakeConcat(a, [], room);
        assert a + [] == a;
      } else {
        NoRoom(table, ts[1..], LastOr(Take(a, room), last));
        TakeAll(a, rest, room);
      }
    }
  }

  lemma OrderlyFirst(table: seq<byte>, ts: seq<SubBand>, at: seq<nat>, last: nat)
    requires ts != [] && Orderly(table, ts, at, last)
    ensures |at| == |ts| && Placed(table, ts[0], at[0])
    ensures ts[0].first > last && 1 <= ts[0].count && at[0] + ts[0].count <= |table|
    ensures Take(Segment(table, at[0], ts[0].count, ts[0].maxPwr), ts[0].count)
         == Segment(table, at[0], ts[0].count, ts[0].maxPwr)
    ensures LastOr(Segment(table, at[0], ts[0].count, ts[0].maxPwr), last) == LastOf(table, ts[0], at[0])
  {
    assert Placed(table, ts[0], at[0]);
  }

  // ---------- Scan entries ----------

  /** What is learned from an access point without a Country element: its own channel. */
  lemma NoCountry(b: Bss)
    requires b.WellSized() && (b.code == 0 || b.len <= 3)
    ensures b.Entry() == ScanEntry(b.chan, b.band, b.txPower, [])
  {
  }

  /** And from one with a Country element: the channels its triples stand for, whatever their number. */
  lemma CountryExpanded(b: Bss, ts: seq<SubBand>, cs: seq<Chan>)
    requires b.WellSized() && b.code != 0 && b.len > 3 && ts == b.subBand[..(b.len - 3) / 3] && cs == ExpandAll(ts)
    requires TableOf(b.band) != [] && Ascending(cs, TableOf(b.band)) && |cs| <= 40
    ensures b.Entry() == ScanEntry(b.chan, b.band, b.txPower, cs)
  {
    hide TableOf, Parsed, ExpandAll;
    BandTable(b.band);
    if cs != [] {
      TablesPositive(TableOf(b.band));
    }
    ParseInvertsCompress(TableOf(b.band), ts, cs, 0, MAX_NO_OF_CHAN);
  }

  lemma BandTable(band: nat)
    ensures TableOf(band) == [] || TableOf(band) == UnBg() || TableOf(band) == UnAj()
  {
    hide UnBg, UnAj;
  }

  /** Or the segments of the band's table that its triples name, as far as there is room for 40 channels. */
  lemma CountrySegments(b: Bss, ts: seq<SubBand>, at: seq<nat>)
    requires b.WellSized() && b.code != 0 && b.len > 3 && ts == b.subBand[..(b.len - 3) / 3]
    requires Orderly(TableOf(b.band), ts, at, 0)
    ensures var cs := Segments(TableOf(b.band), ts, at);
            b.Entry() == ScanEntry(b.chan, b.band, b.txPower, if |cs| <= 40 then cs else cs[..40])
  {
    hide TableOf, Parsed, Orderly, Segments;
    SegmentsParsed(TableOf(b.band), ts, at, 0, 40);
  }

  // ---------- The learned table ----------

  lemma {:induction false} KnownStays(k: Knowledge, chan: nat, band: byte, es: seq<ScanEntry>)
    requires k.Known?
    ensures AfterAll(k, chan, band, es).Known?
    decreases |es|
  {
    if es != [] {
      KnownStays(After(k, chan, band, es[0]), chan, band, es[1..]);
    }
  }

  lemma {:induction false} NamedIsKnown(k: Knowledge, chan: nat, band: byte, es: seq<ScanEntry>, m: nat)
    requires m < |es| && es[m].band == band && Find(es[m].country, chan) < |es[m].country|
    ensures AfterAll(k, chan, band, es).Known?
    decreases |es|
  {
    hide Find;
    if m == 0 {
      KnownStays(After(k, chan, band, es[0]), chan, band, es[1..]);
    } else {
      NamedIsKnown(After(k, chan, band, es[0]), chan, band, es[1..], m - 1);
    }
  }

  lemma {:induction false} LastWord(k: Knowledge, chan: nat, band: byte, es: seq<ScanEntry>)
    requires es != []
    ensures AfterAll(k, chan, band, es)
         == After(AfterAll(k, chan, band, es[..|es| - 1]), chan, band, es[|es| - 1])
    decreases |es|
  {
    hide After;
    if |es| > 1 {
      LastWord(After(k, chan, band, es[0]), chan, band, es[1..]);
      assert es[1..][..|es| - 2] == es[..|es| - 1][1..];
    }
  }

  lemma FindAscending(cs: seq<Chan>, table: seq<byte>, i: nat)
    requires Ascending(cs, table) && i < |cs|
    ensures Find(cs, cs[i].num) == i
  {
  }

  lemma RowOf(rows: seq<ChanPower>, chan: nat, band: byte)
    requires Lookup(rows, chan, band).Known?
    ensures exists j :: 0 <= j < |rows| && rows[j].chan == chan && rows[j].band == band
                        && rows[j].pwr == Lookup(rows, chan, band).pwr
  {
  }

  /** After a 2.4 GHz scan, every channel that any of the access points' triples stands for has its row; and with the
      power the triple gives, if it is the last access point's. */
  lemma EveryNamedChannel(rows: seq<ChanPower>, scan: seq<Bss>, x: byte, y: byte, m: nat, ts: seq<SubBand>, i: nat)
    requires AllSized(scan) && BgTableScan(scan, x, y) && Unique(rows) && InBands(rows, x, y)
    requires m < |scan| && scan[m].code != 0 && scan[m].len > 3 && ts == scan[m].subBand[..(scan[m].len - 3) / 3]
    requires Ascending(ExpandAll(ts), UnBg()) && i < |ExpandAll(ts)| <= 40
    ensures NoOverrun(rows, Entries(scan))
    ensures var c, r := ExpandAll(ts)[i], Sorted(HeldAfter(rows, Entries(scan)));
            exists j :: 0 <= j < |r| && r[j].chan == c.num && r[j].band == scan[m].band
                        && (m == |scan| - 1 ==> r[j].pwr == c.pwr)
  {
    hide TableOf, ExpandAll, Ascending, Entries, Sorted, HeldAfter, AfterAll, NoOverrun, Lookup, Find, UnBg, InBands,
         Unique, AllSized, Bss.Entry;
    var es, cs, b := Entries(scan), ExpandAll(ts), scan[m];
    SizedAt(scan, m);
    BgBand(scan, x, y, m);
    CountryExpanded(b, ts, cs);
    FindAscending(cs, UnBg(), i);
    var chan := cs[i].num;
    BandScanLearned(rows, scan, x, y, chan, b.band);
    NamedIsKnown(Lookup(rows, chan, b.band), chan, b.band, es, m);
    LastWord(Lookup(rows, chan, b.band), chan, b.band, es);
    RowOf(Sorted(HeldAfter(rows, es)), chan, b.band);
  }

  lemma SizedAt(scan: seq<Bss>, m: nat)
    requires AllSized(scan) && m < |scan|
    ensures scan[m].WellSized() && Entries(scan)[m] == scan[m].Entry()
  {
  }

  lemma BgBand(scan: seq<Bss>, x: byte, y: byte, m: nat)
    requires BgTableScan(scan, x, y) && m < |scan|
    ensures TableOf(scan[m].band) == UnBg() != []
  {
    hide And, BgChan;
    BgTable();
  }
}
