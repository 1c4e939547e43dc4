/** A 2.4 GHz scan never runs out of room: fourteen channels in at most two bands, one row for each. */
module ScanRoom {
  import opened Bits
  import opened Bytes
  import opened LearnedChannels
  import opened Seqs
  import opened Subbands

  /** A channel of the 2.4 GHz table. */
  predicate BgChan(chan: nat) {
    1 <= chan <= 14
  }

  /** Every row is for a 2.4 GHz channel in band `x` or band `y`. */
  ghost predicate InBands(rows: seq<ChanPower>, x: byte, y: byte) {
    forall i :: 0 <= i < |rows| ==> BgChan(rows[i].chan) && (rows[i].band == x || rows[i].band == y)
  }

  /** The entry is of band `x` or `y`, its channel is valid only if it is a 2.4 GHz channel, and its Country element
      lists such channels, in ascending order. */
  ghost predicate BgEntry(e: ScanEntry, x: byte, y: byte) {
    && (e.band == x || e.band == y)
    && (e.txPower != 0 ==> BgChan(e.chan))
    && GoodCountry(e.country) && forall i :: 0 <= i < |e.country| ==> BgChan(e.country[i].num)
  }

  // ---------- Counting rows ----------

  /** A number below 28 for each channel and band. */
  function Code(row: ChanPower, x: byte): nat
    requires BgChan(row.chan)
  {
    row.chan - 1 + (if row.band == x then 0 else 14)
  }

  ghost function Codes(rows: seq<ChanPower>, x: byte, y: byte): set<nat>
    requires InBands(rows, x, y)
  {
    if rows == [] then {} else Codes(rows[..|rows| - 1], x, y) + {Code(rows[|rows| - 1], x)}
  }

  lemma {:induction false} CodesMembers(rows: seq<ChanPower>, x: byte, y: byte, code: nat)
    requires InBands(rows, x, y)
    ensures code in Codes(rows, x, y) ==> code < 28 && exists i :: 0 <= i < |rows| && Code(rows[i], x) == code
  {
    if rows != [] {
      var init := rows[..|rows| - 1];
      CodesMembers(init, x, y, code);
      if i :| 0 <= i < |init| && Code(init[i], x) == code {
        assert rows[i] == init[i];
      }
    }
  }

  lemma {:induction false} CodesCount(rows: seq<ChanPower>, x: byte, y: byte)
    requires InBands(rows, x, y) && Unique(rows)
    ensures |Codes(rows, x, y)| == |rows|
  {
    if rows != [] {
      var init, last := rows[..|rows| - 1], rows[|rows| - 1];
      CodesCount(init, x, y);
      CodesMembers(init, x, y, Code(last, x));
      assert Code(last, x) !in Codes(init, x, y) by {
        if i :| 0 <= i < |init| && Code(init[i], x) == Code(last, x) {
          assert rows[i] == init[i];
        }
      }
    }
  }

  lemma RowsBounded(rows: seq<ChanPower>, x: byte, y: byte)
    requires InBands(rows, x, y) && Unique(rows)
    ensures |rows| <= 28
  {
    hide Numbers;
    CodesCount(rows, x, y);
    forall code | code in Codes(rows, x, y) ensures code in Numbers(0, 28) {
      CodesMembers(rows, x, y, code);
      NumbersMembers(0, 28, code);
    }
    SubsetSize(Codes(rows, x, y), Numbers(0, 28));
    NumbersSize(0, 28);
  }

  // ---------- Learning stays in the bands ----------

  lemma SightInBands(rows: seq<ChanPower>, e: ScanEntry, x: byte, y: byte)
    requires InBands(rows, x, y) && BgEntry(e, x, y)
    ensures InBands(Sight(rows, e.chan, e.band, e.txPower), x, y)
  {
    hide IndexOfKey;
  }

  lemma MergeInBands(rows: seq<ChanPower>, cs: seq<Chan>, band: byte, r: seq<ChanPower>, x: byte, y: byte)
    requires InBands(rows, x, y) && MergedKeys(rows, cs, band, r) && (band == x || band == y)
    requires forall i :: 0 <= i < |cs| ==> BgChan(cs[i].num)
    ensures InBands(r, x, y)
  {
    forall i | |rows| <= i < |r| ensures BgChan(r[i].chan) {
      assert cs[Find(cs, r[i].chan)].num == r[i].chan;
    }
  }

  lemma LearnInBands(rows: seq<ChanPower>, e: ScanEntry, x: byte, y: byte)
    requires Unique(rows) && InBands(rows, x, y) && BgEntry(e, x, y)
    ensures Unique(Learn(rows, e)) && InBands(Learn(rows, e), x, y)
  {
    hide Merge, Sight, InBands, Unique, Lookup, MergedKeys;
    var seen := Sight(rows, e.chan, e.band, e.txPower);
    SightInBands(rows, e, x, y);
    SightLookup(rows, e.chan, e.band, e.txPower, 0, 0);
    MergeLookup(seen, e.country, e.band, 0, 0);
    MergeInBands(seen, e.country, e.band, Merge(seen, e.country, e.band), x, y);
  }

  ghost predicate BgScan(es: seq<ScanEntry>, x: byte, y: byte) {
    forall k :: 0 <= k < |es| ==> BgEntry(es[k], x, y)
  }

  /** The table of 40 rows has room for every such scan. */
  lemma {:induction false} BandsFit(rows: seq<ChanPower>, es: seq<ScanEntry>, x: byte, y: byte)
    requires Unique(rows) && InBands(rows, x, y) && BgScan(es, x, y) && AllNumbered(es)
    ensures RoomLeft(rows, es)
    decreases |es|
  {
    hide Learn, InBands, Unique, BgEntry;
    if es != [] {
      LearnInBands(rows, es[0], x, y);
      RowsBounded(Learn(rows, es[0]), x, y);
      BandsFit(Learn(rows, es[0]), es[1..], x, y);
    }
  }

  // ---------- Scan tables ----------

  lemma {:induction false} ParsedInTable(table: seq<byte>, ts: seq<SubBand>, last: nat, room: nat)
    ensures forall c :: c in Parsed(table, ts, last, room) ==> c.num in table
  {
    hide Parsed, LastOr;
    if ts == [] {
      ParsedNone(table, last, room);
    } else {
      ParsedHead(table, ts, last, room);
      if ts[0].first <= last {
        ParsedInTable(table, ts[1..], last, room);
      } else {
        var more := Take(Listed(table, ts[0]), room);
        ParsedInTable(table, ts[1..], LastOr(more, last), room - |more|);
        ListedInTable(table, ts[0], room);
      }
    }
  }

  lemma ListedInTable(table: seq<byte>, t: SubBand, room: nat)
    ensures forall c :: c in Take(Listed(table, t), room) ==> c.num in table
  {
  }

  lemma InBgTable(chan: nat)
    requires chan in UnBg()
    ensures BgChan(chan)
  {
    BgTable();
    hide UnBg;
    var i :| 0 <= i < |UnBg()| && UnBg()[i] == chan;
  }

  /** A scan table of one or two 2.4 GHz bands, with a power for 2.4 GHz channels only. */
  ghost predicate BgTableScan(scan: seq<Bss>, x: byte, y: byte) {
    && And(x, BAND_BG) != 0 && And(y, BAND_BG) != 0
    && forall k :: 0 <= k < |scan| ==>
         (scan[k].band == x || scan[k].band == y) && (scan[k].txPower != 0 ==> BgChan(scan[k].chan))
  }

  lemma EntryInBands(b: Bss, x: byte, y: byte)
    requires b.WellSized() && BgTableScan([b], x, y)
    ensures BgEntry(b.Entry(), x, y)
  {
    hide And, Parsed, UnBg, BgChan;
    assert [b][0] == b;
    EntryParts(b);
    if b.HasCountry() {
      var ts := b.subBand[..(b.len - COUNTRY_CODE_LEN) / 3];
      ParsedAscends(ts, 0, MAX_NO_OF_CHAN);
      ParsedInTable(UnBg(), ts, 0, MAX_NO_OF_CHAN);
      var cs := b.Entry().country;
      forall i | 0 <= i < |cs| ensures BgChan(cs[i].num) {
        assert cs[i] in cs;
        InBgTable(cs[i].num);
      }
    }
  }

  lemma {:induction false} LearnAllInBands(rows: seq<ChanPower>, es: seq<ScanEntry>, x: byte, y: byte)
    requires Unique(rows) && InBands(rows, x, y) && BgScan(es, x, y) && AllNumbered(es)
    ensures InBands(LearnAll(rows, es), x, y)
    decreases |es|
  {
    hide Learn, InBands, Unique, BgEntry;
    if es != [] {
      LearnInBands(rows, es[0], x, y);
      LearnAllInBands(Learn(rows, es[0]), es[1..], x, y);
    }
  }

  lemma SortedInBands(rows: seq<ChanPower>, x: byte, y: byte)
    requires InBands(rows, x, y)
    ensures InBands(Sorted(rows), x, y)
  {
    hide Sorted;
    SortIsStable(rows, 0);
    var r := Sorted(rows);
    forall i | 0 <= i < |r| ensures BgChan(r[i].chan) && (r[i].band == x || r[i].band == y) {
      assert r[i] in multiset(r);
      assert r[i] in multiset(rows);
      assert r[i] in rows;
    }
  }

  /** What a scan of one or two 2.4 GHz bands leaves in the table, from an empty one or one learned from such scans:
      nothing is written past its end and nothing is left out. The table can be learned into again. */
  lemma BandScanLearned(rows: seq<ChanPower>, scan: seq<Bss>, x: byte, y: byte, chan: nat, band: byte)
    requires AllSized(scan) && BgTableScan(scan, x, y) && Unique(rows) && InBands(rows, x, y)
    ensures NoOverrun(rows, Entries(scan))
    ensures var r := Sorted(HeldAfter(rows, Entries(scan)));
            && AscendingRows(r) && Unique(r) && InBands(r, x, y)
            && Lookup(r, chan, band) == AfterAll(Lookup(rows, chan, band), chan, band, Entries(scan))
  {
    hide And, Sorted, HeldAfter, LearnAll, AscendingRows, Lookup, AfterAll, NoOverrun, RoomLeft, BgEntry, Unique,
         InBands, Bss.Entry;
    forall k | 0 <= k < |scan| ensures BgEntry(Entries(scan)[k], x, y) {
      assert [scan[k]][0] == scan[k];
      EntryInBands(scan[k], x, y);
    }
    BandsFit(rows, Entries(scan), x, y);
    ScanLearned(rows, scan, chan, band);
    RoomHoldsAll(rows, Entries(scan));
    LearnAllInBands(rows, Entries(scan), x, y);
    SortedInBands(LearnAll(rows, Entries(scan)), x, y);
  }
}
