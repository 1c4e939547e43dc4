/** The channel table learned from a scan: sightings, Country elements, and the final sort. */
module LearnedChannels {
  import opened Bits
  import opened Bytes
  import opened Subbands

  /** A scan table entry as it stands: the access point's channel and band, the regulatory power of that channel
      (0 if the channel is invalid), and its Country element. */
  datatype Bss = Bss(chan: byte, band: byte, txPower: byte, code: byte, len: byte, subBand: seq<SubBand>)
  {
    predicate HasCountry() {
      code != 0 && len > COUNTRY_CODE_LEN
    }

    /** The element holds the triples its length claims. */
    predicate WellSized() {
      len > COUNTRY_CODE_LEN ==> (len - COUNTRY_CODE_LEN) / 3 <= |subBand|
    }

    /** What the driver learns from it. */
    function Entry(): ScanEntry
      requires WellSized()
    {
      ScanEntry(chan, band, txPower, if HasCountry() then CountryChans(len, subBand, band) else [])
    }
  }

  predicate AllSized(scan: seq<Bss>) {
    forall k :: 0 <= k < |scan| ==> scan[k].WellSized()
  }

  function Entries(scan: seq<Bss>): (es: seq<ScanEntry>)
    requires AllSized(scan)
    ensures |es| == |scan| && forall k :: 0 <= k < |es| ==> es[k] == scan[k].Entry()
    ensures AllNumbered(es)
  {
    seq(|scan|, k requires 0 <= k < |scan| => scan[k].Entry())
  }

  /** What is learned from a scan table entry: the access point's channel and band, the regulatory power of that
      channel, and the channels of its Country element. */
  datatype ScanEntry = ScanEntry(chan: byte, band: byte, txPower: byte, country: seq<Chan>)

  /** What is known of a channel and band. */
  datatype Knowledge = Unknown | Known(pwr: byte, apSeen: bool)

  /** Index of the first row for a channel and band, or the length. */
  function IndexOfKey(rows: seq<ChanPower>, chan: nat, band: byte): (i: nat)
    ensures i <= |rows|
    ensures i < |rows| ==> rows[i].chan == chan && rows[i].band == band
    ensures forall k :: 0 <= k < i ==> !(rows[k].chan == chan && rows[k].band == band)
  {
    if rows == [] || (rows[0].chan == chan && rows[0].band == band) then 0 else 1 + IndexOfKey(rows[1..], chan, band)
  }

  function Lookup(rows: seq<ChanPower>, chan: nat, band: byte): Knowledge {
    var i := IndexOfKey(rows, chan, band);
    if i < |rows| then Known(rows[i].pwr, rows[i].apSeen) else Unknown
  }

  ghost predicate Unique(rows: seq<ChanPower>) {
    forall i, j :: 0 <= i < j < |rows| ==> !(rows[i].chan == rows[j].chan && rows[i].band == rows[j].band)
  }

  /** Channel numbers fit a byte. */
  predicate Numbered(cs: seq<Chan>) {
    forall i :: 0 <= i < |cs| ==> cs[i].num < 256
  }

  function Min(a: byte, b: byte): (m: byte)
    ensures m <= a && m <= b && (m == a || m == b)
  {
    if a < b then a else b
  }

  // ---------- The table operations, as values ----------

  /** A bare sighting, as if there were always room. */
  function Sight(rows: seq<ChanPower>, chan: byte, band: byte, txPower: byte): seq<ChanPower> {
    var i := IndexOfKey(rows, chan, band);
    if txPower == 0 then rows
    else if i < |rows| then rows[i := rows[i].(pwr := Min(rows[i].pwr, txPower), apSeen := true)]
    else rows + [ChanPower(chan, band, txPower, true)]
  }

  /** One channel of a Country element, looked for among the first `n` rows. */
  function MergeOne(rows: seq<ChanPower>, n: nat, c: Chan, band: byte): seq<ChanPower>
    requires n <= |rows| && c.num < 256
  {
    var j := IndexOfKey(rows[..n], c.num, band);
    if j < n then rows[j := rows[j].(pwr := c.pwr)] else rows + [ChanPower(c.num, band, c.pwr, false)]
  }

  function Merge(rows: seq<ChanPower>, cs: seq<Chan>, band: byte): (r: seq<ChanPower>)
    requires Numbered(cs)
    ensures |rows| <= |r| <= |rows| + |cs|
  {
    if cs == [] then rows else MergeOne(Merge(rows, cs[..|cs| - 1], band), |rows|, cs[|cs| - 1], band)
  }

  /** What of `rows` the driver's table holds. */
  function Capped(rows: seq<ChanPower>): (r: seq<ChanPower>)
    ensures |r| <= MAX_NO_OF_CHAN && (|rows| <= MAX_NO_OF_CHAN ==> r == rows)
  {
    if |rows| <= MAX_NO_OF_CHAN then rows else rows[..MAX_NO_OF_CHAN]
  }

  // ---------- What one key goes through ----------

  function Sighted(k: Knowledge, txPower: byte): Knowledge {
    if txPower == 0 then k
    else if k.Known? then Known(Min(k.pwr, txPower), true)
    else Known(txPower, true)
  }

  function Listing(k: Knowledge, pwr: byte): Knowledge {
    Known(pwr, k.Known? && k.apSeen)
  }

  /** Index of a channel in a list, or its length. */
  function Find(cs: seq<Chan>, chan: nat): (i: nat)
    ensures i <= |cs|
    ensures i < |cs| ==> cs[i].num == chan
    ensures forall k :: 0 <= k < i ==> cs[k].num != chan
  {
    if cs == [] || cs[0].num == chan then 0 else 1 + Find(cs[1..], chan)
  }

  /** How a scan entry changes what is known of one channel and band: a sighting can only lower the power and
      marks the channel seen; a Country element overrides the power. */
  function After(k: Knowledge, chan: nat, band: byte, e: ScanEntry): Knowledge {
    var k1 := if e.chan == chan && e.band == band then Sighted(k, e.txPower) else k;
    var i := Find(e.country, chan);
    if e.band == band && i < |e.country| then Listing(k1, e.country[i].pwr) else k1
  }

  /** A Country element's channels as the parser lists them in the 2.4 GHz band. */
  ghost predicate GoodCountry(cs: seq<Chan>) {
    && Numbered(cs)
    && (forall i, j :: 0 <= i < j < |cs| ==> cs[i].num < cs[j].num)
  }

  function Learn(rows: seq<ChanPower>, e: ScanEntry): seq<ChanPower>
    requires Numbered(e.country)
  {
    Merge(Sight(rows, e.chan, e.band, e.txPower), e.country, e.band)
  }

  // ---------- Lookups ----------

  lemma KeyAt(rows: seq<ChanPower>, i: nat, chan: nat, band: byte)
    requires Unique(rows) && i < |rows| && rows[i].chan == chan && rows[i].band == band
    ensures IndexOfKey(rows, chan, band) == i
  {
  }

  lemma NoKey(rows: seq<ChanPower>, chan: nat, band: byte)
    requires forall i :: 0 <= i < |rows| ==> !(rows[i].chan == chan && rows[i].band == band)
    ensures IndexOfKey(rows, chan, band) == |rows|
  {
  }

  /** Changing what a row says, but not its key. */
  lemma LookupUpdate(rows: seq<ChanPower>, i: nat, row: ChanPower, chan: nat, band: byte)
    requires Unique(rows) && i < |rows| && row.chan == rows[i].chan && row.band == rows[i].band
    ensures Unique(rows[i := row])
    ensures Lookup(rows[i := row], chan, band)
         == if chan == row.chan && band == row.band then Known(row.pwr, row.apSeen) else Lookup(rows, chan, band)
  {
    var rows' := rows[i := row];
    var j := IndexOfKey(rows, chan, band);
    if j < |rows| {
      KeyAt(rows', j, chan, band);
      KeyAt(rows, i, row.chan, row.band);
    } else {
      NoKey(rows', chan, band);
    }
  }

  lemma LookupAppend(rows: seq<ChanPower>, row: ChanPower, chan: nat, band: byte)
    requires Unique(rows) && IndexOfKey(rows, row.chan, row.band) == |rows|
    ensures Unique(rows + [row])
    ensures Lookup(rows + [row], chan, band)
         == if chan == row.chan && band == row.band then Known(row.pwr, row.apSeen) else Lookup(rows, chan, band)
  {
    var rows' := rows + [row];
    var j := IndexOfKey(rows, chan, band);
    if j < |rows| {
      KeyAt(rows', j, chan, band);
    } else if chan == row.chan && band == row.band {
      KeyAt(rows', |rows|, chan, band);
    } else {
      NoKey(rows', chan, band);
    }
  }

  /** What a sighting makes of a row, outright: with no power nothing; else the lower power, and seen. */
  lemma SightRow(rows: seq<ChanPower>, chan: byte, band: byte, txPower: byte)
    requires Unique(rows)
    ensures var before, after := Lookup(rows, chan, band), Lookup(Sight(rows, chan, band, txPower), chan, band);
            && (txPower == 0 ==> after == before)
            && (txPower != 0 ==> after.Known? && after.apSeen)
            && (txPower != 0 && before.Known? && before.pwr < txPower ==> after.pwr == before.pwr)
            && (txPower != 0 && !(before.Known? && before.pwr < txPower) ==> after.pwr == txPower)
  {
    hide Unique, Lookup, Sight;
    SightLookup(rows, chan, band, txPower, chan, band);
  }

  /** What a listing makes of a row, outright: its power, and seen only if it was. */
  lemma ListedRow(rows: seq<ChanPower>, cs: seq<Chan>, band: byte, i: nat)
    requires Unique(rows) && GoodCountry(cs) && i < |cs|
    ensures var before, after := Lookup(rows, cs[i].num, band), Lookup(Merge(rows, cs, band), cs[i].num, band);
            after == Known(cs[i].pwr, before.Known? && before.apSeen)
  {
    hide Unique, Lookup, Merge;
    MergeLookup(rows, cs, band, cs[i].num, band);
    assert Find(cs, cs[i].num) == i;
  }

  lemma SightLookup(rows: seq<ChanPower>, chan: byte, band: byte, txPower: byte, c: nat, b: byte)
    requires Unique(rows)
    ensures var rows' := Sight(rows, chan, band, txPower);
            && Unique(rows')
            && Lookup(rows', c, b)
            == if c == chan && b == band then Sighted(Lookup(rows, c, b), txPower) else Lookup(rows, c, b)
  {
    hide IndexOfKey;
    var i := IndexOfKey(rows, chan, band);
    if txPower != 0 {
      if i < |rows| {
        LookupUpdate(rows, i, rows[i].(pwr := Min(rows[i].pwr, txPower), apSeen := true), c, b);
      } else {
        LookupAppend(rows, ChanPower(chan, band, txPower, true), c, b);
      }
    }
  }

  /** Merging leaves the keys of the old rows in place, and adds keys of the list only. */
  ghost predicate MergedKeys(rows: seq<ChanPower>, cs: seq<Chan>, band: byte, r: seq<ChanPower>) {
    && |rows| <= |r|
    && (forall i :: 0 <= i < |rows| ==> r[i].chan == rows[i].chan && r[i].band == rows[i].band)
    && (forall i :: |rows| <= i < |r| ==> r[i].band == band && Find(cs, r[i].chan) < |cs|)
  }

  lemma FindSnoc(cs: seq<Chan>, c: Chan, chan: nat)
    ensures Find(cs + [c], chan) == if Find(cs, chan) < |cs| then Find(cs, chan)
                                    else if c.num == chan then |cs| else |cs| + 1
  {
    var i, j := Find(cs + [c], chan), Find(cs, chan);
    if j < |cs| {
      assert (cs + [c])[j].num == chan;
    }
    if i < |cs| {
      assert cs[i].num == chan;
    }
    assert (cs + [c])[|cs|] == c;
    assert forall k :: 0 <= k < |cs| ==> (cs + [c])[k] == cs[k];
  }

  lemma {:induction false} MergeLookup(rows: seq<ChanPower>, cs: seq<Chan>, band: byte, chan: nat, b: byte)
    requires Unique(rows) && GoodCountry(cs)
    ensures var r := Merge(rows, cs, band);
            && Unique(r) && MergedKeys(rows, cs, band, r)
            && Lookup(r, chan, b) == (var i := Find(cs, chan);
                                      if b == band && i < |cs| then Listing(Lookup(rows, chan, b), cs[i].pwr)
                                      else Lookup(rows, chan, b))
    decreases |cs|
  {
    if cs != [] {
      var init, c := cs[..|cs| - 1], cs[|cs| - 1];
      assert cs == init + [c];
      MergeLookup(rows, init, band, chan, b);
      MergeStep(rows, init, c, band, chan, b, Merge(rows, init, band));
    }
  }

  lemma MergeOneCases(r: seq<ChanPower>, n: nat, c: Chan, band: byte)
    requires n <= |r| && c.num < 256
    ensures var j := IndexOfKey(r[..n], c.num, band);
            && (j < n ==> MergeOne(r, n, c, band) == r[j := r[j].(pwr := c.pwr)])
            && (j == n ==> MergeOne(r, n, c, band) == r + [ChanPower(c.num, band, c.pwr, false)])
  {
    hide IndexOfKey;
  }

  lemma MergeStep(rows: seq<ChanPower>, cs: seq<Chan>, c: Chan, band: byte, chan: nat, b: byte, r: seq<ChanPower>)
    requires Unique(rows) && GoodCountry(cs + [c]) && Unique(r) && MergedKeys(rows, cs, band, r)
    requires Lookup(r, chan, b) == (var i := Find(cs, chan);
                                    if b == band && i < |cs| then Listing(Lookup(rows, chan, b), cs[i].pwr)
                                    else Lookup(rows, chan, b))
    ensures c.num < 256
    ensures var r' := MergeOne(r, |rows|, c, band);
            && Unique(r') && MergedKeys(rows, cs + [c], band, r')
            && Lookup(r', chan, b) == (var i := Find(cs + [c], chan);
                                       if b == band && i < |cs + [c]| then
                                         Listing(Lookup(rows, chan, b), (cs + [c])[i].pwr)
                                       else Lookup(rows, chan, b))
  {
    hide IndexOfKey, Find, Unique, GoodCountry, MergeOne;
    var n := |rows|;
    assert (cs + [c])[|cs|] == c;
    FindSnoc(cs, c, chan);
    FindSnoc(cs, c, c.num);
    LastIsNew(cs, c);
    MergeOneCases(r, n, c, band);
    var j := IndexOfKey(r[..n], c.num, band);
    if j < n {
      assert r[..n][j] == r[j];
      LookupUpdate(r, j, r[j].(pwr := c.pwr), chan, b);
      KeyAt(r, j, c.num, band);
    } else {
      assert forall i :: 0 <= i < n ==> r[..n][i] == r[i];
      NoKey(r, c.num, band);
      LookupAppend(r, ChanPower(c.num, band, c.pwr, false), chan, b);
    }
    forall i | n <= i < |r| ensures Find(cs + [c], r[i].chan) < |cs| + 1 {
      FindSnoc(cs, c, r[i].chan);
    }
  }

  lemma LastIsNew(cs: seq<Chan>, c: Chan)
    requires GoodCountry(cs + [c])
    ensures c.num < 256 && Find(cs, c.num) == |cs|
  {
    assert (cs + [c])[|cs|] == c;
    assert forall i :: 0 <= i < |cs| ==> (cs + [c])[i] == cs[i];
  }

  /** One scan entry changes each channel and band exactly as told, and the table keeps one row for each. */
  lemma LearnLookup(rows: seq<ChanPower>, e: ScanEntry, chan: nat, band: byte)
    requires Unique(rows) && GoodCountry(e.country)
    ensures Unique(Learn(rows, e))
    ensures Lookup(Learn(rows, e), chan, band) == After(Lookup(rows, chan, band), chan, band, e)
  {
    SightLookup(rows, e.chan, e.band, e.txPower, chan, band);
    MergeLookup(Sight(rows, e.chan, e.band, e.txPower), e.country, e.band, chan, band);
    hide Merge, Sight, Lookup, Find;
  }

  // ---------- The table's end ----------

  /** Merging does not write past the table: it is full, and takes nothing new, or has room for what is new. */
  predicate Fits(rows: seq<ChanPower>, cs: seq<Chan>, band: byte)
    requires Numbered(cs)
  {
    |rows| == MAX_NO_OF_CHAN || |Merge(rows, cs, band)| <= MAX_NO_OF_CHAN
  }

  /** What the driver's table holds after a scan entry. */
  function HeldLearn(rows: seq<ChanPower>, e: ScanEntry): seq<ChanPower>
    requires Numbered(e.country)
  {
    Capped(Merge(Capped(Sight(rows, e.chan, e.band, e.txPower)), e.country, e.band))
  }

  function HeldAfter(rows: seq<ChanPower>, es: seq<ScanEntry>): seq<ChanPower>
    requires AllNumbered(es)
    decreases |es|
  {
    if es == [] then rows else HeldAfter(HeldLearn(rows, es[0]), es[1..])
  }

  predicate NoOverrun(rows: seq<ChanPower>, es: seq<ScanEntry>)
    requires AllNumbered(es)
    decreases |es|
  {
    es == []
    || (Fits(Capped(Sight(rows, es[0].chan, es[0].band, es[0].txPower)), es[0].country, es[0].band)
        && NoOverrun(HeldLearn(rows, es[0]), es[1..]))
  }

  /** Every row that is learned finds room in the table. */
  predicate RoomLeft(rows: seq<ChanPower>, es: seq<ScanEntry>)
    requires AllNumbered(es)
    decreases |es|
  {
    es == [] || (|Learn(rows, es[0])| <= MAX_NO_OF_CHAN && RoomLeft(Learn(rows, es[0]), es[1..]))
  }

  /** With room for every row the table holds all that is learned. */
  lemma {:induction false} RoomHoldsAll(rows: seq<ChanPower>, es: seq<ScanEntry>)
    requires AllNumbered(es) && RoomLeft(rows, es)
    ensures NoOverrun(rows, es) && HeldAfter(rows, es) == LearnAll(rows, es)
    decreases |es|
  {
    hide Merge, Sight;
    if es != [] {
      RoomHoldsAll(Learn(rows, es[0]), es[1..]);
    }
  }

  // ---------- Every scan ----------

  predicate AllNumbered(es: seq<ScanEntry>) {
    forall k :: 0 <= k < |es| ==> Numbered(es[k].country)
  }

  function LearnAll(rows: seq<ChanPower>, es: seq<ScanEntry>): seq<ChanPower>
    requires AllNumbered(es)
    decreases |es|
  {
    if es == [] then rows else LearnAll(Learn(rows, es[0]), es[1..])
  }

  function AfterAll(k: Knowledge, chan: nat, band: byte, es: seq<ScanEntry>): Knowledge
    decreases |es|
  {
    if es == [] then k else AfterAll(After(k, chan, band, es[0]), chan, band, es[1..])
  }

  ghost predicate GoodEntries(es: seq<ScanEntry>) {
    forall k :: 0 <= k < |es| ==> GoodCountry(es[k].country)
  }

  /** Over every scan: one row for each channel and band, which says exactly what the entries, in order, made of
      it. */
  lemma {:induction false} LearnedTable(rows: seq<ChanPower>, es: seq<ScanEntry>, chan: nat, band: byte)
    requires Unique(rows) && GoodEntries(es)
    ensures Unique(LearnAll(rows, es))
    ensures Lookup(LearnAll(rows, es), chan, band) == AfterAll(Lookup(rows, chan, band), chan, band, es)
    decreases |es|
  {
    if es != [] {
      LearnLookup(rows, es[0], chan, band);
      LearnedTable(Learn(rows, es[0]), es[1..], chan, band);
    }
  }

  lemma ListedAscends(t: SubBand, room: nat, last: nat)
    requires t.first > last
    ensures AscendsFrom(Take(Listed(UnBg(), t), room), last)
  {
    BgTable();
    hide UnBg, IndexOf;
    var cs := Take(Listed(UnBg(), t), room);
    assert forall i :: 0 <= i < |cs| ==> cs[i].num == t.first + i;
  }

  lemma NothingAscends(last: nat)
    ensures AscendsFrom([], last)
  {
  }

  lemma AscendsConcat(a: seq<Chan>, b: seq<Chan>, last: nat)
    requires AscendsFrom(a, last) && AscendsFrom(b, LastOr(a, last))
    ensures AscendsFrom(a + b, last)
  {
  }

  /** A strictly ascending list above `last`. */
  ghost predicate AscendsFrom(cs: seq<Chan>, last: nat) {
    GoodCountry(cs) && forall i :: 0 <= i < |cs| ==> cs[i].num > last
  }

  /** In the 2.4 GHz table the parser's list is strictly ascending, whatever the triples. */
  lemma {:induction false} ParsedAscends(ts: seq<SubBand>, last: nat, room: nat)
    ensures AscendsFrom(Parsed(UnBg(), ts, last, room), last)
  {
    hide UnBg, Listed, Take, Parsed, AscendsFrom, LastOr;
    if ts == [] {
      ParsedNone(UnBg(), last, room);
      NothingAscends(last);
    } else {
      ParsedHead(UnBg(), ts, last, room);
      if ts[0].first <= last {
        ParsedAscends(ts[1..], last, room);
      } else {
        var more := Take(Listed(UnBg(), ts[0]), room);
        var last' := LastOr(more, last);
        ParsedAscends(ts[1..], last', room - |more|);
        ListedAscends(ts[0], room, last);
        AscendsConcat(more, Parsed(UnBg(), ts[1..], last', room - |more|), last);
      }
    }
  }

  // ---------- The sort ----------

  /** Puts `x` after the last row of no larger channel number. */
  function Insert(s: seq<ChanPower>, x: ChanPower): (r: seq<ChanPower>)
    ensures |r| == |s| + 1
  {
    if s == [] || s[|s| - 1].chan <= x.chan then s + [x] else Insert(s[..|s| - 1], x) + [s[|s| - 1]]
  }

  function Sorted(s: seq<ChanPower>): (r: seq<ChanPower>)
    ensures |r| == |s|
  {
    if s == [] then [] else Insert(Sorted(s[..|s| - 1]), s[|s| - 1])
  }

  ghost predicate AscendingRows(s: seq<ChanPower>) {
    forall i, j :: 0 <= i < j < |s| ==> s[i].chan <= s[j].chan
  }

  /** The rows of one channel, in order. */
  function OfChannel(s: seq<ChanPower>, chan: nat): seq<ChanPower> {
    if s == [] then []
    else OfChannel(s[..|s| - 1], chan) + (if s[|s| - 1].chan == chan then [s[|s| - 1]] else [])
  }

  lemma {:induction false} InsertPermutes(s: seq<ChanPower>, x: ChanPower)
    ensures multiset(Insert(s, x)) == multiset(s) + multiset{x}
  {
    if s != [] && s[|s| - 1].chan > x.chan {
      var init, z := s[..|s| - 1], s[|s| - 1];
      assert s == init + [z];
      InsertPermutes(init, x);
    }
  }

  ghost predicate AtMost(s: seq<ChanPower>, chan: nat) {
    forall i :: 0 <= i < |s| ==> s[i].chan <= chan
  }

  lemma AscendsSnoc(s: seq<ChanPower>, z: ChanPower)
    ensures AscendingRows(s + [z]) <==> AscendingRows(s) && AtMost(s, z.chan)
    ensures forall chan :: AtMost(s + [z], chan) <==> AtMost(s, chan) && z.chan <= chan
  {
    assert (s + [z])[..|s|] == s && (s + [z])[|s|] == z;
    if AscendingRows(s + [z]) {
      forall i | 0 <= i < |s| ensures s[i].chan <= z.chan { assert (s + [z])[i] == s[i]; }
    }
  }

  lemma {:induction false} InsertAscends(s: seq<ChanPower>, x: ChanPower)
    requires AscendingRows(s)
    ensures AscendingRows(Insert(s, x))
    ensures forall chan :: AtMost(s, chan) && x.chan <= chan ==> AtMost(Insert(s, x), chan)
  {
    hide AscendingRows, AtMost;
    AscendsSnoc(s, x);
    if s == [] {
      NothingAbove(x.chan);
    } else {
      var init, z := s[..|s| - 1], s[|s| - 1];
      assert s == init + [z];
      AscendsSnoc(init, z);
      if z.chan > x.chan {
        InsertAscends(init, x);
        AscendsSnoc(Insert(init, x), z);
      } else {
        AtMostAll(init, z.chan, x.chan);
      }
    }
  }

  lemma NothingAbove(chan: nat)
    ensures AscendingRows([]) && AtMost([], chan)
  {
  }

  lemma AtMostAll(s: seq<ChanPower>, lo: nat, hi: nat)
    requires AtMost(s, lo) && lo <= hi
    ensures AtMost(s, hi)
  {
  }

  lemma {:induction false} InsertStable(s: seq<ChanPower>, x: ChanPower, chan: nat)
    ensures OfChannel(Insert(s, x), chan) == OfChannel(s, chan) + (if x.chan == chan then [x] else [])
  {
    if s == [] || s[|s| - 1].chan <= x.chan {
      assert (s + [x])[..|s|] == s;
    } else {
      var init, z := s[..|s| - 1], s[|s| - 1];
      InsertStable(init, x, chan);
      assert (Insert(init, x) + [z])[..|init| + 1] == Insert(init, x);
    }
  }

  /** The key of `row` is not among the rows. */
  predicate Fresh(s: seq<ChanPower>, row: ChanPower) {
    Lookup(s, row.chan, row.band) == Unknown
  }

  lemma FreshSnoc(s: seq<ChanPower>, row: ChanPower)
    requires Unique(s + [row])
    ensures Unique(s) && Fresh(s, row)
  {
    assert (s + [row])[|s|] == row;
    assert forall i :: 0 <= i < |s| ==> (s + [row])[i] == s[i];
    NoKey(s, row.chan, row.band);
  }

  /** Where a row is inserted does not matter to what is looked up. */
  lemma {:induction false} InsertLookup(s: seq<ChanPower>, x: ChanPower, chan: nat, band: byte)
    requires Unique(s) && Fresh(s, x)
    ensures Unique(Insert(s, x))
    ensures Lookup(Insert(s, x), chan, band)
         == if chan == x.chan && band == x.band then Known(x.pwr, x.apSeen) else Lookup(s, chan, band)
  {
    hide Unique, IndexOfKey;
    if s == [] || s[|s| - 1].chan <= x.chan {
      LookupAppend(s, x, chan, band);
    } else {
      var init, z := s[..|s| - 1], s[|s| - 1];
      assert s == init + [z];
      FreshSnoc(init, z);
      LookupAppend(init, z, x.chan, x.band);
      LookupAppend(init, z, z.chan, z.band);
      LookupAppend(init, z, chan, band);
      InsertLookup(init, x, z.chan, z.band);
      InsertLookup(init, x, chan, band);
      LookupAppend(Insert(init, x), z, chan, band);
    }
  }

  /** The sort keeps one row for each channel and band, and what it says. */
  lemma {:induction false} SortLookup(s: seq<ChanPower>, chan: nat, band: byte)
    requires Unique(s)
    ensures Unique(Sorted(s)) && Lookup(Sorted(s), chan, band) == Lookup(s, chan, band)
  {
    hide Unique, IndexOfKey, Insert;
    if s != [] {
      var init, z := s[..|s| - 1], s[|s| - 1];
      assert s == init + [z];
      FreshSnoc(init, z);
      SortLookup(init, z.chan, z.band);
      SortLookup(init, chan, band);
      InsertLookup(Sorted(init), z, chan, band);
      LookupAppend(init, z, chan, band);
    }
  }

  /** The sort is an ascending permutation that keeps the order of rows of the same channel. */
  lemma {:induction false} SortIsStable(s: seq<ChanPower>, chan: nat)
    ensures AscendingRows(Sorted(s)) && multiset(Sorted(s)) == multiset(s)
    ensures OfChannel(Sorted(s), chan) == OfChannel(s, chan)
  {
    if s != [] {
      var init, z := s[..|s| - 1], s[|s| - 1];
      assert s == init + [z];
      SortIsStable(init, chan);
      InsertAscends(Sorted(init), z);
      InsertPermutes(Sorted(init), z);
      InsertStable(Sorted(init), z, chan);
    }
  }

  // ---------- The driver's table ----------

  class ChannelTable {
    const chanPwr: array<ChanPower>
    var noOfChan: nat

    ghost predicate Valid()
      reads this
    {
      chanPwr.Length == MAX_NO_OF_CHAN && noOfChan <= MAX_NO_OF_CHAN
    }

    ghost function Rows(): seq<ChanPower>
      requires Valid()
      reads this, chanPwr
    {
      chanPwr[..noOfChan]
    }

    /** wlan_11d_clear_parsedtable */
    constructor ()
      ensures Valid() && fresh(chanPwr) && Rows() == [] && chanPwr.Length == 40
    {
      chanPwr := new ChanPower[MAX_NO_OF_CHAN](_ => ChanPower(0, 0, 0, false));
      noOfChan := 0;
    }

    /** The search loops: the first row of a channel and band among the first `n`. */
    method FindRow(chan: byte, band: byte, n: nat) returns (i: nat)
      requires n <= chanPwr.Length
      ensures i == IndexOfKey(chanPwr[..n], chan, band)
    {
      i := 0;
      while i < n && !(chanPwr[i].chan == chan && chanPwr[i].band == band)
        invariant 0 <= i <= n
        invariant forall k :: 0 <= k < i ==> !(chanPwr[k].chan == chan && chanPwr[k].band == band)
      {
        i := i + 1;
      }
      assert i < n ==> chanPwr[..n][i] == chanPwr[i];
    }

    /** wlan_11d_update_chan_pwr_table */
    method UpdateChanPwrTable(chan: byte, band: byte, txPower: byte) returns (ok: bool)
      requires Valid()
      modifies this, chanPwr
      ensures Valid() && ok == (txPower != 0)
      ensures Rows() == Capped(Sight(old(Rows()), chan, band, txPower))
    {
      hide IndexOfKey;
      if txPower == 0 {
        return false;
      }
      var i := FindRow(chan, band, noOfChan);
      if i < noOfChan {
        chanPwr[i] := ChanPower(chanPwr[i].chan, chanPwr[i].band, Min(chanPwr[i].pwr, txPower), true);
      } else if i < MAX_NO_OF_CHAN {
        chanPwr[i] := ChanPower(chan, band, txPower, true);
        noOfChan := noOfChan + 1;
      }
      return true;
    }

    /** The merge loop of wlan_11d_process_country_info. Rows are looked for among those the table had. A full
        table takes no new row; one that is not full is written past its end by new rows it has no room for:
        `overrun` says that this is about to happen, and the model stops there. */
    method MergeRegion(region: array<ChanPower>, count: nat, band: byte, ghost cs: seq<Chan>) returns (overrun: bool)
      requires Valid() && region != chanPwr && count == |cs| <= region.Length
      requires forall i :: 0 <= i < count ==>
                 cs[i].num < 256 && region[i] == ChanPower(cs[i].num, band, cs[i].pwr, false)
      modifies this, chanPwr
      ensures Valid() && (overrun <==> !Fits(old(Rows()), cs, band))
      ensures !overrun ==> Rows() == Capped(Merge(old(Rows()), cs, band))
    {
      hide IndexOfKey, Merge, MergeOne;
      ghost var rows := Rows();
      var added := 0;
      MergeNone(rows, cs, band);
      for i := 0 to count
        invariant noOfChan == |rows| && added <= i && noOfChan + added <= MAX_NO_OF_CHAN
        invariant chanPwr[..noOfChan + added] == Capped(Merge(rows, cs[..i], band))
        invariant noOfChan < MAX_NO_OF_CHAN ==> |Merge(rows, cs[..i], band)| == noOfChan + added
      {
        ghost var r := Merge(rows, cs[..i], band);
        MergeSnoc(rows, cs, i, band);
        MergeGrows(rows, cs, i + 1, band);
        MergeOneCases(r, noOfChan, cs[i], band);
        var row := region[i];
        var j := FindRow(row.chan, row.band, noOfChan);
        assert chanPwr[..noOfChan] == chanPwr[..noOfChan + added][..noOfChan] == r[..noOfChan];
        if j < noOfChan {
          chanPwr[j] := chanPwr[j].(pwr := row.pwr);
        } else if j < MAX_NO_OF_CHAN {
          if noOfChan + added >= chanPwr.Length {
            return true;
          }
          chanPwr[noOfChan + added] := ChanPower(row.chan, row.band, row.pwr, false);
          added := added + 1;
        }
      }
      assert cs[..count] == cs;
      noOfChan := noOfChan + added;
      return false;
    }

    /** wlan_11d_process_country_info */
    method ProcessCountryInfo(code: byte, len: byte, subBand: seq<SubBand>, band: byte)
      returns (ok: bool, overrun: bool)
      requires Valid()
      requires len > COUNTRY_CODE_LEN ==> (len - COUNTRY_CODE_LEN) / 3 <= |subBand|
      modifies this, chanPwr
      ensures Valid() && (ok <==> code != 0 && len > COUNTRY_CODE_LEN)
      ensures !ok ==> !overrun && Rows() == old(Rows())
      ensures ok ==> var cs := CountryChans(len, subBand, band);
                     && (overrun <==> !Fits(old(Rows()), cs, band))
                     && (!overrun ==> Rows() == Capped(Merge(old(Rows()), cs, band)))
    {
      var region := new ChanPower[MAX_NO_OF_CHAN](_ => ChanPower(0, 0, 0, false));
      var count;
      ok, count := ParseDomainInfo(code, len, subBand, band, region);
      overrun := false;
      if ok {
        ghost var cs := CountryChans(len, subBand, band);
        hide CountryChans, Merge;
        if noOfChan == 0 {
          MergeEmpty(cs, band);
          forall k | 0 <= k < MAX_NO_OF_CHAN { chanPwr[k] := region[k]; }
          noOfChan := count;
        } else {
          overrun := MergeRegion(region, count, band, cs);
        }
      }
    }

    /** The loop of wlan_11d_prepare_dnld_domain_info_cmd over the scan table, and the sort after it. */
    method LearnScan(scan: seq<Bss>) returns (overrun: bool)
      requires Valid() && AllSized(scan)
      modifies this, chanPwr
      ensures Valid() && (overrun <==> !NoOverrun(old(Rows()), Entries(scan)))
      ensures !overrun ==> Rows() == Sorted(HeldAfter(old(Rows()), Entries(scan)))
    {
      hide Merge, Sight, Sorted, Bss.Entry, CountryChans, Capped;
      ghost var es := Entries(scan);
      assert es[0..] == es;
      for k := 0 to |scan|
        invariant Valid() && AllNumbered(es[k..]) && NoOverrun(Rows(), es[k..]) == NoOverrun(old(Rows()), es)
        invariant HeldAfter(Rows(), es[k..]) == HeldAfter(old(Rows()), es)
      {
        ghost var rows, e := Rows(), es[k];
        assert es[k..][0] == e && es[k..][1..] == es[k + 1..];
        EntryParts(scan[k]);
        NothingMerged(Capped(Sight(rows, e.chan, e.band, e.txPower)), e.band);
        var seen := UpdateChanPwrTable(scan[k].chan, scan[k].band, scan[k].txPower);
        if scan[k].code != 0 && scan[k].len > COUNTRY_CODE_LEN {
          var ok;
          ok, overrun := ProcessCountryInfo(scan[k].code, scan[k].len, scan[k].subBand, scan[k].band);
          if overrun {
            return;
          }
        }
        assert Rows() == HeldLearn(rows, e);
      }
      SortParsedRegionChan();
      return false;
    }

    /** The inner loop of wlan_11d_sort_parsed_region_chan: puts row `i` in its place among those before it. */
    method InsertRow(i: nat)
      requires i < chanPwr.Length
      modifies chanPwr
      ensures chanPwr[..i + 1] == Insert(old(chanPwr[..i]), old(chanPwr[i]))
      ensures chanPwr[i + 1..] == old(chanPwr[i + 1..])
    {
      hide Insert, Standing;
      ghost var t, later := chanPwr[..i], chanPwr[i + 1..];
      var temp := chanPwr[i];
      var j := i;
      InsertAll(t, temp);
      while j > 0 && chanPwr[j - 1].chan > temp.chan
        invariant 0 <= j <= i
        invariant forall k :: 0 <= k < j ==> chanPwr[k] == t[k]
        invariant forall k :: j < k <= i ==> chanPwr[k] == t[k - 1]
        invariant forall k :: i < k < chanPwr.Length ==> chanPwr[k] == later[k - i - 1]
        invariant Insert(t, temp) == Standing(t, j, temp)
      {
        InsertStep(t, j, temp);
        chanPwr[j] := chanPwr[j - 1];
        j := j - 1;
      }
      InsertStep(t, j, temp);
      chanPwr[j] := temp;
      assert chanPwr[i + 1..] == later;
      Inserted(chanPwr[..i + 1], t, j, temp);
    }

    /** wlan_11d_sort_parsed_region_chan */
    method SortParsedRegionChan()
      requires Valid()
      modifies chanPwr
      ensures Rows() == Sorted(old(Rows()))
      ensures chanPwr[noOfChan..] == old(chanPwr[noOfChan..])
    {
      hide Insert;
      ghost var s := chanPwr[..];
      SortedOne(s);
      if noOfChan == 0 {
        return;
      }
      var i := 1;
      while i < noOfChan
        invariant 1 <= i <= noOfChan
        invariant chanPwr[..i] == Sorted(s[..i])
        invariant chanPwr[i..] == s[i..]
      {
        assert s[..i + 1][..i] == s[..i] && chanPwr[i] == chanPwr[i..][0] == s[i];
        assert chanPwr[i + 1..] == chanPwr[i..][1..] == s[i + 1..];
        InsertRow(i);
        i := i + 1;
      }
    }
  }

  lemma EntryParts(b: Bss)
    requires b.WellSized()
    ensures var e := b.Entry();
            && e.chan == b.chan && e.band == b.band && e.txPower == b.txPower && Numbered(e.country)
            && e.country == if b.HasCountry() then CountryChans(b.len, b.subBand, b.band) else []
  {
    hide CountryChans;
  }

  lemma NothingMerged(rows: seq<ChanPower>, band: byte)
    requires |rows| <= MAX_NO_OF_CHAN
    ensures Merge(rows, [], band) == rows == Capped(rows)
  {
  }

  /** Entries of the 2.4 GHz bands list their countries' channels in strictly ascending order. */
  lemma BgEntries(scan: seq<Bss>)
    requires AllSized(scan) && forall k :: 0 <= k < |scan| ==> And(scan[k].band, BAND_BG) != 0
    ensures GoodEntries(Entries(scan))
  {
    hide And, Parsed, UnBg;
    forall k | 0 <= k < |scan| ensures GoodCountry(Entries(scan)[k].country) {
      var b := scan[k];
      EntryParts(b);
      if b.HasCountry() {
        ParsedAscends(b.subBand[..(b.len - COUNTRY_CODE_LEN) / 3], 0, MAX_NO_OF_CHAN);
      }
    }
  }

  /** What a 2.4 GHz scan leaves in the table: ascending channels, one row for each channel and band, and each row
      says exactly what the entries, in order, made of it. */
  lemma ScanLearned(rows: seq<ChanPower>, scan: seq<Bss>, chan: nat, band: byte)
    requires AllSized(scan) && forall k :: 0 <= k < |scan| ==> And(scan[k].band, BAND_BG) != 0
    requires Unique(rows) && RoomLeft(rows, Entries(scan))
    ensures NoOverrun(rows, Entries(scan))
    ensures var r := Sorted(HeldAfter(rows, Entries(scan)));
            && AscendingRows(r) && Unique(r)
            && Lookup(r, chan, band) == AfterAll(Lookup(rows, chan, band), chan, band, Entries(scan))
  {
    hide And, Entries, LearnAll, HeldAfter, AfterAll, Unique, Lookup, Sorted, AscendingRows, RoomLeft, NoOverrun;
    BgEntries(scan);
    RoomHoldsAll(rows, Entries(scan));
    LearnedTable(rows, Entries(scan), chan, band);
    SortIsStable(LearnAll(rows, Entries(scan)), chan);
    SortLookup(LearnAll(rows, Entries(scan)), chan, band);
  }

  lemma {:induction false} MergeGrows(rows: seq<ChanPower>, cs: seq<Chan>, i: nat, band: byte)
    requires Numbered(cs) && i <= |cs|
    ensures |Merge(rows, cs[..i], band)| <= |Merge(rows, cs, band)|
    decreases |cs| - i
  {
    if i < |cs| {
      hide Merge;
      MergeSnoc(rows, cs, i, band);
      MergeGrows(rows, cs, i + 1, band);
    } else {
      assert cs[..i] == cs;
    }
  }

  lemma MergeNone(rows: seq<ChanPower>, cs: seq<Chan>, band: byte)
    ensures cs[..0] == [] && Merge(rows, cs[..0], band) == rows
  {
  }

  lemma MergeSnoc(rows: seq<ChanPower>, cs: seq<Chan>, i: nat, band: byte)
    requires i < |cs| && Numbered(cs)
    ensures Merge(rows, cs[..i + 1], band) == MergeOne(Merge(rows, cs[..i], band), |rows|, cs[i], band)
  {
    hide MergeOne;
    assert cs[..i + 1][..i] == cs[..i] && cs[..i + 1][i] == cs[i];
  }

  /** Where the insertion stands with `j` rows left to compare. */
  function Standing(t: seq<ChanPower>, j: nat, x: ChanPower): seq<ChanPower>
    requires j <= |t|
  {
    Insert(t[..j], x) + t[j..]
  }

  lemma InsertStep(t: seq<ChanPower>, j: nat, x: ChanPower)
    requires j <= |t|
    ensures j > 0 && t[j - 1].chan > x.chan ==> Standing(t, j, x) == Standing(t, j - 1, x)
    ensures j == 0 || t[j - 1].chan <= x.chan ==> Standing(t, j, x) == t[..j] + [x] + t[j..]
  {
    if j > 0 {
      assert t[..j][..j - 1] == t[..j - 1] && t[j - 1..] == [t[j - 1]] + t[j..];
    }
  }

  lemma InsertAll(t: seq<ChanPower>, x: ChanPower)
    ensures Insert(t, x) == Standing(t, |t|, x)
  {
    hide Insert;
    assert t[..|t|] == t;
  }

  lemma Inserted(r: seq<ChanPower>, t: seq<ChanPower>, j: nat, x: ChanPower)
    requires j <= |t| && |r| == |t| + 1 && r[j] == x
    requires forall k :: 0 <= k < j ==> r[k] == t[k]
    requires forall k :: j < k <= |t| ==> r[k] == t[k - 1]
    ensures r == t[..j] + [x] + t[j..]
  {
  }

  lemma SortedOne(s: seq<ChanPower>)
    requires s != []
    ensures Sorted(s[..1]) == s[..1] && Sorted([]) == []
  {
    assert s[..1][..0] == [] && s[..1] == [s[0]];
  }

  function CountryChans(len: byte, subBand: seq<SubBand>, band: byte): (cs: seq<Chan>)
    requires len > COUNTRY_CODE_LEN && (len - COUNTRY_CODE_LEN) / 3 <= |subBand|
    ensures Numbered(cs)
  {
    Parsed(TableOf(band), subBand[..(len - COUNTRY_CODE_LEN) / 3], 0, MAX_NO_OF_CHAN)
  }

  lemma {:induction false} MergeEmpty(cs: seq<Chan>, band: byte)
    requires Numbered(cs)
    ensures |Merge([], cs, band)| == |cs|
    ensures forall i :: 0 <= i < |cs| ==> Merge([], cs, band)[i] == ChanPower(cs[i].num, band, cs[i].pwr, false)
  {
    if cs != [] {
      MergeEmpty(cs[..|cs| - 1], band);
    }
  }
}
