/** When learning a scan writes past the channel table: exactly by counting new channels. */
module ScanOverrun {
  import opened Bits
  import opened Bytes
  import opened LearnedChannels
  import opened Subbands

  /** The listed channel is in no row of the band. */
  predicate IsNew(rows: seq<ChanPower>, c: Chan, band: byte) {
    IndexOfKey(rows, c.num, band) == |rows|
  }

  /** How many of the listed channels are new. */
  function NewChannels(rows: seq<ChanPower>, cs: seq<Chan>, band: byte): nat {
    if cs == [] then 0
    else NewChannels(rows, cs[..|cs| - 1], band) + (if IsNew(rows, cs[|cs| - 1], band) then 1 else 0)
  }

  predicate SameKeys(rows: seq<ChanPower>, r: seq<ChanPower>) {
    |rows| <= |r| && forall k :: 0 <= k < |rows| ==> r[k].chan == rows[k].chan && r[k].band == rows[k].band
  }

  lemma SameIndex(rows: seq<ChanPower>, r: seq<ChanPower>, chan: nat, band: byte)
    requires SameKeys(rows, r)
    ensures IndexOfKey(r[..|rows|], chan, band) == IndexOfKey(rows, chan, band)
  {
    hide IndexOfKey;
    assert forall k :: 0 <= k < |rows| ==> r[..|rows|][k] == r[k];
  }

  /** Merging adds one row for every new channel. */
  lemma {:induction false} MergeSize(rows: seq<ChanPower>, cs: seq<Chan>, band: byte)
    requires Numbered(cs)
    ensures SameKeys(rows, Merge(rows, cs, band))
    ensures |Merge(rows, cs, band)| == |rows| + NewChannels(rows, cs, band)
    decreases |cs|
  {
    hide IndexOfKey, MergeOne;
    if cs != [] {
      var init, c := cs[..|cs| - 1], cs[|cs| - 1];
      MergeSize(rows, init, band);
      var r := Merge(rows, init, band);
      SameIndex(rows, r, c.num, band);
      MergeOneCases(r, |rows|, c, band);
    }
  }

  lemma MergeStepSize(rows: seq<ChanPower>, cs: seq<Chan>, i: nat, band: byte)
    requires Numbered(cs) && i < |cs|
    ensures |Merge(rows, cs[..i + 1], band)|
         == |Merge(rows, cs[..i], band)| + (if IsNew(rows, cs[i], band) then 1 else 0)
  {
    hide Merge, IsNew;
    MergeSize(rows, cs[..i], band);
    MergeSize(rows, cs[..i + 1], band);
    assert cs[..i + 1][..i] == cs[..i] && cs[..i + 1][i] == cs[i];
  }

  /** Every row the merge loop appends to a table that is not full is written inside the table. */
  ghost predicate WritesInside(rows: seq<ChanPower>, cs: seq<Chan>, band: byte)
    requires Numbered(cs)
  {
    forall i :: 0 <= i < |cs| && IsNew(rows, cs[i], band) ==> |Merge(rows, cs[..i], band)| < MAX_NO_OF_CHAN
  }

  lemma {:induction false} InsideSoFar(rows: seq<ChanPower>, cs: seq<Chan>, i: nat, band: byte)
    requires Numbered(cs) && i <= |cs| && |rows| <= MAX_NO_OF_CHAN && WritesInside(rows, cs, band)
    ensures |Merge(rows, cs[..i], band)| <= MAX_NO_OF_CHAN
  {
    hide Merge, IsNew;
    if i > 0 {
      InsideSoFar(rows, cs, i - 1, band);
      MergeStepSize(rows, cs, i - 1, band);
    } else {
      MergeNone(rows, cs, band);
    }
  }

  /** The merge loop stays inside the table exactly when the table is full, or every row it appends is written
      inside, or, counted before the loop, there is room for the new channels. */
  lemma FitsExactly(rows: seq<ChanPower>, cs: seq<Chan>, band: byte)
    requires Numbered(cs) && |rows| <= MAX_NO_OF_CHAN
    ensures Fits(rows, cs, band) <==> |rows| == MAX_NO_OF_CHAN || WritesInside(rows, cs, band)
    ensures Fits(rows, cs, band)
       <==> |rows| == MAX_NO_OF_CHAN || |rows| + NewChannels(rows, cs, band) <= MAX_NO_OF_CHAN
  {
    hide Merge, IsNew, NewChannels;
    MergeSize(rows, cs, band);
    assert cs[..|cs|] == cs;
    if WritesInside(rows, cs, band) {
      InsideSoFar(rows, cs, |cs|, band);
    }
    if |Merge(rows, cs, band)| <= MAX_NO_OF_CHAN {
      forall i | 0 <= i < |cs| && IsNew(rows, cs[i], band) ensures |Merge(rows, cs[..i], band)| < MAX_NO_OF_CHAN {
        MergeStepSize(rows, cs, i, band);
        MergeGrows(rows, cs, i + 1, band);
      }
    }
  }

  // ---------- A scan ----------

  /** The table when the k-th entry's Country element is merged. */
  function TableAt(rows: seq<ChanPower>, es: seq<ScanEntry>, k: nat): seq<ChanPower>
    requires AllNumbered(es) && k < |es|
  {
    Capped(Sight(HeldAfter(rows, es[..k]), es[k].chan, es[k].band, es[k].txPower))
  }

  /** The k-th entry's element finds the table full, or room for its new channels. */
  predicate RoomAt(rows: seq<ChanPower>, es: seq<ScanEntry>, k: nat)
    requires AllNumbered(es) && k < |es|
  {
    var held := TableAt(rows, es, k);
    |held| == MAX_NO_OF_CHAN || |held| + NewChannels(held, es[k].country, es[k].band) <= MAX_NO_OF_CHAN
  }

  lemma RoomAtNext(rows: seq<ChanPower>, es: seq<ScanEntry>, k: nat)
    requires AllNumbered(es) && 0 < k < |es|
    ensures RoomAt(rows, es, k) == RoomAt(HeldLearn(rows, es[0]), es[1..], k - 1)
  {
    hide HeldLearn, NewChannels, Capped, Sight;
    assert es[..k][0] == es[0] && es[..k][1..] == es[1..][..k - 1] && es[1..][k - 1] == es[k];
  }

  /** Learning a scan stays inside the table exactly when every Country element does. */
  lemma {:induction false} NoOverrunExactly(rows: seq<ChanPower>, es: seq<ScanEntry>)
    requires AllNumbered(es)
    ensures NoOverrun(rows, es) <==> forall k :: 0 <= k < |es| ==> RoomAt(rows, es, k)
    decreases |es|
  {
    hide HeldLearn, NewChannels, Capped, Sight, Fits, RoomAt;
    if es != [] {
      FirstRoom(rows, es);
      var rows', later := HeldLearn(rows, es[0]), es[1..];
      NoOverrunExactly(rows', later);
      forall k | 0 < k < |es| ensures RoomAt(rows, es, k) == RoomAt(rows', later, k - 1) {
        RoomAtNext(rows, es, k);
      }
      if forall k :: 0 <= k < |es| ==> RoomAt(rows, es, k) {
        forall k | 0 <= k < |later| ensures RoomAt(rows', later, k) {
          assert RoomAt(rows, es, k + 1);
        }
      }
    }
  }

  lemma FirstRoom(rows: seq<ChanPower>, es: seq<ScanEntry>)
    requires AllNumbered(es) && es != []
    ensures RoomAt(rows, es, 0)
       <==> Fits(Capped(Sight(rows, es[0].chan, es[0].band, es[0].txPower)), es[0].country, es[0].band)
  {
    hide NewChannels, Sight, Fits, Capped;
    assert es[..0] == [];
    FitsExactly(Capped(Sight(rows, es[0].chan, es[0].band, es[0].txPower)), es[0].country, es[0].band);
  }

  // ---------- A scan that overruns ----------

  /** If all rows of the band are for channel `x`, and the list names `x` at most at place `m`, all but that one are
      new. */
  lemma {:induction false} AlmostAllNew(rows: seq<ChanPower>, cs: seq<Chan>, band: byte, x: nat, m: nat)
    requires forall i :: 0 <= i < |rows| && rows[i].band == band ==> rows[i].chan == x
    requires forall i :: 0 <= i < |cs| && cs[i].num == x ==> i == m
    ensures NewChannels(rows, cs, band) >= |cs| - (if m < |cs| then 1 else 0)
  {
    if cs != [] {
      AlmostAllNew(rows, cs[..|cs| - 1], band, x, m);
      if cs[|cs| - 1].num != x {
        NoKey(rows, cs[|cs| - 1].num, band);
      }
    }
  }

  lemma {:induction false} MergeKeepsBand(rows: seq<ChanPower>, cs: seq<Chan>, band: byte)
    requires Numbered(cs) && forall i :: 0 <= i < |rows| ==> rows[i].band == band
    ensures forall i :: 0 <= i < |Merge(rows, cs, band)| ==> Merge(rows, cs, band)[i].band == band
    decreases |cs|
  {
    hide IndexOfKey, MergeOne;
    if cs != [] {
      MergeKeepsBand(rows, cs[..|cs| - 1], band);
      MergeOneCases(Merge(rows, cs[..|cs| - 1], band), |rows|, cs[|cs| - 1], band);
    }
  }

  /** A triple that starts at the head of a band's table and names all of it. */
  lemma WholeTable(b: Bss)
    requires b.code != 0 && b.len == 6 && |b.subBand| == 1
    requires var table, t := TableOf(b.band), b.subBand[0];
             t.first > 0 && IndexOf(table, t.first) == 0 && 1 <= t.count == |table| <= MAX_NO_OF_CHAN
    ensures var table, cs := TableOf(b.band), b.Entry().country;
            |cs| == |table| && forall i :: 0 <= i < |cs| ==> cs[i].num == table[i]
  {
    hide TableOf, IndexOf, Parsed;
    EntryParts(b);
    var table, t := TableOf(b.band), b.subBand[0];
    var ts := b.subBand[..(b.len - COUNTRY_CODE_LEN) / 3];
    assert ts == [t] && ts[1..] == [];
    ParsedListed(table, ts, Listed(table, t), 0, MAX_NO_OF_CHAN);
    ParsedNone(table, Listed(table, t)[t.count - 1].num, MAX_NO_OF_CHAN - t.count);
  }

  lemma TwoTables()
    ensures TableOf(2) == UnBg() && TableOf(4) == UnAj()
    ensures |UnBg()| == 14 && IndexOf(UnBg(), 1) == 0 && forall i :: 0 <= i < 14 && UnBg()[i] == 1 ==> i == 0
    ensures |UnAj()| == 31 && IndexOf(UnAj(), 8) == 0 && forall i :: 0 <= i < 31 && UnAj()[i] == 36 ==> i == 7
  {
    assert And(2, BAND_BG) == 2 && And(4, BAND_BG) == 0 && And(4, BAND_A) == 4;
  }

  /** An access point on channel 1 whose Country element lists all fourteen 2.4 GHz channels, and one on channel 36
      whose element lists all thirty-one of the 5 GHz table, call for 45 rows of 40. */
  lemma OverrunExample(scan: seq<Bss>)
    requires scan == [Bss(1, 2, 20, 85, 6, [SubBand(1, 14, 20)]), Bss(36, 4, 20, 85, 6, [SubBand(8, 31, 20)])]
    ensures AllSized(scan) && !NoOverrun([], Entries(scan))
  {
    hide TableOf, UnBg, UnAj, IndexOf, Parsed, NoOverrun, CountryChans;
    TwoTables();
    WholeTable(scan[0]);
    WholeTable(scan[1]);
    EntryParts(scan[0]);
    EntryParts(scan[1]);
    SecondHasNoRoom(Entries(scan));
    NoOverrunExactly([], Entries(scan));
  }

  lemma SecondHasNoRoom(es: seq<ScanEntry>)
    requires |es| == 2 && AllNumbered(es) && es[0].txPower != 0 && es[1].txPower != 0 && es[0].band != es[1].band
    requires |es[0].country| == 14 && forall i :: 0 <= i < 14 && es[0].country[i].num == es[0].chan ==> i == 0
    requires |es[1].country| == 31 && forall i :: 0 <= i < 31 && es[1].country[i].num == es[1].chan ==> i == 7
    ensures !RoomAt([], es, 1)
  {
    hide Merge, NewChannels, IndexOfKey;
    assert es[..1] == [es[0]] && es[..1][1..] == [];
    var first := [ChanPower(es[0].chan, es[0].band, es[0].txPower, true)];
    assert Sight([], es[0].chan, es[0].band, es[0].txPower) == first;
    AlmostAllNew(first, es[0].country, es[0].band, es[0].chan, 0);
    MergeSize(first, es[0].country, es[0].band);
    MergeKeepsBand(first, es[0].country, es[0].band);
    var rows := Merge(first, es[0].country, es[0].band);
    assert |rows| <= 15;
    assert HeldAfter([], es[..1]) == HeldLearn([], es[0]) == rows;
    NoKey(rows, es[1].chan, es[1].band);
    var held := rows + [ChanPower(es[1].chan, es[1].band, es[1].txPower, true)];
    assert TableAt([], es, 1) == held;
    AlmostAllNew(held, es[1].country, es[1].band, es[1].chan, 7);
  }
}
