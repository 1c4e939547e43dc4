/** 802.11d sub-band triples: the compression of a channel list, and the parser that expands triples over
    the universal channel tables. */
module Subbands {
  import opened Bits
  import opened Bytes
  import opened Seqs

  const MAX_NO_OF_CHAN: nat := 40
  const COUNTRY_CODE_LEN: nat := 3
  const BAND_BG: nat := 11   // BAND_B | BAND_G | BAND_GN
  const BAND_A: nat := 20    // BAND_A | BAND_AN

  datatype ChanPower = ChanPower(chan: byte, band: byte, pwr: byte, apSeen: bool)
  datatype SubBand = SubBand(first: byte, count: byte, maxPwr: byte)
  /** A channel and its power. */
  datatype Chan = Chan(num: nat, pwr: byte)

  function Chans(rows: seq<ChanPower>): (cs: seq<Chan>)
    ensures |cs| == |rows|
    ensures forall i :: 0 <= i < |rows| ==> cs[i] == Chan(rows[i].chan, rows[i].pwr)
  {
    seq(|rows|, i requires 0 <= i < |rows| => Chan(rows[i].chan, rows[i].pwr))
  }

  // ---------- Compression ----------

  /** What a triple stands for. */
  function Expand(t: SubBand): (cs: seq<Chan>)
    ensures |cs| == t.count
    ensures forall i :: 0 <= i < |cs| ==> cs[i] == Chan(t.first + i, t.maxPwr)
  {
    seq(t.count, i requires 0 <= i => Chan(t.first + i, t.maxPwr))
  }

  function ExpandAll(ts: seq<SubBand>): seq<Chan> {
    if ts == [] then [] else Expand(ts[0]) + ExpandAll(ts[1..])
  }

  /** The second triple starts where the first ends, at the same power. */
  predicate Mergeable(t: SubBand, u: SubBand) {
    u.first == t.first + t.count && u.maxPwr == t.maxPwr
  }

  /** `ts` stands for `cs`, with no empty triple and no two neighbours that could be one. */
  ghost predicate Compressed(ts: seq<SubBand>, cs: seq<Chan>) {
    && ExpandAll(ts) == cs
    && (forall i :: 0 <= i < |ts| ==> ts[i].count >= 1)
    && (forall i :: 0 <= i < |ts| - 1 ==> !Mergeable(ts[i], ts[i + 1]))
  }

  lemma CompressedTail(ts: seq<SubBand>, cs: seq<Chan>)
    requires Compressed(ts, cs)
    ensures ts == [] ==> cs == []
    ensures ts != [] ==> 1 <= ts[0].count <= |cs|
    ensures ts != [] ==> Compressed(ts[1..], cs[ts[0].count..]) && cs[..ts[0].count] == Expand(ts[0])
  {
  }

  /** There is only one such compression of a list. */
  lemma {:induction false} CompressionUnique(ts: seq<SubBand>, us: seq<SubBand>, cs: seq<Chan>)
    requires Compressed(ts, cs) && Compressed(us, cs)
    ensures ts == us
  {
    if ts == [] {
      if us != [] {
        CompressedTail(us, cs);
      }
    } else {
      CompressedTail(ts, cs);
      if us != [] {
        CompressedTail(us, cs);
        assert cs[0] == Expand(ts[0])[0] == Expand(us[0])[0];
        FirstNotShorter(ts, us, cs);
        FirstNotShorter(us, ts, cs);
        CompressionUnique(ts[1..], us[1..], cs[ts[0].count..]);
        assert ts == [ts[0]] + ts[1..] && us == [us[0]] + us[1..];
      }
    }
  }

  lemma FirstNotShorter(ts: seq<SubBand>, us: seq<SubBand>, cs: seq<Chan>)
    requires Compressed(ts, cs) && Compressed(us, cs) && ts != [] && us != []
    requires ts[0].first == us[0].first && ts[0].maxPwr == us[0].maxPwr
    ensures ts[0].count >= us[0].count
  {
    CompressedTail(ts, cs);
    CompressedTail(us, cs);
    var n := ts[0].count;
    if n < us[0].count {
      assert cs[..us[0].count][n] == Expand(us[0])[n];
      CompressedTail(ts[1..], cs[n..]);
    }
  }

  lemma ExpandAllHead(ts: seq<SubBand>)
    ensures ExpandAll([]) == []
    ensures ts != [] ==> ExpandAll(ts) == Expand(ts[0]) + ExpandAll(ts[1..])
  {
  }

  lemma {:induction false} ExpandAllConcat(ts: seq<SubBand>, us: seq<SubBand>)
    ensures ExpandAll(ts + us) == ExpandAll(ts) + ExpandAll(us)
  {
    hide ExpandAll, Expand;
    ExpandAllHead(ts);
    if ts == [] {
      assert ts + us == us;
    } else {
      ExpandAllHead(ts + us);
      TailOfConcat(ts, us);
      ExpandAllConcat(ts[1..], us);
      ConcatAssociates(Expand(ts[0]), ExpandAll(ts[1..]), ExpandAll(us));
    }
  }

  /** One more channel joins the last triple, or opens a new one. */
  lemma Extend(done: seq<SubBand>, open: SubBand, cs: seq<Chan>, c: Chan)
    requires Compressed(done + [open], cs) && c.num < 256 && open.count < 255
    ensures c.num == open.first + open.count && c.pwr == open.maxPwr ==>
              Compressed(done + [open.(count := open.count + 1)], cs + [c])
    ensures !(c.num == open.first + open.count && c.pwr == open.maxPwr) ==>
              Compressed(done + [open] + [SubBand(c.num, 1, c.pwr)], cs + [c])
  {
    ExpandAllConcat(done, [open]);
    assert ExpandAll([open]) == Expand(open) + [];
    if c.num == open.first + open.count && c.pwr == open.maxPwr {
      var longer := open.(count := open.count + 1);
      ExpandAllConcat(done, [longer]);
      assert ExpandAll([longer]) == Expand(longer) + [];
      assert Expand(longer) == Expand(open) + [c];
      var a, b := done + [open], done + [longer];
      assert forall i :: 0 <= i < |done| ==> a[i] == b[i];
      forall i | 0 <= i < |b| - 1 ensures !Mergeable(b[i], b[i + 1]) {
        assert !Mergeable(a[i], a[i + 1]) && a[i + 1].first == b[i + 1].first && a[i + 1].maxPwr == b[i + 1].maxPwr;
      }
    } else {
      var next := SubBand(c.num, 1, c.pwr);
      ExpandAllConcat(done + [open], [next]);
      assert ExpandAll([next]) == Expand(next) + [];
      assert Expand(next) == [c];
    }
  }

  /** The loop of wlan_11d_generate_domain_info: fills `subBand` from the first `n` rows of `chanPwr`. */
  method GenerateDomainInfo(chanPwr: array<ChanPower>, n: nat, subBand: array<SubBand>) returns (noOfSubBand: nat)
    requires n <= chanPwr.Length && n <= MAX_NO_OF_CHAN && n <= subBand.Length
    modifies subBand
    ensures noOfSubBand <= n
    ensures Compressed(subBand[..noOfSubBand], Chans(chanPwr[..n]))
    ensures forall k :: noOfSubBand <= k < subBand.Length ==> subBand[k] == SubBand(0, 0, 0)
  {
    hide Compressed;
    forall k | 0 <= k < subBand.Length { subBand[k] := SubBand(0, 0, 0); }
    noOfSubBand := 0;
    var first: byte, next: byte, maxPwr: byte, count: byte := 0, 0, 0, 0;
    var flag := false;
    CompressedEmpty();
    assert Chans(chanPwr[..0]) == [];
    assert subBand[..0] == [];
    for i := 0 to n
      invariant noOfSubBand + (if flag then 1 else 0) <= i && (flag <==> i > 0)
      invariant flag ==> count <= i && next + 1 == first + count
      invariant Compressed(if flag then subBand[..noOfSubBand] + [SubBand(first, count, maxPwr)] else [],
                           Chans(chanPwr[..i]))
      invariant forall k :: noOfSubBand <= k < subBand.Length ==> subBand[k] == SubBand(0, 0, 0)
    {
      var row := chanPwr[i];
      ghost var c, cs := Chan(row.chan, row.pwr), Chans(chanPwr[..i]);
      ghost var done, open := subBand[..noOfSubBand], SubBand(first, count, maxPwr);
      assert Chans(chanPwr[..i + 1]) == cs + [c];
      if !flag {
        CompressedOne(c);
        flag := true;
        first, next, maxPwr, count := row.chan, row.chan, row.pwr, 1;
        assert cs == [] && cs + [c] == [c];
        assert subBand[..noOfSubBand] + [SubBand(first, count, maxPwr)] == [SubBand(c.num, 1, c.pwr)];
      } else {
        Extend(done, open, cs, c);
        if row.chan == next + 1 && row.pwr == maxPwr {
          next := next + 1;
          count := count + 1;
        } else {
          subBand[noOfSubBand] := SubBand(first, count, maxPwr);
          noOfSubBand := noOfSubBand + 1;
          assert subBand[..noOfSubBand] == done + [open];
          first, next, maxPwr, count := row.chan, row.chan, row.pwr, 1;
        }
      }
    }
    if flag {
      ghost var done := subBand[..noOfSubBand];
      subBand[noOfSubBand] := SubBand(first, count, maxPwr);
      noOfSubBand := noOfSubBand + 1;
      assert subBand[..noOfSubBand] == done + [SubBand(first, count, maxPwr)];
    }
  }

  lemma CompressedEmpty()
    ensures Compressed([], [])
  {
  }

  lemma CompressedOne(c: Chan)
    requires c.num < 256
    ensures Compressed([SubBand(c.num, 1, c.pwr)], [c])
  {
    assert Expand(SubBand(c.num, 1, c.pwr)) == [c];
  }

  // ---------- The universal tables ----------

  function UnBg(): seq<byte> {
    [1, 2, 3, 4, 5, 6, 7, 8, 9, 10, 11, 12, 13, 14]
  }

  function AjLow(): seq<byte> {
    [8, 12, 16, 34, 38, 42, 46, 36, 40, 44, 48]
  }

  function AjMiddle(): seq<byte> {
    [52, 56, 60, 64, 100, 104, 108, 112, 116]
  }

  function AjHigh(): seq<byte> {
    [120, 124, 128, 132, 136, 140, 149, 153, 157, 161, 165]
  }

  function UnAj(): seq<byte> {
    AjLow() + AjMiddle() + AjHigh()
  }

  /** The table of a band; none for a band that has no table. */
  function TableOf(band: nat): seq<byte> {
    if And(band, BAND_BG) != 0 then UnBg() else if And(band, BAND_A) != 0 then UnAj() else []
  }

  /** Position of the first entry equal to `chan`, or the length of the table. */
  function IndexOf(table: seq<byte>, chan: byte): (i: nat)
    ensures i <= |table|
    ensures i < |table| ==> table[i] == chan
    ensures forall k :: 0 <= k < i ==> table[k] != chan
  {
    if table == [] || table[0] == chan then 0 else 1 + IndexOf(table[1..], chan)
  }

  /** wlan_11d_get_chan: the `k`-th channel from `first` on in the table of the band. */
  method GetChan(band: nat, first: byte, k: nat) returns (found: bool, chan: byte)
    ensures var table := TableOf(band); var i := IndexOf(table, first);
            && (found <==> i + k < |table| && i < |table|)
            && (found ==> chan == table[i + k])
  {
    hide And, UnBg, UnAj, IndexOf;
    var cfp: seq<byte>;
    if And(band, BAND_BG) != 0 {
      cfp := UnBg();
    } else if And(band, BAND_A) != 0 {
      cfp := UnAj();
    } else {
      return false, 0;
    }
    var i := 0;
    while i < |cfp| && cfp[i] != first
      invariant 0 <= i <= |cfp|
      invariant forall k :: 0 <= k < i ==> cfp[k] != first
    {
      i := i + 1;
    }
    assert i == IndexOf(cfp, first);
    if i < |cfp| && i + k < |cfp| {
      return true, cfp[i + k];
    }
    return false, 0;
  }

  /** The channels a triple names in a table: as many as the table has, from the triple's first on. */
  function Listed(table: seq<byte>, t: SubBand): (cs: seq<Chan>)
    ensures |cs| <= t.count && forall k :: 0 <= k < |cs| ==> cs[k].num < 256
    ensures var i := IndexOf(table, t.first);
            |cs| == if i + t.count <= |table| then t.count else |table| - i
    ensures forall k :: 0 <= k < |cs| ==> cs[k] == Chan(table[IndexOf(table, t.first) + k], t.maxPwr)
  {
    var i := IndexOf(table, t.first);
    var n := if i + t.count <= |table| then t.count else |table| - i;
    seq(n, k requires 0 <= k < n => Chan(table[i + k], t.maxPwr))
  }

  /** The channels of a triple list. A triple that does not start beyond the last channel is skipped, and at
      most `room` channels are listed. */
  function Parsed(table: seq<byte>, ts: seq<SubBand>, last: nat, room: nat): (r: seq<Chan>)
    ensures |r| <= room && forall k :: 0 <= k < |r| ==> r[k].num < 256
  {
    if ts == [] then []
    else if ts[0].first <= last then Parsed(table, ts[1..], last, room)
    else
      var cs := Take(Listed(table, ts[0]), room);
      cs + Parsed(table, ts[1..], LastOr(cs, last), room - |cs|)
  }

  function Take(cs: seq<Chan>, room: nat): (r: seq<Chan>)
    ensures |r| <= |cs| && |r| <= room
  {
    if |cs| <= room then cs else cs[..room]
  }

  /** `count` rows have been filled from `cs`; the others are as they were in `rows0`. */
  ghost predicate Filled(rows: seq<ChanPower>, rows0: seq<ChanPower>, band: byte, cs: seq<Chan>)
    requires |rows| == |rows0|
  {
    && |cs| <= |rows|
    && (forall i :: 0 <= i < |cs| ==>
          cs[i].num < 256 && rows[i] == ChanPower(cs[i].num, band, cs[i].pwr, rows0[i].apSeen))
    && (forall i :: |cs| <= i < |rows| ==> rows[i] == rows0[i])
  }

  /** The inner loop of wlan_11d_parse_domain_info: the channels of one triple. */
  method AppendTriple(band: byte, t: SubBand, rows: array<ChanPower>, n: nat, last: byte,
                      ghost rows0: seq<ChanPower>, ghost cs: seq<Chan>)
    returns (count: nat, lastChan: byte)
    requires n == |cs| <= MAX_NO_OF_CHAN == rows.Length == |rows0| && Filled(rows[..], rows0, band, cs)
    modifies rows
    ensures var more := Take(Listed(TableOf(band), t), MAX_NO_OF_CHAN - n);
            && count == n + |more| && Filled(rows[..], rows0, band, cs + more)
            && lastChan == LastOr(more, last)
  {
    hide TableOf, IndexOf, Filled;
    ghost var listed := Listed(TableOf(band), t);
    count, lastChan := n, last;
    var i := 0;
    assert cs + listed[..0] == cs;
    while count < MAX_NO_OF_CHAN && i < t.count
      invariant 0 <= i <= t.count && i <= |listed| && count == n + i <= MAX_NO_OF_CHAN
      invariant Filled(rows[..], rows0, band, cs + listed[..i])
      invariant lastChan == if i == 0 then last else listed[i - 1].num
    {
      var found, cur := GetChan(band, t.first, i);
      if !found {
        break;
      }
      FilledNext(rows[..], rows0, band, cs + listed[..i], listed[i]);
      assert cs + listed[..i + 1] == cs + listed[..i] + [listed[i]];
      lastChan := cur;
      rows[count] := ChanPower(cur, band, t.maxPwr, rows[count].apSeen);
      count := count + 1;
      i := i + 1;
    }
    assert listed[..i] == Take(listed, MAX_NO_OF_CHAN - n);
  }

  lemma FilledNext(rows: seq<ChanPower>, rows0: seq<ChanPower>, band: byte, cs: seq<Chan>, c: Chan)
    requires |rows| == |rows0| && Filled(rows, rows0, band, cs) && |cs| < |rows| && c.num < 256
    ensures Filled(rows[|cs| := ChanPower(c.num, band, c.pwr, rows[|cs|].apSeen)], rows0, band, cs + [c])
  {
  }

  /** wlan_11d_parse_domain_info: fills `rows` from the triples of a Country element of length `len`. */
  method ParseDomainInfo(code: byte, len: byte, subBand: seq<SubBand>, band: byte, rows: array<ChanPower>)
    returns (ok: bool, count: nat)
    requires rows.Length == MAX_NO_OF_CHAN
    requires len > COUNTRY_CODE_LEN ==> (len - COUNTRY_CODE_LEN) / 3 <= |subBand|
    modifies rows
    ensures ok <==> code != 0 && len > COUNTRY_CODE_LEN
    ensures !ok ==> count == 0 && rows[..] == old(rows[..])
    ensures ok ==> var cs := Parsed(TableOf(band), subBand[..(len - COUNTRY_CODE_LEN) / 3], 0, MAX_NO_OF_CHAN);
                   count == |cs| && Filled(rows[..], old(rows[..]), band, cs)
  {
    hide TableOf, Listed, Filled, Parsed, Take, LastOr;
    count := 0;
    if code == 0 || len <= COUNTRY_CODE_LEN {
      return false, 0;
    }
    ok := true;
    var noOfSubBand := (len - COUNTRY_CODE_LEN) / 3;
    ghost var table, ts, rows0 := TableOf(band), subBand[..noOfSubBand], rows[..];
    ghost var cs: seq<Chan> := [];
    FilledNone(rows0, band);
    var lastChan: byte := 0;
    assert ts[0..] == ts && [] + Parsed(table, ts, 0, MAX_NO_OF_CHAN) == Parsed(table, ts, 0, MAX_NO_OF_CHAN);
    for j := 0 to noOfSubBand
      invariant count == |cs| <= MAX_NO_OF_CHAN && Filled(rows[..], rows0, band, cs)
      invariant cs + Parsed(table, ts[j..], lastChan, MAX_NO_OF_CHAN - count) == Parsed(table, ts, 0, MAX_NO_OF_CHAN)
    {
      var t := subBand[j];
      assert ts[j..][0] == t && ts[j..][1..] == ts[j + 1..];
      ParsedHead(table, ts[j..], lastChan, MAX_NO_OF_CHAN - count);
      if t.first > lastChan {
        ghost var more := Take(Listed(table, t), MAX_NO_OF_CHAN - count);
        count, lastChan := AppendTriple(band, t, rows, count, lastChan, rows0, cs);
        ConcatAssociates(cs, more, Parsed(table, ts[j + 1..], lastChan, MAX_NO_OF_CHAN - count));
        cs := cs + more;
      }
    }
    assert ts[noOfSubBand..] == [];
    ParsedNone(table, lastChan, MAX_NO_OF_CHAN - count);
    assert cs + [] == cs;
  }

  lemma ParsedNone(table: seq<byte>, last: nat, room: nat)
    ensures Parsed(table, [], last, room) == []
  {
  }

  lemma FilledNone(rows: seq<ChanPower>, band: byte)
    ensures Filled(rows, rows, band, [])
  {
  }

  /** The last channel of a list, or the one before it. */
  function LastOr(cs: seq<Chan>, last: nat): nat {
    if cs == [] then last else cs[|cs| - 1].num
  }

  lemma ParsedHead(table: seq<byte>, ts: seq<SubBand>, last: nat, room: nat)
    requires ts != []
    ensures ts[0].first <= last ==> Parsed(table, ts, last, room) == Parsed(table, ts[1..], last, room)
    ensures ts[0].first > last ==>
              var more := Take(Listed(table, ts[0]), room);
              Parsed(table, ts, last, room) == more + Parsed(table, ts[1..], LastOr(more, last), room - |more|)
  {
    hide Listed, Take, LastOr;
  }

  // ---------- Round trip ----------

  /** A list a universal table can hold: its channels are in the table, in strictly ascending order. */
  ghost predicate Ascending(cs: seq<Chan>, table: seq<byte>) {
    && (forall i :: 0 <= i < |cs| ==> cs[i].num in table)
    && (forall i, j :: 0 <= i < j < |cs| ==> cs[i].num < cs[j].num)
  }

  lemma BgTable()
    ensures |UnBg()| == 14 && forall i :: 0 <= i < 14 ==> UnBg()[i] == i + 1
  {
  }

  /** The 5 GHz table, by rule. */
  lemma AjChannels(i: nat)
    ensures |UnAj()| == 31
    ensures i < 31 ==> UnAj()[i] == if i < 3 then 8 + 4 * i
                                    else if i < 7 then 34 + 4 * (i - 3)
                                    else if i < 11 then 36 + 4 * (i - 7)
                                    else if i < 15 then 52 + 4 * (i - 11)
                                    else if i < 26 then 100 + 4 * (i - 15)
                                    else 149 + 4 * (i - 26)
  {
    var low, middle, high := AjLow(), AjMiddle(), AjHigh();
    assert i < 11 ==> UnAj()[i] == low[i];
    assert 11 <= i < 20 ==> UnAj()[i] == middle[i - 11];
    assert 20 <= i < 31 ==> UnAj()[i] == high[i - 20];
  }

  /** Which table a band has: bits 0, 1 and 3 are the 2.4 GHz bands, bits 2 and 4 the 5 GHz bands. */
  lemma TableByBits(band: nat)
    ensures TableOf(band) == if Bit(band, 0) || Bit(band, 1) || Bit(band, 3) then UnBg()
                             else if Bit(band, 2) || Bit(band, 4) then UnAj()
                             else []
  {
    hide UnBg, UnAj, And;
    MaskBits(band);
  }

  lemma MaskBits(band: nat)
    ensures And(band, BAND_BG) != 0 <==> Bit(band, 0) || Bit(band, 1) || Bit(band, 3)
    ensures And(band, BAND_A) != 0 <==> Bit(band, 2) || Bit(band, 4)
  {
    hide And, Bit;
    AndBits(band, 11);
    AndBits(band / 2, 5);
    AndBits(band / 2 / 2, 2);
    AndBits(band / 2 / 2 / 2, 1);
    AndBits(band, 20);
    AndBits(band / 2, 10);
    AndBits(band / 2 / 2, 5);
    AndBits(band / 2 / 2 / 2, 2);
    AndBits(band / 2 / 2 / 2 / 2, 1);
    BitSteps(band);
  }

  lemma AndBits(x: nat, y: nat)
    ensures And(x, y) != 0 <==> And(x / 2, y / 2) != 0 || (x % 2 == 1 && y % 2 == 1)
    ensures y < 2 ==> And(x / 2, y / 2) == 0
  {
    AndUnfold(x, y);
  }

  lemma BitSteps(b: nat)
    ensures Bit(b, 0) <==> b % 2 == 1
    ensures Bit(b, 1) <==> b / 2 % 2 == 1
    ensures Bit(b, 2) <==> b / 2 / 2 % 2 == 1
    ensures Bit(b, 3) <==> b / 2 / 2 / 2 % 2 == 1
    ensures Bit(b, 4) <==> b / 2 / 2 / 2 / 2 % 2 == 1
  {
  }

  /** Even up to 140, odd from 149 on: no channel of the table follows another directly. */
  predicate AjShape(x: nat) {
    (x <= 140 && x % 2 == 0) || (x >= 149 && x % 2 == 1)
  }

  lemma AjShapes()
    ensures forall i :: 0 <= i < |AjLow()| ==> AjShape(AjLow()[i])
    ensures forall i :: 0 <= i < |AjMiddle()| ==> AjShape(AjMiddle()[i])
    ensures forall i :: 0 <= i < |AjHigh()| ==> AjShape(AjHigh()[i])
  {
  }

  lemma AjTable(chan: nat)
    requires chan in UnAj()
    ensures AjShape(chan)
  {
    hide AjShape, AjLow, AjMiddle, AjHigh;
    AjShapes();
    var i :| 0 <= i < |UnAj()| && UnAj()[i] == chan;
  }

  ghost predicate NamesOf(t: SubBand, table: seq<byte>) {
    forall i :: 0 <= i < t.count ==> Expand(t)[i].num in table
  }

  /** A triple of a compressed list names exactly its own channels. */
  lemma ListedIsExpanded(table: seq<byte>, t: SubBand)
    requires (table == UnBg() || table == UnAj()) && t.count >= 1 && NamesOf(t, table)
    ensures Listed(table, t) == Expand(t)
  {
    hide UnBg, UnAj, IndexOf, AjShape;
    assert Expand(t)[0].num == t.first && Expand(t)[t.count - 1].num == t.first + (t.count - 1);
    if table == UnBg() {
      BgTable();
    } else {
      AjTable(t.first);
      if t.count >= 2 {
        assert Expand(t)[1].num == t.first + 1;
        AjTable(t.first + 1);
        AjApart(t.first);
      }
    }
  }

  lemma AjApart(x: nat)
    ensures !(AjShape(x) && AjShape(x + 1))
  {
  }

  /** The first triple of an ascending list, and the rest. */
  lemma AscendingHead(table: seq<byte>, ts: seq<SubBand>, cs: seq<Chan>)
    requires ExpandAll(ts) == cs && Ascending(cs, table) && ts != [] && ts[0].count >= 1
    ensures var t, n := ts[0], ts[0].count;
            && n <= |cs| && NamesOf(t, table) && cs == Expand(t) + cs[n..]
            && ExpandAll(ts[1..]) == cs[n..] && Ascending(cs[n..], table)
            && Expand(t)[n - 1].num == t.first + n - 1 && (n < |cs| ==> t.first + n - 1 < cs[n].num)
            && cs[0].num == t.first
  {
    hide ExpandAll;
    ExpandAllHead(ts);
    var t, n := ts[0], ts[0].count;
    assert cs[n..] == ExpandAll(ts[1..]);
    assert forall i :: 0 <= i < n ==> Expand(t)[i] == cs[i];
  }

  lemma ParsedEmpty(table: seq<byte>, ts: seq<SubBand>, last: nat, room: nat)
    requires ts != [] && ts[0].count == 0
    ensures Parsed(table, ts, last, room) == Parsed(table, ts[1..], last, room)
    ensures ExpandAll(ts) == ExpandAll(ts[1..])
  {
    hide Parsed, ExpandAll;
    ParsedHead(table, ts, last, room);
    ExpandAllHead(ts);
    if ts[0].first > last {
      assert Listed(table, ts[0]) == [];
      assert [] + Parsed(table, ts[1..], last, room) == Parsed(table, ts[1..], last, room);
    }
    assert [] + ExpandAll(ts[1..]) == ExpandAll(ts[1..]);
  }

  lemma ParsedListed(table: seq<byte>, ts: seq<SubBand>, e: seq<Chan>, last: nat, room: nat)
    requires ts != [] && ts[0].first > last && Listed(table, ts[0]) == e && 1 <= |e| <= room
    ensures Parsed(table, ts, last, room) == e + Parsed(table, ts[1..], e[|e| - 1].num, room - |e|)
  {
    hide Listed, Parsed;
    ParsedHead(table, ts, last, room);
  }

  /** Triples that stand for an ascending list of a universal table are parsed to that list: compressed or not, and
      with empty triples among them. */
  lemma {:induction false} ParseInvertsCompress(table: seq<byte>, ts: seq<SubBand>, cs: seq<Chan>, last: nat, room: nat)
    requires (table == UnBg() || table == UnAj()) && ExpandAll(ts) == cs && Ascending(cs, table)
    requires |cs| <= room && (cs != [] ==> last < cs[0].num)
    ensures Parsed(table, ts, last, room) == cs
    decreases |ts|
  {
    hide UnBg, UnAj, Listed, ExpandAll, Expand, Ascending, NamesOf, Parsed;
    ExpandAllHead(ts);
    if ts == [] {
      ParsedNone(table, last, room);
    } else if ts[0].count == 0 {
      ParsedEmpty(table, ts, last, room);
      ParseInvertsCompress(table, ts[1..], cs, last, room);
    } else {
      AscendingHead(table, ts, cs);
      var t, n := ts[0], ts[0].count;
      ListedIsExpanded(table, t);
      ParsedListed(table, ts, Expand(t), last, room);
      ParseInvertsCompress(table, ts[1..], cs[n..], t.first + n - 1, room - n);
    }
  }

  lemma CompressedExpands(ts: seq<SubBand>, cs: seq<Chan>)
    requires Compressed(ts, cs)
    ensures ExpandAll(ts) == cs && (ts == [] ==> cs == [])
  {
  }

  /** What the driver compresses, it parses back: any ascending list of a universal table's channels. */
  method CompressThenParse(chanPwr: array<ChanPower>, n: nat, subBand: array<SubBand>, code: byte, band: byte,
                           rows: array<ChanPower>)
    returns (count: nat)
    requires n <= chanPwr.Length && 1 <= n <= MAX_NO_OF_CHAN && n <= subBand.Length && rows.Length == MAX_NO_OF_CHAN
    requires rows != chanPwr && code != 0
    requires And(band, BAND_BG) != 0 || And(band, BAND_A) != 0
    requires Ascending(Chans(chanPwr[..n]), TableOf(band))
    modifies subBand, rows
    ensures count == n && Chans(rows[..count]) == Chans(chanPwr[..n])
    ensures forall i :: 0 <= i < count ==> rows[i].band == band
  {
    hide UnBg, UnAj, And, Compressed, Parsed;
    ghost var cs := Chans(chanPwr[..n]);
    var noOfSubBand := GenerateDomainInfo(chanPwr, n, subBand);
    ghost var ts := subBand[..noOfSubBand];
    CompressedExpands(ts, cs);
    var len: byte := COUNTRY_CODE_LEN + 3 * noOfSubBand;
    var ok;
    TablesPositive(TableOf(band));
    ParseInvertsCompress(TableOf(band), ts, cs, 0, MAX_NO_OF_CHAN);
    assert subBand[..][..noOfSubBand] == ts;
    ok, count := ParseDomainInfo(code, len, subBand[..], band, rows);
  }

  lemma TablesPositive(table: seq<byte>)
    requires table == UnBg() || table == UnAj()
    ensures 0 !in table
  {
  }
}
