/** What a reply of the DNS responder says, and which messages get one, said of the bytes of the message. */
module DnsAnswers {
  import opened Bits
  import opened Bytes
  import opened DnsNames
  import opened DnsServer
  import opened Seqs

  // ---------- Records ----------

  /** The record at `o` in the reply `c` answers the question whose name starts at `p` and ends with the zero at `z`:
      it refers to that name, has its type and class, lives an hour, and carries our four bytes of address. */
  ghost predicate AnswersQuestion(b: seq<byte>, c: seq<byte>, o: nat, p: nat, z: nat, ip: seq<byte>)
    requires |b| == |c| && o + 16 <= |c| && z + 5 <= |b| && |ip| == 4
  {
    && (c[o] as nat) * 256 + c[o + 1] as nat == 0xC000 + p
    && c[o + 2..o + 6] == b[z + 1..z + 5]
    && c[o + 6..o + 12] == [0, 0, 14, 16, 0, 4]
    && c[o + 12..o + 16] == ip
  }

  /** A walk over the same bytes passes the same labels. */
  lemma {:induction false} SameLabels(b: seq<byte>, c: seq<byte>, p: nat, size: nat, start: nat, end: nat)
    requires size <= |b| == |c| && start <= p && end <= size && forall k :: start <= k < end ==> b[k] == c[k]
    requires Skip(b, p, size).At? && Skip(b, p, size).offset < end
    ensures Skip(c, p, size) == Skip(b, p, size) && LabelsAt(c, p, size) == LabelsAt(b, p, size)
    decreases size - p
  {
    hide Skip, LabelsAt;
    WalkHead(b, p, size);
    WalkHead(c, p, size);
    WalkWithin(b, p, size);
    if b[p] != 0 {
      SameLabels(b, c, p + b[p] + 1, size, start, end);
      assert b[p + 1..p + 1 + b[p]] == c[p + 1..p + 1 + b[p]];
    }
  }

  /** The walk's steps stay in front of its end. */
  lemma WalkWithin(b: seq<byte>, p: nat, size: nat)
    requires size <= |b| && Skip(b, p, size).At?
    ensures p <= Skip(b, p, size).offset < size
    ensures b[p] != 0 ==> Skip(b, p + b[p] + 1, size).At? && p + b[p] + 1 <= Skip(b, p, size).offset
  {
  }

  lemma RecordBytes(b: seq<byte>, c: seq<byte>, o: nat, p: nat, z: nat, ip: seq<byte>)
    requires BUFFER_SIZE + 5 <= |b| == |c| && o + 16 <= |c| && p < BUFFER_SIZE && |ip| == 4
    requires Skip(b, p, BUFFER_SIZE) == At(z) && c[o..o + 16] == Record(b, p, ip)
    ensures z + 5 <= |b| && AnswersQuestion(b, c, o, p, z, ip)
  {
    hide Skip;
    var r := Record(b, p, ip);
    assert c[o] == c[o..o + 16][0] && c[o + 1] == c[o..o + 16][1];
    SliceOfSlice(c, o, o + 16, 2, 6);
    SliceOfSlice(c, o, o + 16, 6, 12);
    SliceOfSlice(c, o, o + 16, 12, 16);
    assert r[2..6] == b[z + 1..z + 5];
    assert r[6..12] == [0, 0, 14, 16, 0, 4];
    assert r[12..16] == ip;
  }

  /** Every answer of a reply is to its own question. The i-th record, 16 bytes each behind the questions, refers to
      the i-th question's name, at `p`, and following the reference over the reply gives that question's labels. */
  lemma AnswerRead(b: seq<byte>, c: seq<byte>, names: seq<seq<byte>>, ip: seq<byte>, count: nat, length: nat, i: nat,
                   size: nat)
    returns (end: nat, p: nat, z: nat)
    requires 1029 <= |b| == |c| && |ip| == 4 && AnsweredAs(b, c, names, ip, count, length) && i < count && size == 1024
    ensures QuestionAt(b, (b[4] as nat) * 256 + b[5] as nat) == At(end) && QuestionAt(b, i) == At(p)
    ensures Skip(b, p, size) == Skip(c, p, size) == At(z) && LabelsAt(c, p, size) == LabelsAt(b, p, size)
    ensures 12 <= p && z + 5 <= end && end + 16 * count == length <= size
    ensures end + 16 * i + 16 <= size && AnswersQuestion(b, c, end + 16 * i, p, z, ip)
  {
    hide Skip, LabelsAt, QuestionAt, Record, Asks, AnswersQuestion, ReplyHeader;
    var nq := Be16(b, 4);
    end, p := QuestionAt(b, nq).offset, QuestionAt(b, i).offset;
    QuestionFits(b, i, nq);
    z := Skip(b, p, size).offset;
    RecordBytes(b, c, end + 16 * i, p, z, ip);
    forall k | 12 <= k < end ensures b[k] == c[k] {
      assert b[12..end][k - 12] == c[12..end][k - 12];
    }
    SameLabels(b, c, p, size, 12, end);
  }

  /** How many answers there are: one for each question, or as many as stay in front of the buffer's last byte. */
  lemma AnswersCounted(b: seq<byte>, c: seq<byte>, names: seq<seq<byte>>, ip: seq<byte>, count: nat, length: nat)
    requires 1029 <= |b| == |c| && |ip| == 4 && AnsweredAs(b, c, names, ip, count, length)
    ensures var nq := (b[4] as nat) * 256 + b[5] as nat;
            && count <= nq && (count > 0 ==> length < 1024) && (count < nq ==> length + 16 >= 1024)
            && QuestionAt(b, nq) == At(length - 16 * count)
  {
    hide QuestionAt, AnswersWritten, Asks, ReplyHeader;
  }

  // ---------- Questions ----------

  /** Questions start behind the header and stand one behind another: a name up to its zero, a type and a class. */
  lemma QuestionsStand(b: seq<byte>, i: nat, size: nat)
    requires size == 1024 <= |b|
    ensures QuestionAt(b, 0) == At(12)
    ensures QuestionAt(b, i).At? && Skip(b, QuestionAt(b, i).offset, size).At? ==>
              QuestionAt(b, i + 1) == At(Skip(b, QuestionAt(b, i).offset, size).offset + 5)
    ensures QuestionAt(b, i + 1).At? ==>
              QuestionAt(b, i).At? && QuestionAt(b, i).offset < size && Skip(b, QuestionAt(b, i).offset, size).At?
  {
    hide Skip;
    if QuestionAt(b, i + 1).At? {
      var p := QuestionAt(b, i).offset;
      SkipInside(b, p, size);
    }
  }

  lemma SkipInside(b: seq<byte>, p: nat, size: nat)
    requires size <= |b| && Skip(b, p, size).At?
    ensures p < size
  {
  }

  // ---------- Which messages are answered ----------

  /** What a walk over proper labels passed stands there as an encoded name. */
  lemma {:induction false} LabelsEncode(b: seq<byte>, p: nat, size: nat)
    requires size <= |b| && Skip(b, p, size).At? && GoodLabels(LabelsAt(b, p, size))
    ensures HoldsName(b, p, size, LabelsAt(b, p, size))
    decreases size - p
  {
    hide Skip, LabelsAt, Encode, GoodLabel;
    WalkHead(b, p, size);
    WalkWithin(b, p, size);
    var ls := LabelsAt(b, p, size);
    EncodedHead(ls);
    if b[p] == 0 {
      assert b[p..p + 1] == [0];
    } else {
      var q := p + b[p] + 1;
      assert ls[1..] == LabelsAt(b, q, size);
      LabelsEncode(b, q, size);
      var e := Encode(ls[1..]);
      SliceSplit(b, p, q, q + |e| + 1);
      assert b[p..q] == [|ls[0]|] + ls[0];
      ConcatAssociates([|ls[0]|] + ls[0], e, [0]);
    }
  }

  /** In front of a name's end, a comparison with a longer name finds a difference. */
  lemma NoEndInside(e: seq<byte>, b: seq<byte>, p: nat, size: nat)
    requires p <= size <= |b| && Skip(b, p, size).At?
    requires forall k :: 0 <= k < |e| - 1 ==> e[k] != 0
    ensures Agrees(e, b, p, size - p) ==> |e| <= size - p
  {
    var k := Skip(b, p, size).offset - p;
    if k < |e| - 1 {
      assert e[k] != b[p + k];
    }
  }

  /** A configured name, as the encoder leaves it, is found where a question's labels are its own, whatever else the
      message holds. */
  lemma ComparedExactly(q: seq<byte>, ls: seq<Label>, b: seq<byte>, p: nat, size: nat)
    requires GoodLabels(ls) && HoldsName(q, 0, |q|, ls) && size == 1024 <= |b| && Skip(b, p, size).At? && p <= size
    ensures Strncmp0(q, 0, b, p, size - p) <==> LabelsAt(b, p, size) == ls
  {
    hide Encode, Strncmp0, GoodLabels, Skip, LabelsAt, Agrees;
    var e, n := Encode(ls) + [0], size - p;
    StrncmpName(q, ls, b, p, n);
    NoZeroInside(ls);
    if LabelsAt(b, p, size) == ls {
      LabelsEncode(b, p, size);
      ConfiguredExactly(q, ls, b, p, ls);
    }
    if Strncmp0(q, 0, b, p, n) {
      NoEndInside(e, b, p, size);
      AgreesStands(e, b, p, n);
      WalkName(b, p, size, ls);
    }
  }

  lemma AgreesStands(e: seq<byte>, b: seq<byte>, p: nat, n: nat)
    requires p + n <= |b| && |e| <= n && Agrees(e, b, p, n)
    ensures b[p..p + |e|] == e
  {
  }

  /** The configured names as the encoder leaves them. */
  ghost predicate Encoded(names: seq<seq<byte>>, lss: seq<seq<Label>>) {
    |names| == |lss|
    && forall k :: 0 <= k < |lss| ==> GoodLabels(lss[k]) && HoldsName(names[k], 0, |names[k]|, lss[k])
  }

  /** Some configured name has the labels of the i-th question. */
  ghost predicate AsksFor(b: seq<byte>, lss: seq<seq<Label>>, i: nat, size: nat)
    requires size == 1024 <= |b|
  {
    var p := QuestionAt(b, i);
    p.At? && Skip(b, p.offset, size).At? && LabelsAt(b, p.offset, size) in lss
  }

  lemma AsksExactly(b: seq<byte>, names: seq<seq<byte>>, lss: seq<seq<Label>>, i: nat, size: nat)
    requires size == 1024 <= |b| && Encoded(names, lss) && QuestionAt(b, i + 1).At?
    ensures Asks(b, names, i) <==> AsksFor(b, lss, i, size)
  {
    hide Encode, Strncmp0, GoodLabels, Skip, LabelsAt, HoldsName, QuestionAt;
    QuestionsStand(b, i, size);
    var p := QuestionAt(b, i).offset;
    forall k | 0 <= k < |names|
      ensures Strncmp0(names[k], 0, b, p, size - p) <==> LabelsAt(b, p, size) == lss[k]
    {
      ComparedExactly(names[k], lss[k], b, p, size);
    }
  }

  /** A message with at least one question, none of which runs off the buffer, is answered if and only if the labels
      of some question are the labels of some configured name. */
  lemma AnsweredExactly(b: seq<byte>, names: seq<seq<byte>>, lss: seq<seq<Label>>, nq: nat, size: nat)
    requires size == 1024 <= |b| && Encoded(names, lss) && QuestionAt(b, nq).At?
    ensures (exists i :: 0 <= i < nq && Asks(b, names, i)) <==> exists i :: 0 <= i < nq && AsksFor(b, lss, i, size)
  {
    hide Asks, AsksFor, QuestionAt, Encoded;
    forall i | 0 <= i < nq ensures Asks(b, names, i) <==> AsksFor(b, lss, i, size) {
      QuestionsInOrder(b, i + 1, nq);
      AsksExactly(b, names, lss, i, size);
    }
  }

  // ---------- Headers ----------

  /** The header of an answer: the message's own identifier; a response, authoritative, and no error; the other flags,
      the number of questions and the last four bytes as they came; and the number of records. */
  lemma ReplyHeaderRead(b: seq<byte>, count: nat)
    requires |b| >= 12 && b[3] < 128 && count < 0x10000
    ensures var h := ReplyHeader(b, count);
            && h[0] == b[0] && h[1] == b[1]
            && h[2] == b[3] + 128 + (if b[3] / 4 % 2 == 1 then 0 else 4)
            && h[3] == b[2] - b[2] % 16
            && h[4] == b[4] && h[5] == b[5] && (h[6] as nat) * 256 + h[7] as nat == count
            && h[8..12] == b[8..12]
  {
    hide And, Or;
    OrFlags(b[3]);
    AndHigh(b[2]);
  }

  /** The header of a refusal: the message's own identifier; a response, recursion desired, code 5, the three flags
      that are left alone; and one question and no records. */
  lemma RefusalHeaderRead(b: seq<byte>)
    requires |b| >= 12
    ensures var h := RefusalHeader(b);
            && h[0] == b[0] && h[1] == b[1] && h[2] == 0x81
            && h[3] == b[2] % 128 - b[2] % 16 + 5
            && h[4..12] == [0, 1, 0, 0, 0, 0, 0, 0]
  {
    hide And;
    AndHigh(b[2]);
  }

  lemma OrFlags(x: nat)
    requires x < 128
    ensures Or(x, 0x84) == x + 128 + (if x / 4 % 2 == 1 then 0 else 4)
  {
    hide Or;
    OrUnfold(x, 132);
    OrUnfold(x / 2, 66);
    OrUnfold(x / 2 / 2, 33);
    assert x / 2 / 2 == x / 4;
    OrSixteen(x / 4 / 2);
  }

  lemma OrSixteen(x: nat)
    requires x < 16
    ensures Or(x, 16) == x + 16
  {
    hide Or;
    OrUnfold(x, 16);
    OrUnfold(x / 2, 8);
    OrUnfold(x / 2 / 2, 4);
    OrUnfold(x / 2 / 2 / 2, 2);
    OrNothing(1);
  }

  lemma OrNothing(y: nat)
    ensures Or(0, y) == y
  {
  }

  lemma AndHigh(x: nat)
    requires x < 256
    ensures And(x, 0xF0) == x - x % 16
    ensures And(x, 0x70) == x % 128 - x % 16
  {
    hide And, Pow2;
    AndFour(x, 15);
    AndFour(x, 7);
    PowersAre();
    AndLow(x / 16, 4);
    AndLow(x / 16, 3);
  }

  lemma PowersAre()
    ensures Pow2(4) == 16 && Pow2(3) == 8
  {
  }

  /** A mask without its four low bits. */
  lemma AndFour(x: nat, m: nat)
    ensures And(x, 16 * m) == 16 * And(x / 16, m)
  {
    hide And;
    AndUnfold(x, 16 * m);
    AndUnfold(x / 2, 8 * m);
    AndUnfold(x / 2 / 2, 4 * m);
    AndUnfold(x / 2 / 2 / 2, 2 * m);
    assert x / 2 / 2 / 2 / 2 == x / 16;
  }
}
