/** The DNS responder: it walks the questions to find their end, then walks them again to append one answer
    each, in the same buffer. */
module DnsServer {
  import opened Bits
  import opened Bytes
  import opened DnsNames

  const BUFFER_SIZE: nat := 1024
  const HEADER: nat := 12
  const QUESTION: nat := 4      // type and class
  const RECORD: nat := 16
  const COMPRESSED: nat := 0xC000
  const ERROR_REFUSED: nat := 5
  /** The first walk may look one question past the end of the buffer. */
  const SLACK: nat := 1 + QUESTION

  /** Where the question after the one at `p` starts. */
  function Next(b: seq<byte>, p: nat): (r: Position)
    requires BUFFER_SIZE <= |b|
    ensures r.At? ==> p + 1 + QUESTION <= r.offset <= BUFFER_SIZE + QUESTION
  {
    match Skip(b, p, BUFFER_SIZE)
    case Overrun => Overrun
    case At(z) => At(z + 1 + QUESTION)
  }

  /** Where the i-th question starts; with i the number of questions, where they end. */
  function QuestionAt(b: seq<byte>, i: nat): (r: Position)
    requires BUFFER_SIZE <= |b|
    ensures r.At? ==> HEADER <= r.offset <= BUFFER_SIZE + QUESTION
  {
    if i == 0 then At(HEADER)
    else match QuestionAt(b, i - 1)
      case Overrun => Overrun
      case At(p) => Next(b, p)
  }

  /** strncmp of a C string `q` and the bytes at `p`, from index `i` on, over at most `n` bytes. */
  predicate Strncmp0(q: seq<byte>, i: nat, b: seq<byte>, p: nat, n: nat)
    requires p + n <= |b|
    decreases n - i
  {
    i >= n || i >= |q| || (q[i] == b[p + i] && (q[i] == 0 || Strncmp0(q, i + 1, b, p, n)))
  }

  /** Some configured name equals what stands at `p`. */
  predicate Configured(names: seq<seq<byte>>, b: seq<byte>, p: nat)
    requires p <= BUFFER_SIZE <= |b|
  {
    exists k :: 0 <= k < |names| && Strncmp0(names[k], 0, b, p, BUFFER_SIZE - p)
  }

  /** The record that answers the question at `start`: a reference to its name, its type and class, one hour, and
      our address. */
  function Record(b: seq<byte>, start: nat, ip: seq<byte>): (r: seq<byte>)
    requires BUFFER_SIZE + SLACK <= |b| && start < BUFFER_SIZE && Skip(b, start, BUFFER_SIZE).At? && |ip| == 4
    ensures |r| == RECORD
  {
    var z := Skip(b, start, BUFFER_SIZE).offset;
    [192 + start / 256, start % 256] + b[z + 1..z + 1 + QUESTION] + [0, 0, 14, 16] + [0, 4] + ip
  }

  /** htons of the name reference: the offset with the two top bits set. */
  lemma MarkIsSum(start: nat)
    requires start < BUFFER_SIZE
    ensures Or(COMPRESSED, start) == COMPRESSED + start
    ensures (COMPRESSED + start) / 256 == 192 + start / 256 && (COMPRESSED + start) % 256 == start % 256
  {
    assert Pow2(10) == 1024;
    OrSum(COMPRESSED, start, 10);
  }

  /** The label walk of make_answer_rr, which does not look at the end of the buffer. */
  method SkipLabels(buf: array<byte>, query: nat) returns (q: nat)
    requires BUFFER_SIZE <= buf.Length && Skip(buf[..], query, BUFFER_SIZE).At?
    ensures Skip(buf[..], query, BUFFER_SIZE) == At(q)
  {
    q := query;
    if buf[q] > 0 {
      q := q + buf[q] + 1;
    }
    while buf[q] > 0
      invariant q < BUFFER_SIZE && Skip(buf[..], q, BUFFER_SIZE) == Skip(buf[..], query, BUFFER_SIZE)
      decreases BUFFER_SIZE - q
    {
      q := q + buf[q] + 1;
    }
  }

  /** make_answer_rr: walks the question at `query` and writes its record at `dst`. */
  method MakeAnswerRr(buf: array<byte>, query: nat, dst: nat, ip: seq<byte>) returns (consumed: nat)
    requires buf.Length >= BUFFER_SIZE + SLACK && dst + RECORD <= BUFFER_SIZE && query < BUFFER_SIZE && |ip| == 4
    requires Skip(buf[..], query, BUFFER_SIZE).At? && Skip(buf[..], query, BUFFER_SIZE).offset + 1 + QUESTION <= dst
    modifies buf
    ensures query + consumed == Skip(old(buf[..]), query, BUFFER_SIZE).offset + 1 + QUESTION
    ensures buf[..] == Spliced(old(buf[..]), dst, Record(old(buf[..]), query, ip))
  {
    hide Skip, Or, Spliced, LabelsAt;
    ghost var b := buf[..];
    var reference := Or(COMPRESSED, query);
    MarkIsSum(query);
    var field := [reference / 256, reference % 256];
    Memcpy(buf, dst, field);
    SplicedBefore(b, dst, field);
    SameWalk(b, buf[..], query, BUFFER_SIZE, dst);
    var q := SkipLabels(buf, query);
    q := q + 1;
    var kind := buf[q..q + QUESTION];
    assert kind == buf[..][..dst][q..q + QUESTION] == b[..dst][q..q + QUESTION] == b[q..q + QUESTION];
    q := q + QUESTION;
    Memcpy(buf, dst + 2, kind);
    SplicedTwice(b, dst, field, kind);
    Memcpy(buf, dst + 6, [0, 0, 14, 16]);
    SplicedTwice(b, dst, field + kind, [0, 0, 14, 16]);
    Memcpy(buf, dst + 10, [0, 4]);
    SplicedTwice(b, dst, field + kind + [0, 0, 14, 16], [0, 4]);
    Memcpy(buf, dst + 12, ip);
    SplicedTwice(b, dst, field + kind + [0, 0, 14, 16] + [0, 4], ip);
    consumed := q - query;
  }

  lemma SplicedBefore(b: seq<byte>, at: nat, s: seq<byte>)
    requires at + |s| <= |b|
    ensures Spliced(b, at, s)[..at] == b[..at]
  {
  }

  /** parse_questions: the end of the questions, and whether one of them names us. */
  method ParseQuestions(buf: array<byte>, num: nat, names: seq<seq<byte>>) returns (end: Position, found: bool)
    requires buf.Length >= BUFFER_SIZE + SLACK
    ensures end == QuestionAt(buf[..], num)
    ensures end.At? ==> (found <==> exists i :: 0 <= i < num && Asks(buf[..], names, i))
  {
    ghost var b := buf[..];
    var pos: nat := HEADER;
    found := false;
    var n: nat := num;
    while n > 0
      invariant 0 <= n <= num
      invariant QuestionAt(b, num - n) == At(pos) && pos <= BUFFER_SIZE + QUESTION
      invariant found <==> exists i :: 0 <= i < num - n && Asks(b, names, i)
    {
      ghost var start, i := pos, num - n;
      // From the end of the buffer on, the comparison does not matter: the walk below then overruns.
      if !found && pos < BUFFER_SIZE {
        found := IsConfigured(buf, pos, names);
      }
      assert Asks(b, names, i) <==> pos < BUFFER_SIZE && Configured(names, b, pos);
      var more := true;
      while more
        invariant start <= pos && (more ==> Skip(b, pos, BUFFER_SIZE) == Skip(b, start, BUFFER_SIZE))
        invariant more ==> pos <= BUFFER_SIZE + QUESTION
        invariant !more ==> Skip(b, start, BUFFER_SIZE) == At(pos)
        decreases BUFFER_SIZE + QUESTION + 1 - pos, more
      {
        if buf[pos] > 0 {
          pos := pos + buf[pos] + 1;
        }
        if pos >= BUFFER_SIZE {
          OverrunStays(b, i + 1, num);
          return Overrun, found;
        }
        more := buf[pos] > 0;
      }
      pos := pos + 1 + QUESTION;
      n := n - 1;
    }
    end := At(pos);
  }

  /** The i-th question is for a configured name. */
  predicate Asks(b: seq<byte>, names: seq<seq<byte>>, i: nat)
    requires BUFFER_SIZE <= |b|
  {
    var p := QuestionAt(b, i);
    p.At? && p.offset < BUFFER_SIZE && Configured(names, b, p.offset)
  }

  method IsConfigured(buf: array<byte>, pos: nat, names: seq<seq<byte>>) returns (found: bool)
    requires pos < BUFFER_SIZE <= buf.Length
    ensures found == Configured(names, buf[..], pos)
  {
    for i := 0 to |names|
      invariant forall k :: 0 <= k < i ==> !Strncmp0(names[k], 0, buf[..], pos, BUFFER_SIZE - pos)
    {
      if Strncmp0(names[i], 0, buf[..], pos, BUFFER_SIZE - pos) {
        return true;
      }
    }
    return false;
  }

  lemma OverrunStays(b: seq<byte>, i: nat, j: nat)
    requires BUFFER_SIZE <= |b| && QuestionAt(b, i) == Overrun && i <= j
    ensures QuestionAt(b, j) == Overrun
    decreases j - i
  {
    if i < j {
      OverrunStays(b, i, j - 1);
    }
  }

  // ---------- The two walks agree ----------

  /** Up to the end of the questions, every question starts before the next one. */
  lemma {:induction false} QuestionsInOrder(b: seq<byte>, i: nat, n: nat)
    requires BUFFER_SIZE <= |b| && QuestionAt(b, n).At? && i <= n
    ensures QuestionAt(b, i).At? && QuestionAt(b, i).offset + 5 * (n - i) <= QuestionAt(b, n).offset
    decreases n - i
  {
    if i < n {
      QuestionsInOrder(b, i, n - 1);
    }
  }

  /** Question i stands, whole, in front of the end of the questions. */
  lemma QuestionFits(b: seq<byte>, i: nat, n: nat)
    requires BUFFER_SIZE <= |b| && QuestionAt(b, n).At? && i < n && QuestionAt(b, n).offset <= BUFFER_SIZE
    ensures QuestionAt(b, i).At? && QuestionAt(b, i).offset < BUFFER_SIZE
    ensures var p := QuestionAt(b, i).offset;
            && Skip(b, p, BUFFER_SIZE).At?
            && QuestionAt(b, i + 1) == At(Skip(b, p, BUFFER_SIZE).offset + 1 + QUESTION)
            && Skip(b, p, BUFFER_SIZE).offset + 1 + QUESTION <= QuestionAt(b, n).offset
  {
    QuestionsInOrder(b, i, n);
    QuestionsInOrder(b, i + 1, n);
  }

  lemma SameRecord(b: seq<byte>, c: seq<byte>, start: nat, end: nat, ip: seq<byte>)
    requires BUFFER_SIZE + SLACK <= |b| && |c| == |b| && end <= BUFFER_SIZE && b[..end] == c[..end] && |ip| == 4
    requires Skip(b, start, BUFFER_SIZE).At? && Skip(b, start, BUFFER_SIZE).offset + 1 + QUESTION <= end
    ensures Skip(c, start, BUFFER_SIZE) == Skip(b, start, BUFFER_SIZE) && Record(c, start, ip) == Record(b, start, ip)
  {
    SameWalk(b, c, start, BUFFER_SIZE, end);
    var z := Skip(b, start, BUFFER_SIZE).offset;
    assert b[z + 1..z + 5] == b[..end][z + 1..z + 5] == c[z + 1..z + 5];
  }

  // ---------- A message ----------

  /** `end` is where the questions of a refused message end; the refusal is sent up to there. */
  datatype Reply = Ignored | Refused(end: Position) | Answered(count: nat, length: nat)

  /** How many records fit behind the questions, which end at `end`. */
  function Room(end: nat): nat {
    if end >= BUFFER_SIZE then 0 else (BUFFER_SIZE - 1 - end) / RECORD
  }

  function Min(a: nat, b: nat): nat {
    if a < b then a else b
  }

  function Be16(b: seq<byte>, p: nat): (n: nat)
    requires p + 2 <= |b|
    ensures n < 0x10000
  {
    (b[p] as nat) * 256 + b[p + 1] as nat
  }

  /** The message says it is a response, as the driver reads the flags. */
  predicate IsResponse(b: seq<byte>)
    requires |b| >= HEADER
  {
    b[3] >= 128
  }

  /** The first `n` answers stand behind the questions, one for each question, and the questions are
      untouched. */
  ghost predicate AnswersWritten(b: seq<byte>, c: seq<byte>, end: nat, n: nat, ip: seq<byte>)
    requires BUFFER_SIZE + SLACK <= |b| == |c| && |ip| == 4
  {
    && HEADER <= end && end + RECORD * n <= |b|
    && c[HEADER..end] == b[HEADER..end]
    && (forall i :: 0 <= i < n ==>
          && QuestionAt(b, i).At? && QuestionAt(b, i).offset < BUFFER_SIZE
          && Skip(b, QuestionAt(b, i).offset, BUFFER_SIZE).At?
          && c[end + RECORD * i..end + RECORD * i + RECORD] == Record(b, QuestionAt(b, i).offset, ip))
    && c[end + RECORD * n..] == b[end + RECORD * n..]
  }

  /** The answer loop of process_dns_message. */
  method AppendAnswers(buf: array<byte>, end: nat, nq: nat, ip: seq<byte>) returns (count: nat)
    requires BUFFER_SIZE + SLACK <= buf.Length && |ip| == 4 && QuestionAt(buf[..], nq) == At(end)
    modifies buf
    ensures count == Min(nq, Room(end))
    ensures AnswersWritten(old(buf[..]), buf[..], end, count, ip) && buf[..HEADER] == old(buf[..HEADER])
  {
    hide Skip, Record, Spliced, AnswersWritten, QuestionAt;
    ghost var b := buf[..];
    var pos, outp := HEADER, end;
    NoAnswers(b, nq, ip);
    count := 0;
    while count < nq
      invariant 0 <= count <= nq && outp == end + RECORD * count && (count > 0 ==> outp < BUFFER_SIZE)
      invariant QuestionAt(b, count) == At(pos)
      invariant AnswersWritten(b, buf[..], end, count, ip) && buf[..end] == b[..end]
    {
      if outp + RECORD >= BUFFER_SIZE {
        break;
      }
      QuestionFits(b, count, nq);
      SameRecord(b, buf[..], pos, end, ip);
      ghost var c := buf[..];
      var consumed := MakeAnswerRr(buf, pos, outp, ip);
      AnswerAppended(b, c, end, count, ip);
      assert buf[..end] == buf[..][..end] == c[..end] by { SplicedKeeps(c, outp, Record(c, pos, ip), end); }
      pos := pos + consumed;
      outp := outp + RECORD;
      count := count + 1;
    }
    assert buf[..HEADER] == buf[..end][..HEADER];
  }

  lemma NoAnswers(b: seq<byte>, nq: nat, ip: seq<byte>)
    requires BUFFER_SIZE + SLACK <= |b| && |ip| == 4 && QuestionAt(b, nq).At?
    ensures QuestionAt(b, 0) == At(HEADER) && HEADER <= QuestionAt(b, nq).offset
    ensures AnswersWritten(b, b, QuestionAt(b, nq).offset, 0, ip)
  {
  }

  lemma SplicedKeeps(b: seq<byte>, at: nat, s: seq<byte>, end: nat)
    requires at + |s| <= |b| && end <= at
    ensures Spliced(b, at, s)[..end] == b[..end]
  {
  }

  lemma AnswerAppended(b: seq<byte>, c: seq<byte>, end: nat, n: nat, ip: seq<byte>)
    requires BUFFER_SIZE + SLACK <= |b| == |c| && |ip| == 4 && AnswersWritten(b, c, end, n, ip)
    requires QuestionAt(b, n).At? && QuestionAt(b, n).offset < BUFFER_SIZE
    requires Skip(b, QuestionAt(b, n).offset, BUFFER_SIZE).At? && end + RECORD * n + RECORD <= |b|
    ensures AnswersWritten(b, Spliced(c, end + RECORD * n, Record(b, QuestionAt(b, n).offset, ip)), end, n + 1, ip)
  {
    hide Skip, Record, QuestionAt;
    var record := Record(b, QuestionAt(b, n).offset, ip);
    var at := end + RECORD * n;
    var d := Spliced(c, at, record);
    assert d[HEADER..end] == c[HEADER..end];
    forall i | 0 <= i < n
      ensures d[end + RECORD * i..end + RECORD * i + RECORD] == c[end + RECORD * i..end + RECORD * i + RECORD]
    {
    }
    assert d[at..at + RECORD] == record;
    assert d[at + RECORD..] == c[at..][RECORD..] == b[at + RECORD..];
  }

  /** The header of a reply with `count` answers: flags and count. */
  function ReplyHeader(b: seq<byte>, count: nat): (r: seq<byte>)
    requires |b| >= HEADER
    ensures |r| == HEADER
  {
    b[..2] + [Or(b[3], 0x84) % 256, And(b[2], 0xF0) % 256] + b[4..6] + [(count / 256) % 256, count % 256] + b[8..12]
  }

  /** The questions are read to their end, one of them is for us, and the reply is `c`. */
  ghost predicate AnsweredAs(b: seq<byte>, c: seq<byte>, names: seq<seq<byte>>, ip: seq<byte>, count: nat, length: nat)
    requires BUFFER_SIZE + SLACK <= |b| == |c| && |ip| == 4
  {
    var nq := Be16(b, 4);
    var end := QuestionAt(b, nq);
    && end.At? && (exists i :: 0 <= i < nq && Asks(b, names, i))
    && count == Min(nq, Room(end.offset)) && length == end.offset + RECORD * count
    && c[..HEADER] == ReplyHeader(b, count) && AnswersWritten(b, c, end.offset, count, ip)
  }

  /** The header of a refusal: a response, recursion desired, code 5, and one question; of the flags it received
      it keeps the reserved one and the two of RFC 2535. */
  function RefusalHeader(b: seq<byte>): (r: seq<byte>)
    requires |b| >= HEADER
    ensures |r| == HEADER
  {
    b[..2] + [0x81, (And(b[2], 0x70) + ERROR_REFUSED) % 256] + [0, 1, 0, 0, 0, 0, 0, 0]
  }

  /** The questions overrun the buffer or none of them is for us, and the refusal is `c`: only the header
      changes. */
  ghost predicate RefusedAs(b: seq<byte>, c: seq<byte>, names: seq<seq<byte>>, end: Position)
    requires BUFFER_SIZE + SLACK <= |b| == |c|
  {
    var nq := Be16(b, 4);
    && end == QuestionAt(b, nq) && (end.Overrun? || !exists i :: 0 <= i < nq && Asks(b, names, i))
    && c == RefusalHeader(b) + b[HEADER..]
  }

  /** process_dns_message. `ip` is our address as it stands in a record. */
  method ProcessDnsMessage(buf: array<byte>, len: nat, names: seq<seq<byte>>, ip: seq<byte>) returns (reply: Reply)
    requires BUFFER_SIZE + SLACK <= buf.Length && |ip| == 4
    modifies buf
    ensures var b := old(buf[..]);
            && (reply.Ignored? <==> len < 12 || b[3] >= 128 || (b[4] == 0 && b[5] == 0))
            && (reply.Ignored? ==> buf[..] == b)
            && (reply.Refused? ==> RefusedAs(b, buf[..], names, reply.end))
            && (reply.Answered? ==> AnsweredAs(b, buf[..], names, ip, reply.count, reply.length))
  {
    hide Asks, QuestionAt, And, Or, Skip;
    if len < HEADER {
      return Ignored;
    }
    if buf[3] >= 128 {
      return Ignored;
    }
    ghost var b := buf[..];
    var nq := (buf[4] as nat) * 256 + buf[5] as nat;
    if nq <= 0 {
      return Ignored;
    }
    var end, found := ParseQuestions(buf, nq, names);
    if !found || end.Overrun? {
      RefuseMessage(buf);
      return Refused(end);
    }
    var count := AppendAnswers(buf, end.offset, nq, ip);
    ghost var c := buf[..];
    assert forall k :: 0 <= k < HEADER ==> buf[k] == buf[..HEADER][k] == b[..HEADER][k] == b[k];
    buf[2], buf[3] := Or(buf[3], 0x84) % 256, And(buf[2], 0xF0) % 256;
    buf[6], buf[7] := (count / 256) % 256, count % 256;
    assert buf[..HEADER] == ReplyHeader(b, count);
    HeaderApart(b, c, buf[..], end.offset, count, ip);
    return Answered(count, end.offset + RECORD * count);
  }

  /** The header of process_dns_message's refusal. */
  method RefuseMessage(buf: array<byte>)
    requires HEADER <= buf.Length
    modifies buf
    ensures buf[..] == RefusalHeader(old(buf[..])) + old(buf[..])[HEADER..]
  {
    hide And, RefusalHeader;
    ghost var b := buf[..];
    // qr and rd set, opcode, aa and tc cleared; ra cleared and the code set; and the two bytes in network order.
    var low: byte := (And(buf[2], 0x70) + ERROR_REFUSED) % 256;
    buf[2], buf[3] := 0x81, low;
    buf[4], buf[5] := 0, 1;
    buf[6], buf[7] := 0, 0;
    buf[8], buf[9] := 0, 0;
    buf[10], buf[11] := 0, 0;
    RefusalBytes(b, buf[..]);
  }

  lemma RefusalBytes(b: seq<byte>, c: seq<byte>)
    requires |b| == |c| >= HEADER
    requires c[2] == 0x81 && c[3] == (And(b[2], 0x70) + ERROR_REFUSED) % 256 && c[4] == 0 && c[5] == 1
    requires forall i :: 6 <= i < HEADER ==> c[i] == 0
    requires forall i :: 0 <= i < |b| && (i < 2 || i >= HEADER) ==> c[i] == b[i]
    ensures c == RefusalHeader(b) + b[HEADER..]
  {
    hide And;
  }

  lemma HeaderApart(b: seq<byte>, c: seq<byte>, d: seq<byte>, end: nat, n: nat, ip: seq<byte>)
    requires BUFFER_SIZE + SLACK <= |b| == |c| == |d| && |ip| == 4 && AnswersWritten(b, c, end, n, ip)
    requires d[HEADER..] == c[HEADER..]
    ensures AnswersWritten(b, d, end, n, ip)
  {
    hide Skip, Record, QuestionAt;
    assert d[HEADER..end] == d[HEADER..][..end - HEADER] == c[HEADER..end];
    forall i | 0 <= i < n
      ensures d[end + RECORD * i..end + RECORD * i + RECORD] == c[end + RECORD * i..end + RECORD * i + RECORD]
    {
      var at := end + RECORD * i - HEADER;
      assert d[HEADER..][at..at + RECORD] == c[HEADER..][at..at + RECORD];
    }
    assert d[end + RECORD * n..] == d[HEADER..][end + RECORD * n - HEADER..] == c[end + RECORD * n..];
  }

  /** The reply stays under the buffer size exactly when the questions end before it. */
  lemma ReplyFits(end: nat, nq: nat)
    ensures end + RECORD * Min(nq, Room(end)) < BUFFER_SIZE <==> end < BUFFER_SIZE
  {
  }

  /** A question whose name is a chain of labels of length 3 up to the last byte but four. */
  predicate Threes(b: seq<byte>, from: nat)
    requires BUFFER_SIZE <= |b|
  {
    (forall i :: from <= i < 1019 ==> b[i] == 3) && b[1019] == 0
  }

  lemma {:induction false} WalkThrees(b: seq<byte>, p: nat, k: nat)
    requires BUFFER_SIZE <= |b| && p + 4 * k == 1019 && Threes(b, p)
    ensures Skip(b, p, BUFFER_SIZE) == At(1019)
    decreases k
  {
    if k > 0 {
      WalkThrees(b, p + 4, k - 1);
    }
  }

  function Repeated(x: byte, n: nat): (s: seq<byte>)
    ensures |s| == n && forall i :: 0 <= i < n ==> s[i] == x
  {
    seq(n, _ => x)
  }

  /** Questions that end at the end of the buffer are answered, with no record and a reply that is not below the
      buffer size: the first asks for `a`, whom we are, and the second takes up the rest of the buffer. */
  lemma FullReplyExample() returns (b: seq<byte>, names: seq<seq<byte>>)
    ensures |b| == BUFFER_SIZE + SLACK && !IsResponse(b) && Be16(b, 4) == 2
    ensures QuestionAt(b, 2) == At(BUFFER_SIZE) && Asks(b, names, 0)
    ensures BUFFER_SIZE + RECORD * Min(2, Room(BUFFER_SIZE)) == BUFFER_SIZE
  {
    names := [[1, 97, 0]];
    var front := [0, 0, 0, 0, 0, 2, 0, 0, 0, 0, 0, 0, 1, 97, 0, 0, 1, 0, 1];
    b := front + Repeated(3, 1000) + Repeated(0, 10);
    assert forall i :: 0 <= i < 19 ==> b[i] == front[i];
    assert forall i :: 19 <= i < 1019 ==> b[i] == Repeated(3, 1000)[i - 19];
    FirstQuestion(b, names);
    WalkThrees(b, 19, 250);
    hide Skip, Asks;
    assert QuestionAt(b, 2) == Next(b, 19);
  }

  lemma FirstQuestion(b: seq<byte>, names: seq<seq<byte>>)
    requires |b| == BUFFER_SIZE + SLACK && b[12] == 1 && b[13] == 97 && b[14] == 0 && names == [[1, 97, 0]]
    ensures QuestionAt(b, 1) == At(19) && Asks(b, names, 0)
  {
    assert Skip(b, 14, BUFFER_SIZE) == At(14);
    assert Skip(b, 12, BUFFER_SIZE) == At(14);
    assert QuestionAt(b, 0) == At(HEADER);
    var q, n := names[0], BUFFER_SIZE - HEADER;
    assert Strncmp0(q, 2, b, HEADER, n);
    assert Strncmp0(q, 1, b, HEADER, n);
    assert Strncmp0(q, 0, b, HEADER, n);
  }

  // ---------- Whom the server answers ----------

  lemma {:induction false} NoZeroInside(ls: seq<Label>)
    requires GoodLabels(ls)
    ensures forall k :: 0 <= k < |Encode(ls)| ==> Encode(ls)[k] != 0
  {
    if ls != [] {
      NoZeroInside(ls[1..]);
    }
  }

  /** strncmp on a string whose terminator is at `m`. */
  lemma {:induction false} StrncmpMeans(q: seq<byte>, i: nat, b: seq<byte>, p: nat, n: nat, m: nat)
    requires p + n <= |b| && i <= m < |q| && q[m] == 0 && (forall k :: 0 <= k < m ==> q[k] != 0)
    ensures Strncmp0(q, i, b, p, n) <==> forall k :: i <= k <= m && k < n ==> q[k] == b[p + k]
    decreases m - i
  {
    if i < n && i < m {
      StrncmpMeans(q, i + 1, b, p, n, m);
    }
  }

  /** The bytes of `e`, as far as `n` reaches, stand at `p`. */
  ghost predicate Agrees(e: seq<byte>, b: seq<byte>, p: nat, n: nat)
    requires p + n <= |b|
  {
    forall k :: 0 <= k < |e| && k < n ==> e[k] == b[p + k]
  }

  /** The same for a name as the encoder leaves it. */
  lemma StrncmpName(q: seq<byte>, ls: seq<Label>, b: seq<byte>, p: nat, n: nat)
    requires GoodLabels(ls) && HoldsName(q, 0, |q|, ls) && p + n <= |b|
    ensures Strncmp0(q, 0, b, p, n) <==> Agrees(Encode(ls) + [0], b, p, n)
  {
    hide Encode, Strncmp0;
    var e := Encode(ls) + [0];
    NoZeroInside(ls);
    assert forall k :: 0 <= k < |e| ==> q[k] == q[0..|e|][k] == e[k];
    StrncmpMeans(q, 0, b, p, n, |Encode(ls)|);
  }

  /** If the comparison finds no difference, the name stands whole at `p`. */
  lemma StrncmpHolds(e: seq<byte>, b: seq<byte>, p: nat, n: nat, e': seq<byte>)
    requires p + n <= |b| && e != [] && e' != [] && |e'| <= n && e'[|e'| - 1] == 0
    requires forall k :: 0 <= k < |e| - 1 ==> e[k] != 0
    requires Agrees(e, b, p, n) && b[p..p + |e'|] == e'
    ensures |e| <= n && b[p..p + |e|] == e
  {
    forall k | 0 <= k < |e| && k < n && k < |e'| ensures e[k] == e'[k] {
      assert e[k] == b[p + k] == b[p..p + |e'|][k];
    }
    ZeroEnds(e, e', n);
  }

  /** Comparing a configured name, as the encoder leaves it, with the name of a question finds them equal exactly
      when their labels are. */
  lemma ConfiguredExactly(q: seq<byte>, ls: seq<Label>, b: seq<byte>, p: nat, ls': seq<Label>)
    requires GoodLabels(ls) && GoodLabels(ls') && HoldsName(q, 0, |q|, ls) && HoldsName(b, p, BUFFER_SIZE, ls')
    ensures Strncmp0(q, 0, b, p, BUFFER_SIZE - p) <==> ls == ls'
  {
    hide Encode, Strncmp0, GoodLabels, Skip, LabelsAt, Agrees;
    var e, e', n := Encode(ls) + [0], Encode(ls') + [0], BUFFER_SIZE - p;
    StrncmpName(q, ls, b, p, n);
    NoZeroInside(ls);
    if Strncmp0(q, 0, b, p, n) {
      StrncmpHolds(e, b, p, n, e');
      WalkName(b, p, BUFFER_SIZE, ls);
      WalkName(b, p, BUFFER_SIZE, ls');
    }
    if ls == ls' {
      StandsAgrees(e, b, p, n);
    }
  }

  lemma StandsAgrees(e: seq<byte>, b: seq<byte>, p: nat, n: nat)
    requires p + n <= |b| && |e| <= n && b[p..p + |e|] == e
    ensures Agrees(e, b, p, n)
  {
    forall k | 0 <= k < |e| ensures e[k] == b[p + k] {
      assert b[p..p + |e|][k] == e[k];
    }
  }

  /** Two strings that agree as far as both go, each zero at its end only (the first): the first is no longer. */
  lemma ZeroEnds(e: seq<byte>, e': seq<byte>, n: nat)
    requires e != [] && e' != [] && |e'| <= n && e'[|e'| - 1] == 0
    requires forall k :: 0 <= k < |e| - 1 ==> e[k] != 0
    requires forall k :: 0 <= k < |e| && k < n && k < |e'| ==> e[k] == e'[k]
    ensures |e| <= |e'|
  {
    var k := |e'| - 1;
    assert k < |e| ==> e[k] == e'[k];
  }
}
