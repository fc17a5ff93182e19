/** Reading whole messages: Unpack (msg.go), and the round trip with PackBuffer. */
module MessageReader {
  import opened Bytes
  import opened Names
  import opened NameReader
  import opened WireFields
  import opened Records
  import opened RecordReader
  import opened Messages

  // ----- specification -----

  function ToQuestion(fs: seq<Field>): (q: Question)
    requires Shapes(fs) == QUESTION_SHAPES
    ensures QuestionFields(q) == fs
  {
    assert forall i :: 0 <= i < 3 ==> ShapeOf(fs[i]) == QUESTION_SHAPES[i];
    Question(fs[0].name, fs[1].n, fs[2].n)
  }

  datatype QuestionsRead = NoQuestionsRead(fault: ReadFault) | QuestionsAt(questions: seq<Question>, next: nat)

  function ReadQuestions(msg: Bytes, off: nat, n: nat): (r: QuestionsRead)
    ensures r.QuestionsAt? ==> |r.questions| == n
    decreases n
  {
    if n == 0 then QuestionsAt([], off)
    else
      match ReadStruct(msg, off, 0, QUESTION_SHAPES)
      case NoStruct(f) => NoQuestionsRead(f)
      case Struct(fs, next) =>
        ReadStructShapes(msg, off, 0, QUESTION_SHAPES);
        assert Shapes(fs) == QUESTION_SHAPES;
        match ReadQuestions(msg, next, n - 1)
        case NoQuestionsRead(f) => NoQuestionsRead(f)
        case QuestionsAt(qs, end) => QuestionsAt([ToQuestion(fs)] + qs, end)
  }

  datatype RecordsRead = NoRecordsRead(fault: ReadFault) | RecordsAt(records: seq<Record>, next: nat)

  function ReadRecords(msg: Bytes, off: nat, n: nat): (r: RecordsRead)
    ensures r.RecordsAt? ==> |r.records| == n
    decreases n
  {
    if n == 0 then RecordsAt([], off)
    else
      match ReadRecord(msg, off)
      case NoRecord(f) => NoRecordsRead(f)
      case RecordAt(one, next) =>
        match ReadRecords(msg, next, n - 1)
        case NoRecordsRead(f) => NoRecordsRead(f)
        case RecordsAt(rs, end) => RecordsAt([one] + rs, end)
  }

  datatype MessageRead = NoMessage(fault: ReadFault) | MessageAt(message: Message)

  /** The message with only its header word taken apart. */
  function FromHeader(id: u16, bits: u16): (m: Message) {
    Message(id, HasBit(bits, 0x8000), bits / 0x800 % 16, HasBit(bits, 0x400), HasBit(bits, 0x200), HasBit(bits, 0x100),
            HasBit(bits, 0x80), HasBit(bits, 0x40), HasBit(bits, 0x20), HasBit(bits, 0x10), bits % 16, false, [], [], [], [])
  }

  function ReadSections(msg: Bytes, off: nat, m: Message, an: nat, ns: nat, ar: nat): (r: MessageRead) {
    match ReadRecords(msg, off, an)
    case NoRecordsRead(f) => NoMessage(f)
    case RecordsAt(answer, off1) =>
      match ReadRecords(msg, off1, ns)
      case NoRecordsRead(f) => NoMessage(f)
      case RecordsAt(auth, off2) =>
        match ReadRecords(msg, off2, ar)
        case NoRecordsRead(f) => NoMessage(f)
        case RecordsAt(extra, _) => MessageAt(m.(answer := answer, ns := auth, extra := extra))
  }

  /** Unpack: a truncated message is given back without records, whatever follows the questions. */
  function ReadMessage(msg: Bytes): (r: MessageRead) {
    match ReadStruct(msg, 0, 0, MESSAGE_SHAPES)
    case NoStruct(f) => NoMessage(f)
    case Struct(fs, off) =>
      ReadStructShapes(msg, 0, 0, MESSAGE_SHAPES);
      assert forall i :: 0 <= i < 6 ==> ShapeOf(fs[i]) == MESSAGE_SHAPES[i];
      var m := FromHeader(fs[0].n, fs[1].n);
      match ReadQuestions(msg, off, fs[2].n)
      case NoQuestionsRead(f) => NoMessage(f)
      case QuestionsAt(qs, next) =>
        if m.truncated then MessageAt(m.(question := qs))
        else ReadSections(msg, next, m.(question := qs), fs[3].n, fs[4].n, fs[5].n)
  }

  // ----- the unpacker as the source runs it -----

  method UnpackQuestions(msg: Bytes, off0: nat, n: nat) returns (r: QuestionsRead)
    ensures r == ReadQuestions(msg, off0, n)
  {
    hide ReadStruct, ToQuestion;
    var off: nat, qs := off0, [];
    for i := 0 to n
      invariant |qs| == i
      invariant ReadQuestions(msg, off0, n) ==
                match ReadQuestions(msg, off, n - i)
                case NoQuestionsRead(f) => NoQuestionsRead(f)
                case QuestionsAt(more, end) => QuestionsAt(qs + more, end)
    {
      var one := UnpackStructValue(msg, off, 0, QUESTION_SHAPES);
      if one.NoStruct? {
        return NoQuestionsRead(one.fault);
      }
      ReadStructShapes(msg, off, 0, QUESTION_SHAPES);
      assert Shapes(one.fields) == QUESTION_SHAPES;
      var q := ToQuestion(one.fields);
      ghost var rest := ReadQuestions(msg, one.next, n - i - 1);
      assert rest.QuestionsAt? ==> qs + ([q] + rest.questions) == qs + [q] + rest.questions;
      qs, off := qs + [q], one.next;
    }
    assert qs + [] == qs;
    r := QuestionsAt(qs, off);
  }

  method UnpackSection(msg: Bytes, off0: nat, n: nat) returns (r: RecordsRead)
    ensures r == ReadRecords(msg, off0, n)
  {
    hide ReadRecord;
    var off: nat, rs := off0, [];
    for i := 0 to n
      invariant |rs| == i
      invariant ReadRecords(msg, off0, n) ==
                match ReadRecords(msg, off, n - i)
                case NoRecordsRead(f) => NoRecordsRead(f)
                case RecordsAt(more, end) => RecordsAt(rs + more, end)
    {
      var one := UnpackRR(msg, off);
      if one.NoRecord? {
        return NoRecordsRead(one.fault);
      }
      ghost var rest := ReadRecords(msg, one.next, n - i - 1);
      assert rest.RecordsAt? ==> rs + ([one.record] + rest.records) == rs + [one.record] + rest.records;
      rs, off := rs + [one.record], one.next;
    }
    assert rs + [] == rs;
    r := RecordsAt(rs, off);
  }

  method Unpack(msg: Bytes) returns (r: MessageRead)
    ensures r == ReadMessage(msg)
  {
    hide ReadStruct, ReadQuestions, ReadRecords, FromHeader;
    var hdr := UnpackStructValue(msg, 0, 0, MESSAGE_SHAPES);
    if hdr.NoStruct? {
      return NoMessage(hdr.fault);
    }
    var fs := hdr.fields;
    ReadStructShapes(msg, 0, 0, MESSAGE_SHAPES);
    assert forall i :: 0 <= i < 6 ==> ShapeOf(fs[i]) == MESSAGE_SHAPES[i];
    var m := FromHeader(fs[0].n, fs[1].n);
    var qs := UnpackQuestions(msg, hdr.next, fs[2].n);
    if qs.NoQuestionsRead? {
      return NoMessage(qs.fault);
    }
    m := m.(question := qs.questions);
    if m.truncated {
      return MessageAt(m);
    }
    var answer := UnpackSection(msg, qs.next, fs[3].n);
    if answer.NoRecordsRead? {
      return NoMessage(answer.fault);
    }
    var ns := UnpackSection(msg, answer.next, fs[4].n);
    if ns.NoRecordsRead? {
      return NoMessage(ns.fault);
    }
    var extra := UnpackSection(msg, ns.next, fs[5].n);
    if extra.NoRecordsRead? {
      return NoMessage(extra.fault);
    }
    r := MessageAt(m.(answer := answer.records, ns := ns.records, extra := extra.records));
  }

  // ----- round trip -----

  function CanonicalQuestion(q: Question): (c: Question) {
    q.(name := Canonical(q.name))
  }

  predicate AllQuestionsBack(qs: seq<Question>, cs: seq<Question>) {
    |cs| == |qs| && forall i :: 0 <= i < |qs| ==> cs[i] == CanonicalQuestion(qs[i])
  }

  /** c is r as it comes back: canonical, with n bytes of data. */
  predicate RecordBack(r: Record, c: Record, n: u16) {
    c == CanonicalRecord(r, n)
  }

  predicate AllRecordsBack(rs: seq<Record>, cs: seq<Record>, ns: seq<u16>) {
    |cs| == |ns| == |rs| && forall i :: 0 <= i < |rs| ==> RecordBack(rs[i], cs[i], ns[i])
  }

  /** How many bytes the data of each record take when the records are packed one after the other. */
  function DataLengths(rs: seq<Record>, off: nat, lenmsg: nat, cmap: CMap, compress: bool): (ns: seq<u16>) {
    if rs == [] then []
    else
      match PackRecord(rs[0], off, lenmsg, cmap, compress)
      case Faulty(_) => []
      case Put(b, cmap') =>
        [DataLength(rs[0], off, lenmsg, cmap, compress)] + DataLengths(rs[1..], off + |b|, lenmsg, cmap', compress)
  }

  /** The data lengths of a message's records, section by section. */
  datatype Lengths = Lengths(answer: seq<u16>, ns: seq<u16>, extra: seq<u16>)

  function MessageLengths(m: Message, lenmsg: nat): (lens: Lengths) {
    match FrontPack(m, lenmsg)
    case Faulty(_) => Lengths([], [], [])
    case Put(front, c0) => SectionLengths(m, |front|, lenmsg, c0)
  }

  function SectionLengths(m: Message, off: nat, lenmsg: nat, c0: CMap): (lens: Lengths) {
    match PackRecords(m.answer, off, lenmsg, c0, m.compress)
    case Faulty(_) => Lengths([], [], [])
    case Put(a, c1) =>
      match PackRecords(m.ns, off + |a|, lenmsg, c1, m.compress)
      case Faulty(_) => Lengths([], [], [])
      case Put(n, c2) =>
        Lengths(DataLengths(m.answer, off, lenmsg, c0, m.compress), DataLengths(m.ns, off + |a|, lenmsg, c1, m.compress),
                DataLengths(m.extra, off + |a| + |n|, lenmsg, c2, m.compress))
  }

  /** The questions in msg from off to end are qs. */
  ghost predicate QuestionsStand(msg: Bytes, off: nat, qs: seq<Question>, end: nat) {
    var r := ReadQuestions(msg, off, |qs|);
    r.QuestionsAt? && r.next == end && AllQuestionsBack(qs, r.questions)
  }

  /** The records in msg from off to end are rs, with data of ns bytes. */
  ghost predicate RecordsStand(msg: Bytes, off: nat, rs: seq<Record>, ns: seq<u16>, end: nat) {
    var r := ReadRecords(msg, off, |rs|);
    r.RecordsAt? && r.next == end && AllRecordsBack(rs, r.records, ns)
  }

  /** The questions are in msg from off to end, or, if they do not stand, they cannot be read. */
  ghost predicate QuestionsDecided(msg: Bytes, off: nat, qs: seq<Question>, end: nat, stand: bool) {
    if stand then QuestionsStand(msg, off, qs, end) else ReadQuestions(msg, off, |qs|).NoQuestionsRead?
  }

  ghost predicate RecordsDecided(msg: Bytes, off: nat, rs: seq<Record>, ns: seq<u16>, end: nat, stand: bool) {
    if stand then RecordsStand(msg, off, rs, ns, end) else ReadRecords(msg, off, |rs|).NoRecordsRead?
  }

  predicate GoodMessage(m: Message) {
    && (forall i :: 0 <= i < |m.question| ==> GoodName(m.question[i].name))
    && (forall i :: 0 <= i < |m.answer| ==> GoodRecord(m.answer[i]))
    && (forall i :: 0 <= i < |m.ns| ==> GoodRecord(m.ns[i]))
    && (forall i :: 0 <= i < |m.extra| ==> GoodRecord(m.extra[i]))
  }

  /** The counts in the header are 16 bits wide; those of the records do not matter in a truncated message. */
  predicate CountsFit(m: Message) {
    && |m.question| < 0x1_0000
    && (m.truncated || (|m.answer| < 0x1_0000 && |m.ns| < 0x1_0000 && |m.extra| < 0x1_0000))
  }

  /** c is m as it comes back from the wire, where its records' data have the lengths lens. */
  predicate MessageBack(m: Message, c: Message, lens: Lengths) {
    && c.id == m.id && c.response == (m.response || m.opcode % 32 >= 16) && c.opcode == m.opcode % 16
    && c.authoritative == m.authoritative && c.truncated == m.truncated && c.recursionDesired == m.recursionDesired
    && c.recursionAvailable == m.recursionAvailable && c.zero == m.zero && c.authenticatedData == m.authenticatedData
    && c.checkingDisabled == m.checkingDisabled && c.rcode == m.rcode && !c.compress
    && AllQuestionsBack(m.question, c.question)
    && (if m.truncated then c.answer == [] && c.ns == [] && c.extra == []
        else
          && AllRecordsBack(m.answer, c.answer, lens.answer) && AllRecordsBack(m.ns, c.ns, lens.ns)
          && AllRecordsBack(m.extra, c.extra, lens.extra))
  }

  lemma QuestionStands(q: Question, off: nat, lenmsg: nat, cmap: CMap, msg: Bytes)
    requires off + QuestionLen(q) + 1 <= lenmsg && GoodName(q.name)
    requires PackStruct(QuestionFields(q), off, lenmsg, cmap, false).Put?
    requires At(msg, off, PackStruct(QuestionFields(q), off, lenmsg, cmap, false).bytes)
    ensures var bytes := PackStruct(QuestionFields(q), off, lenmsg, cmap, false).bytes;
            && |bytes| <= QuestionLen(q)
            && ReadStruct(msg, off, 0, QUESTION_SHAPES) == Struct(QuestionFields(CanonicalQuestion(q)), off + |bytes|)
  {
    hide PackStruct, ReadStruct, At, Laid, Canonical, GoodName;
    QuestionIsFields(q, false);
    var fs := QuestionFields(q);
    assert GoodFields(fs);
    var ends := PackedStructLaid(fs, off, lenmsg, cmap, msg);
    assert NoTail(fs) && TailLast(fs);
    ReadLaidStruct(msg, off, 0, fs, ends);
    assert Shapes(fs) == QUESTION_SHAPES;
    assert CanonicalFields(fs) == QuestionFields(CanonicalQuestion(q));
  }

  lemma QuestionUnique(q: Question, q': Question)
    requires QuestionFields(q) == QuestionFields(q')
    ensures q == q'
  {
    assert QuestionFields(q)[0] == QuestionFields(q')[0] && QuestionFields(q)[1] == QuestionFields(q')[1];
    assert QuestionFields(q)[2] == QuestionFields(q')[2];
  }

  /** A question in front of questions that stand. */
  lemma QuestionsStandCons(msg: Bytes, off: nat, q: Question, mid: nat, qs: seq<Question>, end: nat)
    requires ReadStruct(msg, off, 0, QUESTION_SHAPES) == Struct(QuestionFields(CanonicalQuestion(q)), mid)
    requires QuestionsStand(msg, mid, qs, end)
    ensures QuestionsStand(msg, off, [q] + qs, end)
  {
    hide ReadStruct, CanonicalQuestion, QuestionFields;
    ReadStructShapes(msg, off, 0, QUESTION_SHAPES);
    var fs := QuestionFields(CanonicalQuestion(q));
    assert Shapes(fs) == QUESTION_SHAPES;
    QuestionUnique(ToQuestion(fs), CanonicalQuestion(q));
  }

  lemma RecordsStandCons(msg: Bytes, off: nat, r: Record, n: u16, mid: nat, rs: seq<Record>, ns: seq<u16>, end: nat)
    requires ReadRecord(msg, off).RecordAt? && ReadRecord(msg, off).next == mid && RecordBack(r, ReadRecord(msg, off).record, n)
    requires RecordsStand(msg, mid, rs, ns, end)
    ensures RecordsStand(msg, off, [r] + rs, [n] + ns, end)
  {
    hide ReadRecord, RecordBack;
  }

  lemma {:induction false} QuestionsReadBack(qs: seq<Question>, off: nat, lenmsg: nat, cmap: CMap, msg: Bytes)
    requires off + QuestionsLen(qs) + 1 <= lenmsg && forall i :: 0 <= i < |qs| ==> GoodName(qs[i].name)
    requires PackQuestions(qs, off, lenmsg, cmap, false).Put?
    requires At(msg, off, PackQuestions(qs, off, lenmsg, cmap, false).bytes)
    ensures var bytes := PackQuestions(qs, off, lenmsg, cmap, false).bytes;
            |bytes| <= QuestionsLen(qs) && QuestionsStand(msg, off, qs, off + |bytes|)
    decreases |qs|
  {
    hide PackStruct, QuestionFields, QuestionLen, At, GoodName, ReadStruct;
    if qs != [] {
      hide QuestionsStand;
      var r := PackStruct(QuestionFields(qs[0]), off, lenmsg, cmap, false);
      var more := PackQuestions(qs[1..], off + |r.bytes|, lenmsg, r.cmap, false);
      AtSplit(msg, off, r.bytes, more.bytes);
      QuestionStands(qs[0], off, lenmsg, cmap, msg);
      QuestionsReadBack(qs[1..], off + |r.bytes|, lenmsg, r.cmap, msg);
      QuestionsStandCons(msg, off, qs[0], off + |r.bytes|, qs[1..], off + |r.bytes + more.bytes|);
      assert [qs[0]] + qs[1..] == qs;
    }
  }

  lemma {:induction false} RecordsReadBack(rs: seq<Record>, off: nat, lenmsg: nat, cmap: CMap, msg: Bytes)
    requires off + RecordsLen(rs) + 1 <= lenmsg && forall i :: 0 <= i < |rs| ==> GoodRecord(rs[i])
    requires PackRecords(rs, off, lenmsg, cmap, false).Put?
    requires At(msg, off, PackRecords(rs, off, lenmsg, cmap, false).bytes)
    ensures var bytes := PackRecords(rs, off, lenmsg, cmap, false).bytes;
            |bytes| <= RecordsLen(rs) && RecordsStand(msg, off, rs, DataLengths(rs, off, lenmsg, cmap, false), off + |bytes|)
    decreases |rs|
  {
    hide PackRecord, RecordLen, At, GoodRecord, ReadRecord, CanonicalRecord, DataLength;
    if rs != [] {
      hide RecordsStand;
      var r := PackRecord(rs[0], off, lenmsg, cmap, false);
      var more := PackRecords(rs[1..], off + |r.bytes|, lenmsg, r.cmap, false);
      AtSplit(msg, off, r.bytes, more.bytes);
      RecordRoundTrip(rs[0], off, lenmsg, cmap, msg);
      CanonicalRdlength(rs[0], DataLength(rs[0], off, lenmsg, cmap, false));
      RecordsReadBack(rs[1..], off + |r.bytes|, lenmsg, r.cmap, msg);
      RecordsStandCons(msg, off, rs[0], DataLength(rs[0], off, lenmsg, cmap, false), off + |r.bytes|,
                       rs[1..], DataLengths(rs[1..], off + |r.bytes|, lenmsg, r.cmap, false), off + |r.bytes + more.bytes|);
      assert [rs[0]] + rs[1..] == rs;
    }
  }

  lemma CanonicalRdlength(r: Record, n: u16)
    ensures RecordBack(r, CanonicalRecord(r, n), n)
  {
  }

  /** The header that was packed is read back. */
  lemma HeaderReadBack(m: Message, lenmsg: nat, cmap: CMap, msg: Bytes)
    requires lenmsg >= 13 && PackStruct(MessageHeader(m), 0, lenmsg, cmap, m.compress).Put?
    requires At(msg, 0, PackStruct(MessageHeader(m), 0, lenmsg, cmap, m.compress).bytes)
    ensures |PackStruct(MessageHeader(m), 0, lenmsg, cmap, m.compress).bytes| == 12
    ensures ReadStruct(msg, 0, 0, MESSAGE_SHAPES) == Struct(MessageHeader(m), 12)
  {
    hide PackStruct, ReadStruct, At, Laid, HeaderBits;
    HeaderIsFields(m);
    var fs := MessageHeader(m);
    assert GoodFields(fs) && NoTail(fs) && TailLast(fs);
    WordsIgnoreMap(fs, 0, lenmsg, cmap, m.compress);
    var ends := PackedStructLaid(fs, 0, lenmsg, cmap, msg);
    ReadLaidStruct(msg, 0, 0, fs, ends);
    assert Shapes(fs) == MESSAGE_SHAPES && CanonicalFields(fs) == fs;
  }

  /** Words are packed two bytes each, compressed or not. */
  lemma {:induction false} WordsIgnoreMap(fs: seq<Field>, off: nat, lenmsg: nat, cmap: CMap, compress: bool)
    requires forall i :: 0 <= i < |fs| ==> fs[i].Word?
    ensures PackStruct(fs, off, lenmsg, cmap, compress) == PackStruct(fs, off, lenmsg, cmap, false)
    ensures PackStruct(fs, off, lenmsg, cmap, compress).Put? ==> |PackStruct(fs, off, lenmsg, cmap, compress).bytes| == 2 * |fs|
    decreases |fs|
  {
    if fs != [] {
      WordsIgnoreMap(fs[1..], off + 2, lenmsg, cmap, compress);
    }
  }

  /** Counts that do not fit wrap, and what is read is not the message. */
  lemma CountsLost(m: Message, msg: Bytes, lens: Lengths)
    requires ReadStruct(msg, 0, 0, MESSAGE_SHAPES) == Struct(MessageHeader(m), 12) && !CountsFit(m)
    ensures ReadMessage(msg).MessageAt? ==> !MessageBack(m, ReadMessage(msg).message, lens)
  {
    hide ReadStruct, ReadQuestions, ReadRecords, HeaderBits, HasBit, RecordBack;
    ReadStructShapes(msg, 0, 0, MESSAGE_SHAPES);
    BitsRoundTrip(m);
  }

  /** Each part either stands or cannot be read: then so it is with the message. */
  lemma Verdict(m: Message, msg: Bytes, lens: Lengths, off1: nat, off2: nat, off3: nat, off4: nat, q: bool, a: bool, n: bool, e: bool)
    requires ReadStruct(msg, 0, 0, MESSAGE_SHAPES) == Struct(MessageHeader(m), 12)
    requires CountsFit(m) && 0 <= m.rcode < 16
    requires QuestionsDecided(msg, 12, m.question, off1, q) && RecordsDecided(msg, off1, m.answer, lens.answer, off2, a)
    requires RecordsDecided(msg, off2, m.ns, lens.ns, off3, n) && RecordsDecided(msg, off3, m.extra, lens.extra, off4, e)
    ensures ReadMessage(msg).MessageAt? && MessageBack(m, ReadMessage(msg).message, lens) <==> q && (m.truncated || (a && n && e))
  {
    hide ReadStruct, ReadQuestions, ReadRecords, HeaderBits, HasBit, AllQuestionsBack, AllRecordsBack;
    ReadStructShapes(msg, 0, 0, MESSAGE_SHAPES);
    BitsRoundTrip(m);
  }

  /**
    Main result: an uncompressed message that packs, with names that come back, is read back with every field and
    section restored exactly when its counts fit: flags and codes as they were, questions and records in canonical
    form, and each record's Rdlength set to the length of its data. A truncated message comes back without its records.
    */
  lemma MessageRoundTrip(m: Message, lenmsg: nat)
    requires !m.compress && GoodMessage(m) && lenmsg >= MessageLen(m) + 1
    requires PackMessage(m, lenmsg).Put?
    ensures var r := ReadMessage(PackMessage(m, lenmsg).bytes);
            r.MessageAt? && MessageBack(m, r.message, MessageLengths(m, lenmsg)) <==> CountsFit(m)
  {
    hide PackStruct, PackQuestions, PackRecords, QuestionsLen, RecordsLen, ReadStruct, ReadMessage, MessageBack,
      QuestionsStand, RecordsStand, At, MessageHeader, CountsFit, GoodRecord, GoodName, SectionLengths;
    var msg := PackMessage(m, lenmsg).bytes;
    var h := PackStruct(MessageHeader(m), 0, lenmsg, map[], false);
    var q := PackQuestions(m.question, |h.bytes|, lenmsg, h.cmap, false);
    var front := h.bytes + q.bytes;
    var body := PackRecords(m.answer + m.ns + m.extra, |front|, lenmsg, q.cmap, false);
    AtAll(msg, front, body.bytes);
    AtSplit(msg, 0, h.bytes, q.bytes);
    HeaderReadBack(m, lenmsg, map[], msg);
    if CountsFit(m) {
      QuestionsReadBack(m.question, 12, lenmsg, h.cmap, msg);
      var off1 := |front|;
      var off2, off3, off4 := SectionsReadBack(m, off1, lenmsg, q.cmap, msg);
      Verdict(m, msg, MessageLengths(m, lenmsg), off1, off2, off3, off4, true, true, true, true);
    } else {
      CountsLost(m, msg, MessageLengths(m, lenmsg));
    }
  }

  lemma AtAll(msg: Bytes, a: Bytes, b: Bytes)
    requires msg == a + b
    ensures At(msg, 0, a) && At(msg, |a|, b)
  {
    assert msg[0..0 + |a|] == a && msg[|a|..|a| + |b|] == b;
  }

  lemma SectionsReadBack(m: Message, off: nat, lenmsg: nat, cmap: CMap, msg: Bytes) returns (off2: nat, off3: nat, off4: nat)
    requires GoodMessage(m) && !m.compress
    requires off + RecordsLen(m.answer) + RecordsLen(m.ns) + RecordsLen(m.extra) + 1 <= lenmsg
    requires PackRecords(m.answer + m.ns + m.extra, off, lenmsg, cmap, false).Put?
    requires At(msg, off, PackRecords(m.answer + m.ns + m.extra, off, lenmsg, cmap, false).bytes)
    ensures var lens := SectionLengths(m, off, lenmsg, cmap);
            && RecordsStand(msg, off, m.answer, lens.answer, off2) && RecordsStand(msg, off2, m.ns, lens.ns, off3)
            && RecordsStand(msg, off3, m.extra, lens.extra, off4)
  {
    hide PackRecords, RecordsLen, RecordsStand, At, GoodRecord, GoodName, DataLengths;
    PackRecordsAppend(m.answer + m.ns, m.extra, off, lenmsg, cmap, false);
    PackRecordsAppend(m.answer, m.ns, off, lenmsg, cmap, false);
    var a := PackRecords(m.answer, off, lenmsg, cmap, false);
    var n := PackRecords(m.ns, off + |a.bytes|, lenmsg, a.cmap, false);
    var two := a.bytes + n.bytes;
    var e := PackRecords(m.extra, off + |two|, lenmsg, n.cmap, false);
    AtSplit(msg, off, two, e.bytes);
    AtSplit(msg, off, a.bytes, n.bytes);
    RecordsReadBack(m.answer, off, lenmsg, cmap, msg);
    off2 := off + |a.bytes|;
    RecordsReadBack(m.ns, off2, lenmsg, a.cmap, msg);
    off3 := off + |two|;
    RecordsReadBack(m.extra, off3, lenmsg, n.cmap, msg);
    off4 := off3 + |e.bytes|;
  }
}
