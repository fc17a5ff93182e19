/** Which messages pack without compression, and how many bytes each part takes (msg.go). */
module Packable {
  import opened Bytes
  import opened Names
  import opened NameText
  import opened TextStrings
  import opened WireFields
  import opened Records
  import opened RecordReader
  import opened Messages
  import opened MessageReader
  import opened Repacking

  // ----- fields -----

  /** A name packs when it is empty, or ends with a dot and has labels of at most 63 characters, none but the first empty. */
  predicate NamePacks(s: Bytes) {
    s == [] ||
    (s[|s| - 1] == 46 && var fs := Fields(Tokens(s), []);
     forall i :: 0 <= i < |fs| ==> |fs[i]| <= 63 && (i > 0 ==> |fs[i]| >= 1))
  }

  /** A text packs when it has at most 1025 characters that stand for at most 255. */
  predicate TextPacks(s: Bytes) {
    |s| <= 1025 && |Tokens(s)| <= 255
  }

  predicate FieldPacks(f: Field) {
    match f
    case DomainName(s, _) => NamePacks(s)
    case Address4(ip) => |ip| in {0, 4, 16}
    case Address6(ip) => |ip| in {0, 16}
    case Texts(ss) => forall i :: 0 <= i < |ss| ==> TextPacks(ss[i])
    case _ => true
  }

  function LabelsSize(fs: seq<Bytes>): (n: nat) {
    if fs == [] then 0 else 1 + |fs[0]| + LabelsSize(fs[1..])
  }

  function TextsSize(ss: seq<Bytes>): (n: nat) {
    if ss == [] then 0 else 1 + |Tokens(ss[0])| + TextsSize(ss[1..])
  }

  /** The bytes a field takes. */
  function FieldSize(f: Field): (n: nat) {
    match f
    case DomainName(s, _) => if s == [] then 0 else if s == [46] then 1 else LabelsSize(Fields(Tokens(s), [])) + 1
    case Word(_) => 2
    case Long(_) => 4
    case Address4(ip) => if ip == [] then 0 else 4
    case Address6(ip) => |ip|
    case Texts(ss) => TextsSize(ss)
  }

  lemma {:induction false} WireSize(fs: seq<Bytes>)
    requires forall i :: 0 <= i < |fs| ==> |fs[i]| < 64
    ensures |Wire(fs)| == LabelsSize(fs)
    decreases |fs|
  {
    if fs != [] {
      WireSize(fs[1..]);
    }
  }

  lemma RootSize()
    ensures LabelsSize(Fields(Tokens([46]), [])) == 1
  {
    TokensPlain(46, []);
    assert [46] + [] == [46] && Tokens([]) == [];
    assert Fields([Tok(46, false)], []) == [[]];
  }

  lemma NamePacksExactly(s: Bytes, off: nat, lenmsg: nat, cmap: CMap)
    requires off + |s| + 1 <= lenmsg
    ensures PackName(s, off, lenmsg, cmap, false).Packed? <==> NamePacks(s)
    ensures var r := PackName(s, off, lenmsg, cmap, false);
            r.Packed? ==> |r.bytes| == FieldSize(DomainName(s, true)) <= |s| + 1 && r.cmap == cmap
  {
    if s != [] && s[|s| - 1] == 46 {
      hide PackName, Tokens, Wire, Fields;
      PackMeaning(s, off, lenmsg, cmap);
      var fs := Fields(Tokens(s), []);
      if Legal(fs, false) {
        WireSize(fs);
        RootSize();
      }
    }
  }

  lemma {:induction false} TextsPackExactly(ss: seq<Bytes>, off: nat, lenmsg: nat)
    requires off + TextsLen(ss) <= lenmsg
    ensures PackStrings(ss, off, lenmsg).TextBytes? <==> forall i :: 0 <= i < |ss| ==> TextPacks(ss[i])
    ensures PackStrings(ss, off, lenmsg).TextBytes? ==> |PackStrings(ss, off, lenmsg).bytes| == TextsSize(ss) <= TextsLen(ss)
    decreases |ss|
  {
    hide Tokens, Hanging;
    if ss != [] {
      TokensShort(ss[0]);
      assert ss == [ss[0]] + ss[1..];
      if TextPacks(ss[0]) {
        TextsPackExactly(ss[1..], off + 1 + |Tokens(ss[0])|, lenmsg);
      }
    }
  }

  lemma FieldPacksExactly(f: Field, off: nat, lenmsg: nat, cmap: CMap)
    requires off + FieldLen(f) + 1 <= lenmsg
    ensures PackField(f, off, lenmsg, cmap, false).Put? <==> FieldPacks(f)
    ensures var r := PackField(f, off, lenmsg, cmap, false);
            r.Put? ==> |r.bytes| == FieldSize(f) <= FieldLen(f) && r.cmap == cmap
  {
    hide PackName, PackStrings, U16, U32, TextsLen, NamePacks, TextPacks, Fields, Tokens, TextsSize, LabelsSize;
    match f
    case DomainName(s, _) => NamePacksExactly(s, off, lenmsg, cmap);
    case Texts(ss) => TextsPackExactly(ss, off, lenmsg);
    case Word(n) => WordSize(n);
    case Long(n) => LongSize(n);
    case Address4(_) =>
    case Address6(_) =>
  }

  lemma WordSize(n: u16)
    ensures |U16(n)| == 2
  {
  }

  lemma LongSize(n: u32)
    ensures |U32(n)| == 4
  {
  }

  // ----- structures -----

  predicate AllPack(fs: seq<Field>) {
    forall i :: 0 <= i < |fs| ==> FieldPacks(fs[i])
  }

  function StructSize(fs: seq<Field>): (n: nat) {
    if fs == [] then 0 else FieldSize(fs[0]) + StructSize(fs[1..])
  }

  lemma {:induction false} StructPacksExactly(fs: seq<Field>, off: nat, lenmsg: nat, cmap: CMap)
    requires off + StructLen(fs) + 1 <= lenmsg
    ensures PackStruct(fs, off, lenmsg, cmap, false).Put? <==> AllPack(fs)
    ensures var r := PackStruct(fs, off, lenmsg, cmap, false);
            r.Put? ==> |r.bytes| == StructSize(fs) <= StructLen(fs) && r.cmap == cmap
    decreases |fs|
  {
    hide PackField, FieldPacks, FieldLen, FieldSize;
    if fs != [] {
      FieldPacksExactly(fs[0], off, lenmsg, cmap);
      assert fs == [fs[0]] + fs[1..];
      if FieldPacks(fs[0]) {
        StructPacksExactly(fs[1..], off + FieldSize(fs[0]), lenmsg, cmap);
      }
    }
  }

  // ----- records and questions -----

  /** A record packs when its names, texts and address do, and its data take at most 65535 bytes. */
  predicate RecordPacks(r: Record) {
    NamePacks(r.hdr.name) && AllPack(DataFields(r.data)) && StructSize(DataFields(r.data)) <= 65535
  }

  function RecordSize(r: Record): (n: nat) {
    FieldSize(DomainName(r.hdr.name, true)) + 10 + StructSize(DataFields(r.data))
  }

  lemma RecordPacksExactly(r: Record, off: nat, lenmsg: nat, cmap: CMap)
    requires off + RecordLen(r) + 1 <= lenmsg
    ensures PackRecord(r, off, lenmsg, cmap, false).Put? <==> RecordPacks(r)
    ensures var p := PackRecord(r, off, lenmsg, cmap, false);
            p.Put? ==>
              && |p.bytes| == RecordSize(r) <= RecordLen(r) && p.cmap == cmap
              && DataLength(r, off, lenmsg, cmap, false) == StructSize(DataFields(r.data))
  {
    hide PackField, PackStruct, DataFields, AllPack, StructSize, FieldSize, StructLen, NamePacks, RecordLen, HeaderBytes;
    var name := DomainName(r.hdr.name, true);
    RecordParts(r);
    FieldPacksExactly(name, off, lenmsg, cmap);
    if NamePacks(r.hdr.name) {
      var n := PackField(name, off, lenmsg, cmap, false);
      StructPacksExactly(DataFields(r.data), off + FieldSize(name) + 10, lenmsg, cmap);
      var d := PackStruct(DataFields(r.data), off + FieldSize(name) + 10, lenmsg, cmap, false);
      if d.Put? && |d.bytes| <= 65535 {
        HeaderSize(n.bytes, r.hdr, |d.bytes|);
      }
    }
  }

  lemma RecordParts(r: Record)
    ensures RecordLen(r) == |r.hdr.name| + 1 + 10 + StructLen(DataFields(r.data))
    ensures FieldPacks(DomainName(r.hdr.name, true)) <==> NamePacks(r.hdr.name)
    ensures FieldLen(DomainName(r.hdr.name, true)) == |r.hdr.name| + 1
  {
    hide DataFields, NamePacks;
    LenIsFields(r);
    HeaderFieldsLen(r.hdr);
  }

  lemma HeaderFieldsLen(h: Header)
    ensures StructLen(HeaderFields(h)) == |h.name| + 1 + 10
  {
    var fs := HeaderFields(h);
    assert fs[1..][1..] == fs[2..] && fs[2..][1..] == fs[3..] && fs[3..][1..] == fs[4..] && fs[4..][1..] == [];
    assert StructLen(fs[4..]) == 2;
    assert StructLen(fs[3..]) == 6;
    assert StructLen(fs[2..]) == 8;
    assert StructLen(fs[1..]) == 10;
  }

  function RecordsSize(rs: seq<Record>): (n: nat) {
    if rs == [] then 0 else RecordSize(rs[0]) + RecordsSize(rs[1..])
  }

  function DataSizes(rs: seq<Record>): (ns: seq<nat>) {
    if rs == [] then [] else [StructSize(DataFields(rs[0].data))] + DataSizes(rs[1..])
  }

  lemma {:induction false} RecordsPackExactly(rs: seq<Record>, off: nat, lenmsg: nat, cmap: CMap)
    requires off + RecordsLen(rs) + 1 <= lenmsg
    ensures PackRecords(rs, off, lenmsg, cmap, false).Put? <==> forall i :: 0 <= i < |rs| ==> RecordPacks(rs[i])
    ensures var p := PackRecords(rs, off, lenmsg, cmap, false);
            p.Put? ==> && |p.bytes| == RecordsSize(rs) <= RecordsLen(rs) && p.cmap == cmap
                       && DataLengths(rs, off, lenmsg, cmap, false) == DataSizes(rs)
    decreases |rs|
  {
    hide PackRecord, RecordPacks, RecordSize, RecordLen, DataFields, StructSize, DataLength;
    if rs != [] {
      RecordPacksExactly(rs[0], off, lenmsg, cmap);
      assert rs == [rs[0]] + rs[1..];
      if RecordPacks(rs[0]) {
        RecordsPackExactly(rs[1..], off + RecordSize(rs[0]), lenmsg, cmap);
      }
    }
  }

  function QuestionSize(q: Question): (n: nat) {
    FieldSize(DomainName(q.name, true)) + 4
  }

  function QuestionsSize(qs: seq<Question>): (n: nat) {
    if qs == [] then 0 else QuestionSize(qs[0]) + QuestionsSize(qs[1..])
  }

  lemma QuestionPacksExactly(q: Question, off: nat, lenmsg: nat, cmap: CMap)
    requires off + QuestionLen(q) + 1 <= lenmsg
    ensures PackStruct(QuestionFields(q), off, lenmsg, cmap, false).Put? <==> NamePacks(q.name)
    ensures var r := PackStruct(QuestionFields(q), off, lenmsg, cmap, false);
            r.Put? ==> |r.bytes| == QuestionSize(q) <= QuestionLen(q) && r.cmap == cmap
  {
    hide PackStruct, NamePacks, Fields, Tokens, LabelsSize;
    QuestionParts(q);
    StructPacksExactly(QuestionFields(q), off, lenmsg, cmap);
  }

  lemma QuestionParts(q: Question)
    ensures StructLen(QuestionFields(q)) == QuestionLen(q) && StructSize(QuestionFields(q)) == QuestionSize(q)
    ensures AllPack(QuestionFields(q)) <==> NamePacks(q.name)
  {
    hide NamePacks, Fields, Tokens, LabelsSize;
    var fs := QuestionFields(q);
    assert fs[1..][1..] == fs[2..] && fs[2..][1..] == [];
    assert FieldPacks(fs[0]) <==> NamePacks(q.name);
    assert StructSize(fs[2..]) == 2 && StructLen(fs[2..]) == 2;
    assert StructSize(fs[1..]) == 4 && StructLen(fs[1..]) == 4;
  }

  lemma {:induction false} QuestionsPackExactly(qs: seq<Question>, off: nat, lenmsg: nat, cmap: CMap)
    requires off + QuestionsLen(qs) + 1 <= lenmsg
    ensures PackQuestions(qs, off, lenmsg, cmap, false).Put? <==> forall i :: 0 <= i < |qs| ==> NamePacks(qs[i].name)
    ensures var p := PackQuestions(qs, off, lenmsg, cmap, false);
            p.Put? ==> |p.bytes| == QuestionsSize(qs) <= QuestionsLen(qs) && p.cmap == cmap
    decreases |qs|
  {
    hide PackStruct, NamePacks, QuestionSize, QuestionLen, QuestionFields;
    if qs != [] {
      QuestionPacksExactly(qs[0], off, lenmsg, cmap);
      assert qs == [qs[0]] + qs[1..];
      if NamePacks(qs[0].name) {
        QuestionsPackExactly(qs[1..], off + QuestionSize(qs[0]), lenmsg, cmap);
      }
    }
  }

  // ----- messages -----

  predicate MessagePacks(m: Message) {
    && 0 <= m.rcode <= 15
    && (forall i :: 0 <= i < |m.question| ==> NamePacks(m.question[i].name))
    && (forall i :: 0 <= i < |m.answer| ==> RecordPacks(m.answer[i]))
    && (forall i :: 0 <= i < |m.ns| ==> RecordPacks(m.ns[i]))
    && (forall i :: 0 <= i < |m.extra| ==> RecordPacks(m.extra[i]))
  }

  /** The packed message takes the bytes of its parts, and lens are the sizes of the data. */
  ghost predicate OfSize(m: Message, p: FieldPack, lens: Lengths)
    requires p.Put?
  {
    && |p.bytes| == 12 + QuestionsSize(m.question) + RecordsSize(m.answer) + RecordsSize(m.ns) + RecordsSize(m.extra)
    && lens.answer == DataSizes(m.answer) && lens.ns == DataSizes(m.ns) && lens.extra == DataSizes(m.extra)
  }

  /**
    Main result: with a byte more than Len, a message packs without compression exactly when its response code is at
    most 15 and every name, text, address and length of data is one that packs; it takes exactly the bytes of its
    parts, and the Rdlengths are the sizes of the data.
    */
  lemma MessagePacksExactly(m: Message, lenmsg: nat)
    requires !m.compress && lenmsg >= MessageLen(m) + 1
    ensures PackMessage(m, lenmsg).Put? <==> MessagePacks(m)
    ensures PackMessage(m, lenmsg).Put? ==> OfSize(m, PackMessage(m, lenmsg), MessageLengths(m, lenmsg))
  {
    hide PackStruct, PackQuestions, PackRecords, MessageHeader, QuestionsLen, RecordsLen, QuestionsSize, RecordsSize, NamePacks,
      RecordPacks, DataLengths, DataSizes;
    HeaderPacks12(m, lenmsg);
    QuestionsPackExactly(m.question, 12, lenmsg, map[]);
    if (forall i :: 0 <= i < |m.question| ==> NamePacks(m.question[i].name)) {
      var off1 := 12 + QuestionsSize(m.question);
      PackRecordsAppend(m.answer + m.ns, m.extra, off1, lenmsg, map[], false);
      PackRecordsAppend(m.answer, m.ns, off1, lenmsg, map[], false);
      RecordsPackExactly(m.answer, off1, lenmsg, map[]);
      if (forall i :: 0 <= i < |m.answer| ==> RecordPacks(m.answer[i])) {
        var off2 := off1 + RecordsSize(m.answer);
        RecordsPackExactly(m.ns, off2, lenmsg, map[]);
        if (forall i :: 0 <= i < |m.ns| ==> RecordPacks(m.ns[i])) {
          RecordsPackExactly(m.extra, off2 + RecordsSize(m.ns), lenmsg, map[]);
        }
      }
    }
  }

  /**
    A message in the unpacker's form, its names not empty, that packs by the conditions above comes back as it was, with
    the sizes of the data as Rdlengths.
    */
  lemma MessageComesBack(m: Message, lenmsg: nat)
    requires MessageAsRead(m) && GoodMessage(m) && MessagePacks(m) && lenmsg >= MessageLen(m) + 1
    ensures PackMessage(m, lenmsg).Put?
    ensures var lens := MessageLengths(m, lenmsg);
            && OfSize(m, PackMessage(m, lenmsg), lens)
            && ReadMessage(PackMessage(m, lenmsg).bytes) ==
               MessageAt(m.(answer := WithLengths(m.answer, lens.answer), ns := WithLengths(m.ns, lens.ns),
                            extra := WithLengths(m.extra, lens.extra)))
  {
    hide PackMessage, MessageLengths, ReadMessage, GoodMessage, MessagePacks, OfSize, WithLengths;
    MessagePacksExactly(m, lenmsg);
    StableRoundTrip(m, lenmsg);
  }

  lemma HeaderPacks12(m: Message, lenmsg: nat)
    requires lenmsg >= 13
    ensures var h := PackStruct(MessageHeader(m), 0, lenmsg, map[], false); h.Put? && |h.bytes| == 12 && h.cmap == map[]
  {
    hide PackStruct, HeaderBits;
    HeaderIsFields(m);
    StructPacksExactly(MessageHeader(m), 0, lenmsg, map[]);
    WordsIgnoreMap(MessageHeader(m), 0, lenmsg, map[], false);
  }
}
