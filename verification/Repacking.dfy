/**
  What Unpack returns, packed and unpacked again (msg.go): whatever bytes a message was read from, its names and texts
  are in the form in which they come back.
  */
module Repacking {
  import opened Bytes
  import opened NameText
  import opened NameReader
  import opened TextStrings
  import opened WireFields
  import opened Records
  import opened RecordReader
  import opened Messages
  import opened MessageReader

  /** A field in the unpacker's form. The name of a record without data may be empty. */
  predicate AsRead(f: Field) {
    (f.DomainName? && f.name == []) || (GoodField(f) && CanonicalField(f) == f)
  }

  predicate AllAsRead(fs: seq<Field>) {
    forall i :: 0 <= i < |fs| ==> AsRead(fs[i])
  }

  lemma NameAsRead(msg: Bytes, off: nat)
    ensures var r := UnpackName(msg, off); r.Name? ==> GoodName(r.text) && Canonical(r.text) == r.text
  {
    hide ReadLabels, Tokens, Fields, DottedText;
    match ReadLabels(msg, off, 0)
    case ReadFailed(_) =>
    case LabelsRead(ls, _, _) =>
      CanonicalName(ls);
      if ls != [] {
        TextRead(ls);
        DottedTextEnd(ls);
        FirstField(DottedText(ls));
        assert ls[0] != [];
      }
  }

  lemma {:induction false} StringsAsRead(msg: Bytes, off: nat, rdend: nat)
    ensures var r := ReadStrings(msg, off, rdend); r.StringsAt? ==> CanonicalTexts(r.texts) == r.texts
    decreases rdend - off
  {
    hide TextOf, CanonicalText, CanonicalTexts;
    TextsCons([], []);
    if off < rdend && ReadString(msg, off).StringAt? {
      var one := ReadString(msg, off);
      CanonicalTextStable(msg[off + 1..off + 1 + msg[off] as int]);
      StringsAsRead(msg, one.next, rdend);
      var more := ReadStrings(msg, one.next, rdend);
      if more.StringsAt? {
        TextsCons(one.text, more.texts);
      }
    }
  }

  lemma TextsCons(t: Bytes, ts: seq<Bytes>)
    ensures CanonicalText(t) == t && CanonicalTexts(ts) == ts ==> CanonicalTexts([t] + ts) == [t] + ts
    ensures CanonicalTexts([]) == []
  {
    hide CanonicalText;
    var cs := CanonicalTexts([t] + ts);
    if CanonicalText(t) == t && CanonicalTexts(ts) == ts {
      assert forall i :: 0 < i < |cs| ==> cs[i] == CanonicalTexts(ts)[i - 1];
    }
  }

  lemma FieldAsRead(msg: Bytes, off: nat, lenrd: nat, shape: Shape)
    requires off <= |msg|
    ensures var r := ReadField(msg, off, lenrd, shape); r.Got? ==> AsRead(r.field)
  {
    hide UnpackName, ReadStrings, Canonical, CanonicalText, CanonicalTexts, FromU16, FromU32;
    ZeroAsRead(shape);
    NameAsRead(msg, off);
    StringsAsRead(msg, off, lenrd);
  }

  lemma ZeroAsRead(shape: Shape)
    ensures AsRead(Zero(shape))
  {
    hide Canonical, CanonicalTexts;
    TextsCons([], []);
  }

  lemma {:induction false} StructAsRead(msg: Bytes, off: nat, lenrd: nat, shapes: seq<Shape>)
    ensures var r := ReadStruct(msg, off, lenrd, shapes); r.Struct? ==> AllAsRead(r.fields)
    decreases |shapes|
  {
    hide ReadField, AsRead;
    if shapes == [] {
    } else if lenrd != 0 && lenrd == off {
      forall shape ensures AsRead(Zero(shape)) {
        ZeroAsRead(shape);
      }
    } else if off <= |msg| {
      FieldAsRead(msg, off, lenrd, shapes[0]);
      var r := ReadField(msg, off, lenrd, shapes[0]);
      if r.Got? {
        StructAsRead(msg, r.next, lenrd, shapes[1..]);
      }
    }
  }

  predicate RecordAsRead(r: Record) {
    r.hdr.rrtype == TypeOf(r.data) && AllAsRead(HeaderFields(r.hdr)) && AllAsRead(DataFields(r.data))
  }

  lemma OneRecordAsRead(msg: Bytes, off: nat)
    ensures var r := ReadRecord(msg, off); r.RecordAt? ==> RecordAsRead(r.record)
  {
    hide ReadStruct, AsRead, HeaderFields, DataFields, TypeOf;
    StructAsRead(msg, off, 0, HEADER_SHAPES);
    ReadStructShapes(msg, off, 0, HEADER_SHAPES);
    match ReadStruct(msg, off, 0, HEADER_SHAPES)
    case NoStruct(_) =>
    case Struct(fs, next) =>
      var h := ToHeader(fs);
      match DataShapes(h.rrtype)
      case None =>
      case Some(shapes) =>
        StructAsRead(msg, next, next + h.rdlength, shapes);
        ReadStructShapes(msg, next, next + h.rdlength, shapes);
  }

  lemma {:induction false} RecordsAsRead(msg: Bytes, off: nat, n: nat)
    ensures var r := ReadRecords(msg, off, n); r.RecordsAt? ==> |r.records| == n && forall i :: 0 <= i < |r.records| ==> RecordAsRead(r.records[i])
    decreases n
  {
    hide ReadRecord, RecordAsRead;
    if n > 0 {
      OneRecordAsRead(msg, off);
      var r := ReadRecord(msg, off);
      if r.RecordAt? {
        RecordsAsRead(msg, r.next, n - 1);
      }
    }
  }

  /** A record in the unpacker's form, none of its names empty, changes in its length at most. */
  lemma RecordStable(r: Record, n: u16)
    requires RecordAsRead(r) && GoodRecord(r)
    ensures CanonicalRecord(r, n) == r.(hdr := r.hdr.(rdlength := n))
  {
    hide Canonical, CanonicalData, CanonicalField;
    var c := CanonicalRecord(r, n);
    CanonicalIsFields(r, n);
    var fs := DataFields(r.data);
    forall i | 0 <= i < |fs| ensures CanonicalField(fs[i]) == fs[i] {
      assert AsRead(fs[i]) && GoodField(fs[i]);
    }
    assert DataFields(c.data) == fs;
    FromFieldsUnique(r.hdr, r.hdr, c.data, r.data);
    NameStable(r.hdr);
  }

  lemma NameStable(h: Header)
    requires AllAsRead(HeaderFields(h)) && GoodName(h.name)
    ensures Canonical(h.name) == h.name
  {
    hide Canonical;
    assert AsRead(HeaderFields(h)[0]);
  }

  lemma {:induction false} QuestionsAsRead(msg: Bytes, off: nat, n: nat)
    ensures var r := ReadQuestions(msg, off, n);
            r.QuestionsAt? ==> |r.questions| == n && forall i :: 0 <= i < |r.questions| ==> AllAsRead(QuestionFields(r.questions[i]))
    decreases n
  {
    hide ReadStruct, AsRead, QuestionFields;
    if n > 0 {
      StructAsRead(msg, off, 0, QUESTION_SHAPES);
      ReadStructShapes(msg, off, 0, QUESTION_SHAPES);
      var r := ReadStruct(msg, off, 0, QUESTION_SHAPES);
      if r.Struct? {
        QuestionsAsRead(msg, r.next, n - 1);
      }
    }
  }

  lemma QuestionStable(q: Question)
    requires AllAsRead(QuestionFields(q)) && GoodName(q.name)
    ensures CanonicalQuestion(q) == q
  {
    hide Canonical;
    assert AsRead(QuestionFields(q)[0]);
  }

  // ----- messages -----

  ghost predicate MessageAsRead(m: Message) {
    && (forall i :: 0 <= i < |m.question| ==> AllAsRead(QuestionFields(m.question[i])))
    && (forall i :: 0 <= i < |m.answer| ==> RecordAsRead(m.answer[i]))
    && (forall i :: 0 <= i < |m.ns| ==> RecordAsRead(m.ns[i]))
    && (forall i :: 0 <= i < |m.extra| ==> RecordAsRead(m.extra[i]))
    && 0 <= m.opcode < 16 && 0 <= m.rcode < 16 && !m.compress && CountsFit(m)
    && (m.truncated ==> m.answer == [] && m.ns == [] && m.extra == [])
  }

  /** Whatever bytes a message is read from, it is in the unpacker's form. */
  lemma EveryMessageAsRead(msg: Bytes)
    ensures ReadMessage(msg).MessageAt? ==> MessageAsRead(ReadMessage(msg).message)
  {
    hide ReadStruct, ReadQuestions, ReadRecords, RecordAsRead, AllAsRead, QuestionFields, HasBit;
    ReadStructShapes(msg, 0, 0, MESSAGE_SHAPES);
    var h := ReadStruct(msg, 0, 0, MESSAGE_SHAPES);
    if h.Struct? {
      assert forall i :: 0 <= i < 6 ==> ShapeOf(h.fields[i]) == MESSAGE_SHAPES[i];
      QuestionsAsRead(msg, h.next, h.fields[2].n);
      var qs := ReadQuestions(msg, h.next, h.fields[2].n);
      if qs.QuestionsAt? {
        SectionsAsRead(msg, qs.next, FromHeader(h.fields[0].n, h.fields[1].n).(question := qs.questions),
                       h.fields[3].n, h.fields[4].n, h.fields[5].n);
      }
    }
  }

  lemma SectionsAsRead(msg: Bytes, off: nat, m: Message, an: u16, ns: u16, ar: u16)
    requires forall i :: 0 <= i < |m.question| ==> AllAsRead(QuestionFields(m.question[i]))
    requires 0 <= m.opcode < 16 && 0 <= m.rcode < 16 && !m.compress && |m.question| < 0x1_0000
    ensures var r := ReadSections(msg, off, m, an, ns, ar); !m.truncated && r.MessageAt? ==> MessageAsRead(r.message)
  {
    hide ReadRecords, RecordAsRead, AllAsRead, QuestionFields;
    RecordsAsRead(msg, off, an);
    var a := ReadRecords(msg, off, an);
    if a.RecordsAt? {
      RecordsAsRead(msg, a.next, ns);
      var n := ReadRecords(msg, a.next, ns);
      if n.RecordsAt? {
        RecordsAsRead(msg, n.next, ar);
      }
    }
  }

  /** The records with the lengths of their data set. */
  function WithLengths(rs: seq<Record>, ns: seq<u16>): (cs: seq<Record>) {
    seq(|rs|, i requires 0 <= i < |rs| => if i < |ns| then rs[i].(hdr := rs[i].hdr.(rdlength := ns[i])) else rs[i])
  }

  lemma RecordsStable(rs: seq<Record>, cs: seq<Record>, ns: seq<u16>)
    requires forall i :: 0 <= i < |rs| ==> RecordAsRead(rs[i]) && GoodRecord(rs[i])
    requires AllRecordsBack(rs, cs, ns)
    ensures cs == WithLengths(rs, ns)
  {
    hide RecordAsRead, GoodRecord, CanonicalRecord;
    forall i | 0 <= i < |rs| ensures cs[i] == WithLengths(rs, ns)[i] {
      assert RecordBack(rs[i], cs[i], ns[i]);
      RecordStable(rs[i], ns[i]);
    }
  }

  lemma QuestionsStable(qs: seq<Question>, cs: seq<Question>)
    requires forall i :: 0 <= i < |qs| ==> AllAsRead(QuestionFields(qs[i])) && GoodName(qs[i].name)
    requires AllQuestionsBack(qs, cs)
    ensures cs == qs
  {
    hide AllAsRead, QuestionFields, CanonicalQuestion;
    forall i | 0 <= i < |qs| ensures cs[i] == qs[i] {
      QuestionStable(qs[i]);
    }
  }

  /** A message in the unpacker's form, none of its names empty, that packs without compression comes back with new data lengths. */
  lemma StableRoundTrip(m: Message, lenmsg: nat)
    requires MessageAsRead(m) && GoodMessage(m) && lenmsg >= MessageLen(m) + 1 && PackMessage(m, lenmsg).Put?
    ensures var lens := MessageLengths(m, lenmsg);
            ReadMessage(PackMessage(m, lenmsg).bytes) ==
            MessageAt(m.(answer := WithLengths(m.answer, lens.answer), ns := WithLengths(m.ns, lens.ns),
                         extra := WithLengths(m.extra, lens.extra)))
  {
    hide ReadMessage, PackMessage, MessageLengths, RecordAsRead, AllAsRead, GoodRecord, GoodName, AllRecordsBack, AllQuestionsBack;
    var lens := MessageLengths(m, lenmsg);
    MessageRoundTrip(m, lenmsg);
    var c := ReadMessage(PackMessage(m, lenmsg).bytes).message;
    QuestionsStable(m.question, c.question);
    if !m.truncated {
      RecordsStable(m.answer, c.answer, lens.answer);
      RecordsStable(m.ns, c.ns, lens.ns);
      RecordsStable(m.extra, c.extra, lens.extra);
    }
  }

  /**
    Main result: a message read from any bytes at all, none of its names empty, that packs without compression is read
    back as it was, every field of every section, but for the data lengths, which are those of the new bytes.
    */
  lemma UnpackPackUnpack(msg: Bytes, lenmsg: nat)
    requires ReadMessage(msg).MessageAt?
    requires var m := ReadMessage(msg).message;
             GoodMessage(m) && lenmsg >= MessageLen(m) + 1 && PackMessage(m, lenmsg).Put?
    ensures var m := ReadMessage(msg).message;
            var lens := MessageLengths(m, lenmsg);
            ReadMessage(PackMessage(m, lenmsg).bytes) ==
            MessageAt(m.(answer := WithLengths(m.answer, lens.answer), ns := WithLengths(m.ns, lens.ns),
                         extra := WithLengths(m.extra, lens.extra)))
  {
    hide ReadMessage, PackMessage, MessageLengths, MessageAsRead, GoodMessage, WithLengths;
    EveryMessageAsRead(msg);
    StableRoundTrip(ReadMessage(msg).message, lenmsg);
  }
}
