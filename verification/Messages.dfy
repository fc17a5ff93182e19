/** Whole messages: PackBuffer, Unpack and Len (msg.go), with the round trip and the bound that sizes the buffer. */
module Messages {
  import Arith
  import opened Bytes
  import opened Names
  import opened Options
  import opened WireFields
  import opened Records

  datatype Question = Question(name: Bytes, qtype: u16, qclass: u16)

  datatype Message = Message(
    id: u16, response: bool, opcode: int, authoritative: bool, truncated: bool, recursionDesired: bool,
    recursionAvailable: bool, zero: bool, authenticatedData: bool, checkingDisabled: bool, rcode: int, compress: bool,
    question: seq<Question>, answer: seq<Record>, ns: seq<Record>, extra: seq<Record>)

  function QuestionFields(q: Question): (fs: seq<Field>)
    ensures |fs| == 3
  {
    [DomainName(q.name, true), Word(q.qtype), Word(q.qclass)]
  }

  const QUESTION_SHAPES: seq<Shape> := [NameShape(true), WordShape, WordShape]

  function QuestionLen(q: Question): nat {
    |q.name| + 1 + 4
  }

  function QuestionsLen(qs: seq<Question>): (n: nat) {
    if qs == [] then 0 else QuestionLen(qs[0]) + QuestionsLen(qs[1..])
  }

  function RecordsLen(rs: seq<Record>): (n: nat) {
    if rs == [] then 0 else RecordLen(rs[0]) + RecordsLen(rs[1..])
  }

  /** Len of an uncompressed message. */
  function MessageLen(m: Message): (n: nat) {
    12 + QuestionsLen(m.question) + RecordsLen(m.answer) + RecordsLen(m.ns) + RecordsLen(m.extra)
  }

  // ----- the header word -----

  function Bit(b: bool): (n: nat)
    ensures n < 2 && (n == 1 <==> b)
  {
    if b then 1 else 0
  }

  function Word16(qr: bool, op: nat, aa: bool, tc: bool, rd: bool, ra: bool, z: bool, ad: bool, cd: bool, rc: nat): (bits: u16)
    requires op < 16 && rc < 16
  {
    Bit(qr) * 0x8000 + op * 0x800 + Bit(aa) * 0x400 + Bit(tc) * 0x200 + Bit(rd) * 0x100
    + Bit(ra) * 0x80 + Bit(z) * 0x40 + Bit(ad) * 0x20 + Bit(cd) * 0x10 + rc
  }

  /** The flags and codes in one 16-bit word. An opcode above 15 runs over into the response bit. */
  function HeaderBits(m: Message): (bits: u16) {
    Word16(m.response || m.opcode % 32 >= 16, m.opcode % 16, m.authoritative, m.truncated, m.recursionDesired,
           m.recursionAvailable, m.zero, m.authenticatedData, m.checkingDisabled, m.rcode % 16)
  }

  function HasBit(bits: u16, weight: nat): bool
    requires weight > 0
  {
    bits / weight % 2 == 1
  }

  /** Taking the word apart gives back every flag, and the codes modulo 16. */
  lemma BitsRoundTrip(m: Message)
    ensures var bits := HeaderBits(m);
            && HasBit(bits, 0x8000) == (m.response || m.opcode % 32 >= 16)
            && bits / 0x800 % 16 == m.opcode % 16
            && HasBit(bits, 0x400) == m.authoritative
            && HasBit(bits, 0x200) == m.truncated
            && HasBit(bits, 0x100) == m.recursionDesired
            && HasBit(bits, 0x80) == m.recursionAvailable
            && HasBit(bits, 0x40) == m.zero
            && HasBit(bits, 0x20) == m.authenticatedData
            && HasBit(bits, 0x10) == m.checkingDisabled
            && bits % 16 == m.rcode % 16
  {
    hide HasBit, Word16;
    WordApart(m.response || m.opcode % 32 >= 16, m.opcode % 16, m.authoritative, m.truncated, m.recursionDesired,
              m.recursionAvailable, m.zero, m.authenticatedData, m.checkingDisabled, m.rcode % 16);
  }

  lemma WordApart(qr: bool, op: nat, aa: bool, tc: bool, rd: bool, ra: bool, z: bool, ad: bool, cd: bool, rc: nat)
    requires op < 16 && rc < 16
    ensures var bits := Word16(qr, op, aa, tc, rd, ra, z, ad, cd, rc);
            && HasBit(bits, 0x8000) == qr && bits / 0x800 % 16 == op
            && HasBit(bits, 0x400) == aa && HasBit(bits, 0x200) == tc && HasBit(bits, 0x100) == rd
            && HasBit(bits, 0x80) == ra && HasBit(bits, 0x40) == z && HasBit(bits, 0x20) == ad && HasBit(bits, 0x10) == cd
            && bits % 16 == rc
  {
    hide Bit, HasBit;
    var bits := Word16(qr, op, aa, tc, rd, ra, z, ad, cd, rc);
    Quotients(bits, Bit(qr), op, Bit(aa), Bit(tc), Bit(rd), Bit(ra), Bit(z), Bit(ad), Bit(cd), rc);
    hide Word16;
    BitAt(bits, 0x8000, qr);
    BitAt(bits, 0x400, aa);
    BitAt(bits, 0x200, tc);
    BitAt(bits, 0x100, rd);
    BitAt(bits, 0x80, ra);
    BitAt(bits, 0x40, z);
    BitAt(bits, 0x20, ad);
    BitAt(bits, 0x10, cd);
  }

  lemma BitAt(bits: u16, weight: nat, b: bool)
    requires weight > 0 && bits / weight % 2 == Bit(b)
    ensures HasBit(bits, weight) == b
  {
  }

  /** Dividing by each weight leaves what stands above it. */
  lemma Quotients(bits: nat, qr: nat, op: nat, aa: nat, tc: nat, rd: nat, ra: nat, z: nat, ad: nat, cd: nat, rc: nat)
    requires qr < 2 && op < 16 && aa < 2 && tc < 2 && rd < 2 && ra < 2 && z < 2 && ad < 2 && cd < 2 && rc < 16
    requires bits == qr * 0x8000 + op * 0x800 + aa * 0x400 + tc * 0x200 + rd * 0x100 + ra * 0x80 + z * 0x40 + ad * 0x20 + cd * 0x10 + rc
    ensures bits / 0x8000 % 2 == qr && bits / 0x800 % 16 == op
    ensures bits / 0x400 % 2 == aa && bits / 0x200 % 2 == tc && bits / 0x100 % 2 == rd
    ensures bits / 0x80 % 2 == ra && bits / 0x40 % 2 == z && bits / 0x20 % 2 == ad && bits / 0x10 % 2 == cd
    ensures bits % 16 == rc
  {
    var q11 := qr * 16 + op;
    var q8 := q11 * 8 + aa * 4 + tc * 2 + rd;
    var low := ra * 0x80 + z * 0x40 + ad * 0x20 + cd * 0x10 + rc;
    Arith.Digit(bits, 0x10, 2, q8 * 8 + ra * 4 + z * 2 + ad, cd, rc);
    Arith.Digit(bits, 0x20, 2, q8 * 4 + ra * 2 + z, ad, cd * 0x10 + rc);
    Arith.Digit(bits, 0x40, 2, q8 * 2 + ra, z, ad * 0x20 + cd * 0x10 + rc);
    Arith.Digit(bits, 0x80, 2, q8, ra, z * 0x40 + ad * 0x20 + cd * 0x10 + rc);
    Arith.Digit(bits, 0x100, 2, q11 * 4 + aa * 2 + tc, rd, low);
    Arith.Digit(bits, 0x200, 2, q11 * 2 + aa, tc, rd * 0x100 + low);
    Arith.Digit(bits, 0x400, 2, q11, aa, tc * 0x200 + rd * 0x100 + low);
    Arith.Digit(bits, 0x800, 16, qr, op, aa * 0x400 + tc * 0x200 + rd * 0x100 + low);
    Arith.Digit(bits, 0x8000, 2, 0, qr, op * 0x800 + aa * 0x400 + tc * 0x200 + rd * 0x100 + low);
    Arith.Digit(bits, 1, 16, q8 * 16 + ra * 8 + z * 4 + ad * 2 + cd, rc, 0);
  }

  function MessageHeader(m: Message): (fs: seq<Field>)
    ensures |fs| == 6
  {
    [Word(m.id), Word(HeaderBits(m)), Word(|m.question| % 0x1_0000), Word(|m.answer| % 0x1_0000),
     Word(|m.ns| % 0x1_0000), Word(|m.extra| % 0x1_0000)]
  }

  const MESSAGE_SHAPES: seq<Shape> := [WordShape, WordShape, WordShape, WordShape, WordShape, WordShape]

  // ----- packing -----

  function PackQuestions(qs: seq<Question>, off: nat, lenmsg: nat, cmap: CMap, compress: bool): (r: FieldPack) {
    if qs == [] then Put([], cmap)
    else
      match PackStruct(QuestionFields(qs[0]), off, lenmsg, cmap, compress)
      case Faulty(f) => Faulty(f)
      case Put(b, cmap') => WireFields.After(b, PackQuestions(qs[1..], off + |b|, lenmsg, cmap', compress))
  }

  function PackRecords(rs: seq<Record>, off: nat, lenmsg: nat, cmap: CMap, compress: bool): (r: FieldPack) {
    if rs == [] then Put([], cmap)
    else
      match PackRecord(rs[0], off, lenmsg, cmap, compress)
      case Faulty(f) => Faulty(f)
      case Put(b, cmap') => WireFields.After(b, PackRecords(rs[1..], off + |b|, lenmsg, cmap', compress))
  }

  /** The header and the questions. */
  function FrontPack(m: Message, lenmsg: nat): (r: FieldPack) {
    match PackStruct(MessageHeader(m), 0, lenmsg, map[], m.compress)
    case Faulty(f) => Faulty(f)
    case Put(h, c0) => WireFields.After(h, PackQuestions(m.question, |h|, lenmsg, c0, m.compress))
  }

  /** The message's bytes in a buffer of lenmsg bytes. Without an OPT record, response codes above 15 are refused. */
  function PackMessage(m: Message, lenmsg: nat): (r: FieldPack) {
    if m.rcode < 0 || m.rcode > 0xF then Faulty(BadRcode)
    else
      match FrontPack(m, lenmsg)
      case Faulty(f) => Faulty(f)
      case Put(front, c) => WireFields.After(front, PackRecords(m.answer + m.ns + m.extra, |front|, lenmsg, c, m.compress))
  }

  // ----- the packer as the source runs it -----

  ghost predicate QuestionsExact(qs: seq<Question>, compress: bool) {
    forall i :: 0 <= i < |qs| ==> Exact(qs[i].name, compress)
  }

  /** Records whose packing the specification describes. */
  ghost predicate RecordsExact(rs: seq<Record>, compress: bool) {
    forall i :: 0 <= i < |rs| ==> RecordExact(rs[i], compress) && GoodName(rs[i].hdr.name)
  }

  predicate RecordsSized(rs: seq<Record>) {
    forall i :: 0 <= i < |rs| ==> AllSized(DataFields(rs[i].data))
  }

  lemma QuestionIsFields(q: Question, compress: bool)
    ensures StructLen(QuestionFields(q)) == QuestionLen(q) && AllSized(QuestionFields(q))
    ensures Exact(q.name, compress) ==> AllExact(QuestionFields(q), compress)
  {
    var fs := QuestionFields(q);
    assert fs[1..][1..] == fs[2..] && fs[2..][1..] == [];
    assert StructLen(fs[1..]) == 2 + StructLen(fs[2..]);
    assert StructLen(fs[2..]) == 2;
  }

  lemma QuestionsStep(qs: seq<Question>, k: nat, off: nat, lenmsg: nat, cmap: CMap, compress: bool, bytes: Bytes)
    requires k < |qs|
    ensures var r := PackStruct(QuestionFields(qs[k]), off, lenmsg, cmap, compress);
            WireFields.After(bytes, PackQuestions(qs[k..], off, lenmsg, cmap, compress)) ==
            if r.Faulty? then r
            else WireFields.After(bytes + r.bytes, PackQuestions(qs[k + 1..], off + |r.bytes|, lenmsg, r.cmap, compress))
    ensures QuestionsLen(qs[k..]) == QuestionLen(qs[k]) + QuestionsLen(qs[k + 1..])
  {
    hide PackStruct, QuestionFields, QuestionLen;
    assert qs[k..][0] == qs[k] && qs[k..][1..] == qs[k + 1..];
    var r := PackStruct(QuestionFields(qs[k]), off, lenmsg, cmap, compress);
    if r.Put? {
      AfterTwice(bytes, r.bytes, PackQuestions(qs[k + 1..], off + |r.bytes|, lenmsg, r.cmap, compress));
    }
  }

  method PackQuestionSection(qs: seq<Question>, msg: array<byte>, off0: nat, cmap0: CMap, compress: bool)
    returns (off: nat, cmap: CMap, fault: Option<Fault>, ghost bytes: Bytes)
    requires off0 <= msg.Length
    modifies msg
    ensures Wrote(old(msg[..]), msg[..], off0, bytes)
    ensures fault.None? ==> off == off0 + |bytes| <= msg.Length && |bytes| <= QuestionsLen(qs)
    ensures off0 + QuestionsLen(qs) + 1 <= msg.Length && fault.Some? ==> !OutOfRoom(fault.value)
    ensures QuestionsExact(qs, compress) ==>
              PackQuestions(qs, off0, msg.Length, cmap0, compress) ==
              match fault case None => Put(bytes, cmap) case Some(e) => Faulty(e)
  {
    hide PackStruct, QuestionFields, QuestionLen, QuestionsLen, PackQuestions, Wrote, Exact, AllSized, AllExact, OutOfRoom;
    off, cmap, fault, bytes := off0, cmap0, None, [];
    ghost var m := msg[..];
    WroteNothing(m, off0);
    assert qs[0..] == qs;
    AfterNothing(PackQuestions(qs, off0, msg.Length, cmap0, compress));
    for k := 0 to |qs|
      invariant fault.None? && off == off0 + |bytes| <= msg.Length
      invariant Wrote(m, msg[..], off0, bytes)
      invariant |bytes| + QuestionsLen(qs[k..]) <= QuestionsLen(qs)
      invariant QuestionsExact(qs, compress) ==>
                  PackQuestions(qs, off0, msg.Length, cmap0, compress) ==
                  WireFields.After(bytes, PackQuestions(qs[k..], off, msg.Length, cmap, compress))
    {
      QuestionsStep(qs, k, off, msg.Length, cmap, compress, bytes);
      QuestionIsFields(qs[k], compress);
      ghost var m1, more := msg[..], [];
      off, cmap, fault, more := PackStructValue(QuestionFields(qs[k]), msg, off, cmap, compress);
      WroteMore(m, m1, msg[..], off0, bytes, more);
      if fault.Some? {
        bytes := [];
        return;
      }
      bytes := bytes + more;
    }
    assert qs[|qs|..] == [];
    NoQuestions(bytes, off, msg.Length, cmap, compress);
  }

  lemma NoQuestions(bytes: Bytes, off: nat, lenmsg: nat, cmap: CMap, compress: bool)
    ensures WireFields.After(bytes, PackQuestions([], off, lenmsg, cmap, compress)) == Put(bytes, cmap)
  {
    assert bytes + [] == bytes;
  }

  lemma RecordsStep(rs: seq<Record>, k: nat, off: nat, lenmsg: nat, cmap: CMap, compress: bool, bytes: Bytes)
    requires k < |rs|
    ensures var r := PackRecord(rs[k], off, lenmsg, cmap, compress);
            WireFields.After(bytes, PackRecords(rs[k..], off, lenmsg, cmap, compress)) ==
            if r.Faulty? then r
            else WireFields.After(bytes + r.bytes, PackRecords(rs[k + 1..], off + |r.bytes|, lenmsg, r.cmap, compress))
    ensures RecordsLen(rs[k..]) == RecordLen(rs[k]) + RecordsLen(rs[k + 1..])
  {
    hide PackRecord, RecordLen;
    assert rs[k..][0] == rs[k] && rs[k..][1..] == rs[k + 1..];
    var r := PackRecord(rs[k], off, lenmsg, cmap, compress);
    if r.Put? {
      AfterTwice(bytes, r.bytes, PackRecords(rs[k + 1..], off + |r.bytes|, lenmsg, r.cmap, compress));
    }
  }

  /** A packed record keeps the map's offsets within a pointer's reach. */
  lemma RecordBounded(r: Record, off: nat, lenmsg: nat, cmap: CMap, compress: bool)
    requires Bounded(cmap) && RecordExact(r, compress) && PackRecord(r, off, lenmsg, cmap, compress).Put?
    ensures Bounded(PackRecord(r, off, lenmsg, cmap, compress).cmap)
  {
    hide PackField, PackStruct, HeaderBytes, Bounded, Exact;
    FieldBounded(DomainName(r.hdr.name, true), off, lenmsg, cmap, compress);
    var p := PackField(DomainName(r.hdr.name, true), off, lenmsg, cmap, compress);
    StructBounded(DataFields(r.data), off + |p.bytes| + 10, lenmsg, p.cmap, compress);
  }

  lemma {:induction false} StructBounded(fs: seq<Field>, off: nat, lenmsg: nat, cmap: CMap, compress: bool)
    requires Bounded(cmap) && PackStruct(fs, off, lenmsg, cmap, compress).Put?
    ensures Bounded(PackStruct(fs, off, lenmsg, cmap, compress).cmap)
    decreases |fs|
  {
    hide PackField, Bounded;
    if fs != [] {
      FieldBounded(fs[0], off, lenmsg, cmap, compress);
      var r := PackField(fs[0], off, lenmsg, cmap, compress);
      StructBounded(fs[1..], off + |r.bytes|, lenmsg, r.cmap, compress);
    }
  }

  lemma FieldBounded(f: Field, off: nat, lenmsg: nat, cmap: CMap, compress: bool)
    requires Bounded(cmap) && PackField(f, off, lenmsg, cmap, compress).Put?
    ensures Bounded(PackField(f, off, lenmsg, cmap, compress).cmap)
  {
    hide Walk, Tokens, Bounded;
    if f.DomainName? && f.name != [] {
      WalkBounded(f.name, Tokens(f.name), 0, 0, off, lenmsg, cmap, f.compressible && compress);
    }
  }

  lemma {:induction false} WalkBounded(s: Bytes, ts: seq<Tok>, k: nat, begin: nat, off: nat, lenmsg: nat, cmap: CMap, compress: bool)
    requires begin <= k <= |ts| <= |s| && Bounded(cmap)
    ensures var w := Walk(s, ts, k, begin, off, lenmsg, cmap, compress); !w.Stop? ==> Bounded(w.cmap)
    decreases |ts| - k
  {
    hide Chunk, Values;
    if k < |ts| {
      if !IsSep(ts[k]) {
        WalkBounded(s, ts, k + 1, begin, off, lenmsg, cmap, compress);
      } else if k - begin < 64 {
        var cmap' := Recorded(cmap, s[begin..], off, compress);
        WalkBounded(s, ts, k + 1, k + 1, off + 1 + (k - begin), lenmsg, cmap', compress);
      }
    }
  }

  method PackRRSection(rs: seq<Record>, msg: array<byte>, off0: nat, cmap0: CMap, compress: bool)
    returns (off: nat, cmap: CMap, fault: Option<Fault>, ghost bytes: Bytes)
    requires off0 <= msg.Length
    modifies msg
    ensures Wrote(old(msg[..]), msg[..], off0, bytes)
    ensures fault.None? ==> off == off0 + |bytes| <= msg.Length && |bytes| <= RecordsLen(rs)
    ensures off0 + RecordsLen(rs) + 1 <= msg.Length && fault.Some? && RecordsSized(rs) ==> !OutOfRoom(fault.value)
    ensures RecordsExact(rs, compress) && Bounded(cmap0) ==>
              && PackRecords(rs, off0, msg.Length, cmap0, compress) ==
                 (match fault case None => Put(bytes, cmap) case Some(e) => Faulty(e))
              && (fault.None? ==> Bounded(cmap))
  {
    hide PackRecord, RecordLen, RecordsLen, PackRecords, Wrote, RecordExact, AllSized, Bounded, OutOfRoom, GoodName;
    off, cmap, fault, bytes := off0, cmap0, None, [];
    ghost var m := msg[..];
    WroteNothing(m, off0);
    assert rs[0..] == rs;
    AfterNothing(PackRecords(rs, off0, msg.Length, cmap0, compress));
    for k := 0 to |rs|
      invariant fault.None? && off == off0 + |bytes| <= msg.Length
      invariant Wrote(m, msg[..], off0, bytes)
      invariant |bytes| + RecordsLen(rs[k..]) <= RecordsLen(rs)
      invariant RecordsExact(rs, compress) && Bounded(cmap0) ==>
                  && Bounded(cmap)
                  && PackRecords(rs, off0, msg.Length, cmap0, compress) ==
                     WireFields.After(bytes, PackRecords(rs[k..], off, msg.Length, cmap, compress))
    {
      RecordsStep(rs, k, off, msg.Length, cmap, compress, bytes);
      ghost var m1, cmap1, off1, more := msg[..], cmap, off, [];
      off, cmap, fault, more := PackRR(rs[k], msg, off, cmap, compress);
      WroteMore(m, m1, msg[..], off0, bytes, more);
      if fault.Some? {
        bytes := [];
        return;
      }
      if RecordsExact(rs, compress) && Bounded(cmap0) {
        RecordBounded(rs[k], off1, msg.Length, cmap1, compress);
      }
      bytes := bytes + more;
    }
    assert rs[|rs|..] == [];
    NoRecords(bytes, off, msg.Length, cmap, compress);
  }

  lemma NoRecords(bytes: Bytes, off: nat, lenmsg: nat, cmap: CMap, compress: bool)
    ensures WireFields.After(bytes, PackRecords([], off, lenmsg, cmap, compress)) == Put(bytes, cmap)
  {
    assert bytes + [] == bytes;
  }

  /** Packing two sections one after the other is packing them as one. */
  lemma {:induction false} PackRecordsAppend(a: seq<Record>, b: seq<Record>, off: nat, lenmsg: nat, cmap: CMap, compress: bool)
    ensures PackRecords(a + b, off, lenmsg, cmap, compress) ==
            match PackRecords(a, off, lenmsg, cmap, compress)
            case Faulty(f) => Faulty(f)
            case Put(x, c) => WireFields.After(x, PackRecords(b, off + |x|, lenmsg, c, compress))
    decreases |a|
  {
    hide PackRecord;
    if a == [] {
      assert a + b == b;
      AfterNothing(PackRecords(b, off, lenmsg, cmap, compress));
    } else {
      assert (a + b)[0] == a[0] && (a + b)[1..] == a[1..] + b;
      var r := PackRecord(a[0], off, lenmsg, cmap, compress);
      if r.Put? {
        PackRecordsAppend(a[1..], b, off + |r.bytes|, lenmsg, r.cmap, compress);
        var rest := PackRecords(a[1..], off + |r.bytes|, lenmsg, r.cmap, compress);
        if rest.Put? {
          AfterTwice(r.bytes, rest.bytes, PackRecords(b, off + |r.bytes| + |rest.bytes|, lenmsg, rest.cmap, compress));
        }
      }
    }
  }

  /** Two of the record sections in turn. */
  method PackTwoSections(a: seq<Record>, b: seq<Record>, msg: array<byte>, off0: nat, cmap0: CMap, compress: bool)
    returns (off: nat, cmap: CMap, fault: Option<Fault>, ghost bytes: Bytes)
    requires off0 <= msg.Length
    modifies msg
    ensures Wrote(old(msg[..]), msg[..], off0, bytes)
    ensures fault.None? ==> off == off0 + |bytes| <= msg.Length && |bytes| <= RecordsLen(a) + RecordsLen(b)
    ensures off0 + RecordsLen(a) + RecordsLen(b) + 1 <= msg.Length && fault.Some? && RecordsSized(a) && RecordsSized(b) ==>
              !OutOfRoom(fault.value)
    ensures RecordsExact(a, compress) && RecordsExact(b, compress) && Bounded(cmap0) ==>
              && PackRecords(a + b, off0, msg.Length, cmap0, compress) ==
                 (match fault case None => Put(bytes, cmap) case Some(e) => Faulty(e))
              && (fault.None? ==> Bounded(cmap))
  {
    hide PackRecords, RecordsLen, Wrote, RecordsExact, RecordsSized, Bounded, OutOfRoom;
    ghost var m := msg[..];
    off, cmap, fault, bytes := PackRRSection(a, msg, off0, cmap0, compress);
    PackRecordsAppend(a, b, off0, msg.Length, cmap0, compress);
    if fault.Some? {
      return;
    }
    ghost var m1, more := msg[..], [];
    off, cmap, fault, more := PackRRSection(b, msg, off, cmap, compress);
    WroteMore(m, m1, msg[..], off0, bytes, more);
    bytes := if fault.None? then bytes + more else [];
  }

  ghost predicate MessageExact(m: Message) {
    && QuestionsExact(m.question, m.compress) && RecordsExact(m.answer, m.compress)
    && RecordsExact(m.ns, m.compress) && RecordsExact(m.extra, m.compress)
  }

  predicate MessageSized(m: Message) {
    RecordsSized(m.answer) && RecordsSized(m.ns) && RecordsSized(m.extra)
  }

  lemma HeaderIsFields(m: Message)
    ensures StructLen(MessageHeader(m)) == 12 && AllSized(MessageHeader(m)) && AllExact(MessageHeader(m), m.compress)
  {
    hide HeaderBits;
    var fs := MessageHeader(m);
    assert fs[1..][1..] == fs[2..] && fs[2..][1..] == fs[3..] && fs[3..][1..] == fs[4..] && fs[4..][1..] == fs[5..];
    assert fs[5..][1..] == [];
    assert StructLen(fs[1..]) == 2 + StructLen(fs[2..]) && StructLen(fs[2..]) == 2 + StructLen(fs[3..]);
    assert StructLen(fs[3..]) == 2 + StructLen(fs[4..]) && StructLen(fs[4..]) == 2 + StructLen(fs[5..]);
    assert StructLen(fs[5..]) == 2;
  }

  /** The three record sections in turn. */
  method PackSections(m: Message, msg: array<byte>, off0: nat, cmap0: CMap)
    returns (off: nat, cmap: CMap, fault: Option<Fault>, ghost bytes: Bytes)
    requires off0 <= msg.Length
    modifies msg
    ensures Wrote(old(msg[..]), msg[..], off0, bytes)
    ensures fault.None? ==> off == off0 + |bytes| <= msg.Length
    ensures fault.None? ==> |bytes| <= RecordsLen(m.answer) + RecordsLen(m.ns) + RecordsLen(m.extra)
    ensures off0 + RecordsLen(m.answer) + RecordsLen(m.ns) + RecordsLen(m.extra) + 1 <= msg.Length && fault.Some? && MessageSized(m) ==>
              !OutOfRoom(fault.value)
    ensures MessageExact(m) && Bounded(cmap0) ==>
              PackRecords(m.answer + m.ns + m.extra, off0, msg.Length, cmap0, m.compress) ==
              match fault case None => Put(bytes, cmap) case Some(e) => Faulty(e)
  {
    hide PackRecords, RecordsLen, Wrote, RecordsExact, QuestionsExact, RecordsSized, Bounded, OutOfRoom;
    ghost var m0 := msg[..];
    off, cmap, fault, bytes := PackTwoSections(m.answer, m.ns, msg, off0, cmap0, m.compress);
    PackRecordsAppend(m.answer + m.ns, m.extra, off0, msg.Length, cmap0, m.compress);
    if fault.Some? {
      return;
    }
    ghost var m1, more := msg[..], [];
    off, cmap, fault, more := PackRRSection(m.extra, msg, off, cmap, m.compress);
    WroteMore(m0, m1, msg[..], off0, bytes, more);
    bytes := if fault.None? then bytes + more else [];
  }

  /** Header and question section. */
  method PackFront(m: Message, msg: array<byte>) returns (off: nat, cmap: CMap, fault: Option<Fault>, ghost bytes: Bytes)
    modifies msg
    ensures Wrote(old(msg[..]), msg[..], 0, bytes)
    ensures fault.None? ==> off == |bytes| <= msg.Length && |bytes| <= 12 + QuestionsLen(m.question)
    ensures 12 + QuestionsLen(m.question) + 1 <= msg.Length && fault.Some? ==> !OutOfRoom(fault.value)
    ensures MessageExact(m) ==>
              FrontPack(m, msg.Length) == match fault case None => Put(bytes, cmap) case Some(e) => Faulty(e)
  {
    hide PackQuestions, PackStruct, QuestionsLen, Wrote, RecordsExact, QuestionsExact, OutOfRoom, MessageHeader, StructLen, AllSized, AllExact;
    ghost var m0 := msg[..];
    HeaderIsFields(m);
    off, cmap, fault, bytes := PackStructValue(MessageHeader(m), msg, 0, map[], m.compress);
    if fault.Some? {
      return;
    }
    ghost var m1, more := msg[..], [];
    off, cmap, fault, more := PackQuestionSection(m.question, msg, off, cmap, m.compress);
    WroteMore(m0, m1, msg[..], 0, bytes, more);
    bytes := if fault.None? then bytes + more else [];
  }

  lemma NothingBounded()
    ensures Bounded(map[])
  {
  }

  lemma FrontBounded(m: Message, lenmsg: nat)
    requires FrontPack(m, lenmsg).Put?
    ensures Bounded(FrontPack(m, lenmsg).cmap)
  {
    hide PackQuestions, PackStruct, MessageHeader, Bounded;
    NothingBounded();
    StructBounded(MessageHeader(m), 0, lenmsg, map[], m.compress);
    var h := PackStruct(MessageHeader(m), 0, lenmsg, map[], m.compress);
    QuestionsBounded(m.question, |h.bytes|, lenmsg, h.cmap, m.compress);
  }

  lemma {:induction false} QuestionsBounded(qs: seq<Question>, off: nat, lenmsg: nat, cmap: CMap, compress: bool)
    requires Bounded(cmap) && PackQuestions(qs, off, lenmsg, cmap, compress).Put?
    ensures Bounded(PackQuestions(qs, off, lenmsg, cmap, compress).cmap)
    decreases |qs|
  {
    hide PackStruct, Bounded;
    if qs != [] {
      StructBounded(QuestionFields(qs[0]), off, lenmsg, cmap, compress);
      var r := PackStruct(QuestionFields(qs[0]), off, lenmsg, cmap, compress);
      QuestionsBounded(qs[1..], off + |r.bytes|, lenmsg, r.cmap, compress);
    }
  }

  /** What front and records amount to. */
  lemma WholePacked(m: Message, lenmsg: nat, front: Bytes, cmap: CMap)
    requires 0 <= m.rcode <= 0xF && FrontPack(m, lenmsg) == Put(front, cmap)
    ensures PackMessage(m, lenmsg) ==
            WireFields.After(front, PackRecords(m.answer + m.ns + m.extra, |front|, lenmsg, cmap, m.compress))
    ensures Bounded(cmap)
  {
    hide PackRecords, FrontPack, Bounded;
    FrontBounded(m, lenmsg);
  }

  /** Header and sections, put into a buffer that has room for Len and one byte more. */
  method PackInto(m: Message, msg: array<byte>) returns (off: nat, fault: Option<Fault>, ghost bytes: Bytes)
    requires 0 <= m.rcode <= 0xF && msg.Length >= MessageLen(m) + 1
    modifies msg
    ensures Wrote(old(msg[..]), msg[..], 0, bytes)
    ensures fault.None? ==> off == |bytes| <= MessageLen(m)
    ensures MessageSized(m) && fault.Some? ==> !OutOfRoom(fault.value)
    ensures MessageExact(m) ==>
              var p := PackMessage(m, msg.Length);
              match fault case None => p.Put? && p.bytes == bytes case Some(e) => p == Faulty(e)
  {
    hide PackRecords, FrontPack, RecordsLen, QuestionsLen, Wrote, RecordsSized, OutOfRoom, MessageExact, Bounded;
    ghost var m0 := msg[..];
    var cmap;
    off, cmap, fault, bytes := PackFront(m, msg);
    if fault.Some? {
      return;
    }
    ghost var m1, more := msg[..], [];
    if MessageExact(m) {
      WholePacked(m, msg.Length, bytes, cmap);
    }
    off, cmap, fault, more := PackSections(m, msg, off, cmap);
    WroteMore(m0, m1, msg[..], 0, bytes, more);
    bytes := bytes + more;
  }

  /**
    PackBuffer. The buffer it uses, the caller's or a new one, has one byte more than the uncompressed Len, and that
    is enough whether or not names are compressed: packing never runs out of it, and what it yields is no longer
    than Len.
    */
  method PackBuffer(m: Message, buf: array<byte>) returns (msg: array<byte>, off: nat, fault: Option<Fault>)
    modifies buf
    ensures msg == buf || fresh(msg)
    ensures fault.None? ==> off <= msg.Length && off <= MessageLen(m)
    ensures MessageSized(m) && fault.Some? ==> !OutOfRoom(fault.value)
    ensures MessageExact(m) ==>
              var p := PackMessage(m, msg.Length);
              match fault case None => p.Put? && p.bytes == msg[..off] case Some(e) => p == Faulty(e)
    ensures fault != Some(BadRcode) ==> msg.Length >= MessageLen(m) + 1
  {
    assert !OutOfRoom(BadRcode);
    hide PackRecords, FrontPack, RecordsLen, QuestionsLen, Wrote, RecordsSized, OutOfRoom, MessageExact;
    msg, off := buf, 0;
    if m.rcode < 0 || m.rcode > 0xFFF || m.rcode > 0xF {
      fault := Some(BadRcode);
      return;
    }
    var packLen := MessageLen(m) + 1;
    if msg.Length < packLen {
      msg := new byte[packLen](_ => 0);
    }
    ghost var m0 := msg[..];
    ghost var bytes;
    off, fault, bytes := PackInto(m, msg);
    if fault.None? {
      WroteSlice(m0, msg[..], 0, bytes);
      assert msg[..off] == msg[..][0..0 + |bytes|];
    }
  }
}
