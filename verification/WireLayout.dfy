/** Where everything stands on the wire, byte by byte, and what len counts (msg.go, types.go). */
module WireLayout {
  import opened Bytes
  import opened Names
  import opened NameText
  import opened NameReader
  import opened TextStrings
  import opened WireFields
  import opened Records
  import opened Messages
  import C = Compression

  // ----- headers -----

  /** Two bytes for each word, the most significant first. */
  function Two(n: u16): (b: Bytes) {
    [n / 256, n % 256]
  }

  function Four(n: u32): (b: Bytes) {
    [n / 16777216, n / 65536 % 256, n / 256 % 256, n % 256]
  }

  lemma TwoAndFour(n: int)
    ensures 0 <= n < 0x1_0000 ==> U16(n) == Two(n)
    ensures 0 <= n < 0x1_0000_0000 ==> U32(n) == Four(n)
  {
  }

  predicate Fixed(fs: seq<Field>) {
    forall i :: 0 <= i < |fs| ==> fs[i].Word? || fs[i].Long?
  }

  /** Words and longs one after the other. */
  function FixedBytes(fs: seq<Field>): (b: Bytes)
    requires Fixed(fs)
  {
    if fs == [] then []
    else (if fs[0].Word? then Two(fs[0].n) else Four(fs[0].l)) + FixedBytes(fs[1..])
  }

  lemma FixedCons(f: Field, fs: seq<Field>)
    requires (f.Word? || f.Long?) && Fixed(fs)
    ensures Fixed([f] + fs)
    ensures FixedBytes([f] + fs) == (if f.Word? then Two(f.n) else Four(f.l)) + FixedBytes(fs)
    ensures FixedBytes([]) == []
  {
    assert ([f] + fs)[1..] == fs;
  }

  lemma {:induction false} FixedPacked(fs: seq<Field>, off: nat, lenmsg: nat, cmap: CMap, compress: bool)
    requires Fixed(fs) && off + |FixedBytes(fs)| <= lenmsg
    ensures PackStruct(fs, off, lenmsg, cmap, compress) == FieldPack.Put(FixedBytes(fs), cmap)
    decreases |fs|
  {
    if fs != [] {
      TwoAndFour(if fs[0].Word? then fs[0].n else fs[0].l);
      hide Two, Four, U16, U32;
      var b := if fs[0].Word? then Two(fs[0].n) else Four(fs[0].l);
      Sizes(if fs[0].Word? then fs[0].n else 0, if fs[0].Word? then 0 else fs[0].l);
      FixedPacked(fs[1..], off + |b|, lenmsg, cmap, compress);
    }
  }

  lemma Sizes(n: u16, l: u32)
    ensures |Two(n)| == 2 && |Four(l)| == 4
  {
  }

  /** One field in front of others. */
  lemma PackedFirst(f: Field, fs: seq<Field>, off: nat, lenmsg: nat, cmap: CMap, compress: bool)
    ensures PackStruct([f] + fs, off, lenmsg, cmap, compress) ==
            match PackField(f, off, lenmsg, cmap, compress)
            case Faulty(e) => FieldPack.Faulty(e)
            case Put(b, cmap') => WireFields.After(b, PackStruct(fs, off + |b|, lenmsg, cmap', compress))
  {
    hide PackField;
    assert ([f] + fs)[1..] == fs;
  }

  lemma PackedOne(f: Field, off: nat, lenmsg: nat, cmap: CMap, compress: bool)
    ensures PackStruct([f], off, lenmsg, cmap, compress) == PackField(f, off, lenmsg, cmap, compress)
  {
    hide PackField;
    PackedFirst(f, [], off, lenmsg, cmap, compress);
    assert [f] + [] == [f];
    var r := PackField(f, off, lenmsg, cmap, compress);
    assert r.Put? ==> r.bytes + [] == r.bytes;
  }

  /** The message header: identifier, flags, and the numbers of questions, answers, authorities and additional records. */
  lemma HeaderLayout(m: Message, lenmsg: nat, cmap: CMap, compress: bool)
    requires lenmsg >= 12
    ensures PackStruct(MessageHeader(m), 0, lenmsg, cmap, compress) ==
            FieldPack.Put(Two(m.id) + (Two(HeaderBits(m)) + (Two(|m.question| % 65536) + (Two(|m.answer| % 65536)
                          + (Two(|m.ns| % 65536) + (Two(|m.extra| % 65536) + []))))), cmap)
  {
    hide HeaderBits, PackStruct, Two, FixedBytes;
    var q, a, n, e: u16 := |m.question| % 65536, |m.answer| % 65536, |m.ns| % 65536, |m.extra| % 65536;
    FixedCons(Word(e), []);
    FixedCons(Word(n), [Word(e)]);
    FixedCons(Word(a), [Word(n), Word(e)]);
    FixedCons(Word(q), [Word(a), Word(n), Word(e)]);
    FixedCons(Word(HeaderBits(m)), [Word(q), Word(a), Word(n), Word(e)]);
    FixedCons(Word(m.id), [Word(HeaderBits(m)), Word(q), Word(a), Word(n), Word(e)]);
    assert MessageHeader(m) == [Word(m.id)] + [Word(HeaderBits(m)), Word(q), Word(a), Word(n), Word(e)];
    assert [Word(e)] + [] == [Word(e)] && [Word(n)] + [Word(e)] == [Word(n), Word(e)];
    assert [Word(a)] + [Word(n), Word(e)] == [Word(a), Word(n), Word(e)];
    assert [Word(q)] + [Word(a), Word(n), Word(e)] == [Word(q), Word(a), Word(n), Word(e)];
    assert [Word(HeaderBits(m))] + [Word(q), Word(a), Word(n), Word(e)] == [Word(HeaderBits(m)), Word(q), Word(a), Word(n), Word(e)];
    Sizes(m.id, 0);
    Sizes(HeaderBits(m), 0);
    Sizes(q, 0);
    Sizes(a, 0);
    Sizes(n, 0);
    Sizes(e, 0);
    FixedPacked(MessageHeader(m), 0, lenmsg, cmap, compress);
  }

  /** A question: its name, type and class. */
  lemma QuestionLayout(q: Question, off: nat, lenmsg: nat, cmap: CMap, compress: bool)
    requires PackStruct(QuestionFields(q), off, lenmsg, cmap, compress).Put?
    ensures var name := PackName(q.name, off, lenmsg, cmap, compress);
            name.Packed? && PackStruct(QuestionFields(q), off, lenmsg, cmap, compress).bytes == name.bytes + (Two(q.qtype) + Two(q.qclass))
  {
    hide PackStruct, PackName, U16, Two;
    TwoAndFour(q.qtype);
    TwoAndFour(q.qclass);
    var name := PackName(q.name, off, lenmsg, cmap, compress);
    var fs := [Word(q.qtype), Word(q.qclass)];
    assert QuestionFields(q) == [DomainName(q.name, true)] + fs && fs == [Word(q.qtype)] + [Word(q.qclass)];
    PackedFirst(DomainName(q.name, true), fs, off, lenmsg, cmap, compress);
    if name.Packed? {
      var at := off + |name.bytes|;
      PackedFirst(Word(q.qtype), [Word(q.qclass)], at, lenmsg, name.cmap, compress);
      PackedOne(Word(q.qclass), at + 2, lenmsg, name.cmap, compress);
      Sizes(q.qtype, 0);
    }
  }

  // ----- records -----

  /** A record: owner name, type, class, TTL, the length of the data, and the data. */
  lemma RecordLayout(r: Record, off: nat, lenmsg: nat, cmap: CMap, compress: bool)
    requires PackRecord(r, off, lenmsg, cmap, compress).Put?
    ensures var name := PackName(r.hdr.name, off, lenmsg, cmap, compress);
            && name.Packed?
            && var data := PackStruct(DataFields(r.data), off + |name.bytes| + 10, lenmsg, name.cmap, compress);
            && data.Put? && |data.bytes| < 65536
            && PackRecord(r, off, lenmsg, cmap, compress).bytes ==
               name.bytes + Two(r.hdr.rrtype) + Two(r.hdr.rrclass) + Four(r.hdr.ttl) + Two(|data.bytes|) + data.bytes
  {
    hide PackStruct, PackName, DataFields;
    TwoAndFour(r.hdr.rrtype);
    TwoAndFour(r.hdr.rrclass);
    TwoAndFour(r.hdr.ttl);
    var name := PackName(r.hdr.name, off, lenmsg, cmap, compress);
    var data := PackStruct(DataFields(r.data), off + |name.bytes| + 10, lenmsg, name.cmap, compress);
    TwoAndFour(|data.bytes|);
    hide U16, U32, Two, Four;
  }

  /** The data of the types without numbers: an address, texts, or one name. */
  lemma DataLayout(d: Data, off: nat, lenmsg: nat, cmap: CMap, compress: bool)
    requires PackStruct(DataFields(d), off, lenmsg, cmap, compress).Put?
    ensures var b := PackStruct(DataFields(d), off, lenmsg, cmap, compress).bytes;
            && (d.A? ==> if |d.ip| == 16 then b == d.ip[12..] else b == d.ip && |d.ip| in {0, 4})
            && (d.AAAA? ==> b == d.ip6 && |d.ip6| in {0, 16})
            && (d.CNAME? ==> PackName(d.target, off, lenmsg, cmap, compress).Packed? && b == PackName(d.target, off, lenmsg, cmap, compress).bytes)
            && (d.NS? ==> PackName(d.ns, off, lenmsg, cmap, compress).Packed? && b == PackName(d.ns, off, lenmsg, cmap, compress).bytes)
            && (d.PTR? ==> PackName(d.ptr, off, lenmsg, cmap, compress).Packed? && b == PackName(d.ptr, off, lenmsg, cmap, compress).bytes)
            && (d.TXT? ==> PackTexts(d.texts, off, lenmsg).TextBytes? && b == PackTexts(d.texts, off, lenmsg).bytes)
  {
    hide PackStruct, PackName, PackTexts;
    if |DataFields(d)| == 1 {
      PackedOne(DataFields(d)[0], off, lenmsg, cmap, compress);
      assert DataFields(d) == [DataFields(d)[0]];
    }
  }

  /** SRV data: priority, weight, port, and the target, which is never compressed. */
  lemma SrvLayout(p: u16, w: u16, port: u16, host: Bytes, off: nat, lenmsg: nat, cmap: CMap, compress: bool)
    requires PackStruct(DataFields(SRV(p, w, port, host)), off, lenmsg, cmap, compress).Put?
    ensures var name := PackName(host, off + 6, lenmsg, cmap, false);
            && name.Packed?
            && PackStruct(DataFields(SRV(p, w, port, host)), off, lenmsg, cmap, compress).bytes ==
               Two(p) + (Two(w) + (Two(port) + name.bytes))
  {
    hide PackStruct, PackName, U16, Two;
    TwoAndFour(p);
    TwoAndFour(w);
    TwoAndFour(port);
    Sizes(p, 0);
    Sizes(w, 0);
    Sizes(port, 0);
    var name := DomainName(host, false);
    assert DataFields(SRV(p, w, port, host)) == [Word(p)] + [Word(w), Word(port), name];
    assert [Word(w), Word(port), name] == [Word(w)] + [Word(port), name] && [Word(port), name] == [Word(port)] + [name];
    PackedFirst(Word(p), [Word(w), Word(port), name], off, lenmsg, cmap, compress);
    PackedFirst(Word(w), [Word(port), name], off + 2, lenmsg, cmap, compress);
    PackedFirst(Word(port), [name], off + 4, lenmsg, cmap, compress);
    PackedOne(name, off + 6, lenmsg, cmap, compress);
  }

  /** bytes are the packed names s and m, one after the other, and then rest. */
  ghost predicate TwoNames(bytes: Bytes, s: Bytes, m: Bytes, rest: Bytes, off: nat, lenmsg: nat, cmap: CMap, compress: bool) {
    var a := PackName(s, off, lenmsg, cmap, compress);
    && a.Packed?
    && var b := PackName(m, off + |a.bytes|, lenmsg, a.cmap, compress);
    && b.Packed? && bytes == a.bytes + (b.bytes + rest)
  }

  /** SOA data: name server, mailbox, serial, refresh, retry, expire and minimum TTL. */
  lemma SoaLayout(s: Bytes, m: Bytes, serial: u32, refresh: u32, retry: u32, expire: u32, minttl: u32,
                  off: nat, lenmsg: nat, cmap: CMap, compress: bool)
    requires PackStruct(DataFields(SOA(s, m, serial, refresh, retry, expire, minttl)), off, lenmsg, cmap, compress).Put?
    ensures TwoNames(PackStruct(DataFields(SOA(s, m, serial, refresh, retry, expire, minttl)), off, lenmsg, cmap, compress).bytes,
                     s, m, Four(serial) + (Four(refresh) + (Four(retry) + (Four(expire) + Four(minttl)))), off, lenmsg, cmap, compress)
  {
    hide PackStruct, PackName, U32, Four;
    var longs := [Long(serial), Long(refresh), Long(retry), Long(expire), Long(minttl)];
    var m' := DomainName(m, true);
    assert DataFields(SOA(s, m, serial, refresh, retry, expire, minttl)) == [DomainName(s, true)] + ([m'] + longs);
    PackedFirst(DomainName(s, true), [m'] + longs, off, lenmsg, cmap, compress);
    var a := PackName(s, off, lenmsg, cmap, compress);
    if a.Packed? {
      PackedFirst(m', longs, off + |a.bytes|, lenmsg, a.cmap, compress);
      var b := PackName(m, off + |a.bytes|, lenmsg, a.cmap, compress);
      if b.Packed? {
        LongsLayout(serial, refresh, retry, expire, minttl, off + |a.bytes| + |b.bytes|, lenmsg, b.cmap, compress);
      }
    }
  }

  lemma LongsLayout(a: u32, b: u32, c: u32, d: u32, e: u32, off: nat, lenmsg: nat, cmap: CMap, compress: bool)
    ensures var r := PackStruct([Long(a), Long(b), Long(c), Long(d), Long(e)], off, lenmsg, cmap, compress);
            r.Put? ==> r.bytes == Four(a) + (Four(b) + (Four(c) + (Four(d) + Four(e)))) && r.cmap == cmap
  {
    hide PackStruct, U32, Four;
    TwoAndFour(a);
    TwoAndFour(b);
    TwoAndFour(c);
    TwoAndFour(d);
    TwoAndFour(e);
    Sizes(0, a);
    Sizes(0, b);
    Sizes(0, c);
    Sizes(0, d);
    var fs := [Long(a), Long(b), Long(c), Long(d), Long(e)];
    assert fs == [Long(a)] + [Long(b), Long(c), Long(d), Long(e)];
    assert [Long(b), Long(c), Long(d), Long(e)] == [Long(b)] + [Long(c), Long(d), Long(e)];
    assert [Long(c), Long(d), Long(e)] == [Long(c)] + [Long(d), Long(e)] && [Long(d), Long(e)] == [Long(d)] + [Long(e)];
    PackedFirst(Long(a), [Long(b), Long(c), Long(d), Long(e)], off, lenmsg, cmap, compress);
    PackedFirst(Long(b), [Long(c), Long(d), Long(e)], off + 4, lenmsg, cmap, compress);
    PackedFirst(Long(c), [Long(d), Long(e)], off + 8, lenmsg, cmap, compress);
    PackedFirst(Long(d), [Long(e)], off + 12, lenmsg, cmap, compress);
    PackedOne(Long(e), off + 16, lenmsg, cmap, compress);
  }

  // ----- reading -----

  /** An IPv4 address comes back in sixteen bytes: ten zeros, two of 255, and the four that were read. */
  lemma AddressRead(msg: Bytes, off: nat, lenrd: nat)
    requires off + 4 <= lenrd && off + 4 <= |msg|
    ensures ReadField(msg, off, lenrd, Address4Shape) ==
            Got(Address4([0, 0, 0, 0, 0, 0, 0, 0, 0, 0, 255, 255, msg[off], msg[off + 1], msg[off + 2], msg[off + 3]]), off + 4)
  {
    var four := [msg[off], msg[off + 1], msg[off + 2], msg[off + 3]];
    assert msg[off..off + 4] == four;
    assert [0, 0, 0, 0, 0, 0, 0, 0, 0, 0, 255, 255] + four
        == [0, 0, 0, 0, 0, 0, 0, 0, 0, 0, 255, 255, msg[off], msg[off + 1], msg[off + 2], msg[off + 3]];
  }

  /** Where the message ends, numbers are zero, names and texts empty; an address is missing only where its record ends. */
  lemma ReadAtEnd(msg: Bytes, lenrd: nat, c: bool)
    ensures ReadField(msg, |msg|, lenrd, WordShape) == Got(Word(0), |msg|)
    ensures ReadField(msg, |msg|, lenrd, LongShape) == Got(Long(0), |msg|)
    ensures ReadField(msg, |msg|, lenrd, NameShape(c)) == Got(DomainName([], c), |msg|)
    ensures ReadField(msg, |msg|, lenrd, TextsShape) == Got(Texts([]), |msg|)
    ensures ReadField(msg, |msg|, lenrd, Address4Shape) == if lenrd == |msg| then Got(Address4([]), |msg|) else NoField(ShortMessage)
    ensures ReadField(msg, |msg|, lenrd, Address6Shape) == if lenrd == |msg| then Got(Address6([]), |msg|) else NoField(ShortMessage)
  {
  }

  // ----- texts -----

  /** A text: the number of its characters, and the characters its escapes stand for. */
  lemma TextLayout(s: Bytes, off: nat, lenmsg: nat)
    requires PackString(s, off, lenmsg).TextBytes?
    ensures var vs := Values(Tokens(s));
            |vs| < 256 && PackString(s, off, lenmsg).bytes == [|vs|] + vs
  {
    hide Tokens, Values;
  }

  // ----- types and lengths -----

  /** The types by number, and the len of a record of each: the name with one byte more, ten for the header, and the data. */
  lemma LenIs(r: Record)
    ensures var l := |r.hdr.name| + 11;
            match r.data
            case A(_) => TypeOf(r.data) == 1 && RecordLen(r) == l + 4
            case NS(s) => TypeOf(r.data) == 2 && RecordLen(r) == l + |s| + 1
            case CNAME(s) => TypeOf(r.data) == 5 && RecordLen(r) == l + |s| + 1
            case SOA(s, m, _, _, _, _, _) => TypeOf(r.data) == 6 && RecordLen(r) == l + |s| + |m| + 22
            case PTR(s) => TypeOf(r.data) == 12 && RecordLen(r) == l + |s| + 1
            case TXT(ts) => TypeOf(r.data) == 16 && RecordLen(r) == l + TextsLen(ts)
            case AAAA(_) => TypeOf(r.data) == 28 && RecordLen(r) == l + 16
            case SRV(_, _, _, s) => TypeOf(r.data) == 33 && RecordLen(r) == l + |s| + 7
  {
  }

  /** The len of texts is that of all their characters and a byte for each. */
  lemma {:induction false} TextsLenIs(a: seq<Bytes>, t: Bytes)
    ensures TextsLen([]) == 0 && TextsLen(a + [t]) == TextsLen(a) + |t| + 1
    decreases |a|
  {
    if a == [] {
      assert a + [t] == [t] && [t][1..] == [];
    } else {
      TextsLenIs(a[1..], t);
      assert (a + [t])[1..] == a[1..] + [t];
    }
  }

  /** What one more question or record adds to the len of a message. */
  lemma {:induction false} SectionsLen(qs: seq<Question>, rs: seq<Record>, q: Question, r: Record)
    ensures QuestionsLen([]) == 0 && QuestionsLen(qs + [q]) == QuestionsLen(qs) + |q.name| + 5
    ensures RecordsLen([]) == 0 && RecordsLen(rs + [r]) == RecordsLen(rs) + RecordLen(r)
    decreases |qs| + |rs|
  {
    hide RecordLen;
    if qs != [] {
      SectionsLen(qs[1..], rs, q, r);
      assert (qs + [q])[1..] == qs[1..] + [q];
    } else {
      assert qs + [q] == [q] && [q][1..] == [];
    }
    if rs != [] {
      SectionsLen(qs, rs[1..], q, r);
      assert (rs + [r])[1..] == rs[1..] + [r];
    } else {
      assert rs + [r] == [r] && [r][1..] == [];
    }
  }

  // ----- names, byte by byte -----

  /** The name ns1. on the wire: a count, three characters and a zero byte, both ways. */
  lemma NsOne(lenmsg: nat, cmap: CMap)
    requires lenmsg >= 5
    ensures PackName([110, 115, 49, 46], 0, lenmsg, cmap, false) == Packed([3, 110, 115, 49, 0], 1, cmap)
    ensures UnpackName([3, 110, 115, 49, 0], 0) == Name([110, 115, 49, 46], 5)
  {
    hide PackName, UnpackName, Tokens, Fields, Wire;
    var ns1: Bytes := [110, 115, 49];
    var s: Bytes := ns1 + [46];
    assert s == [110, 115, 49, 46];
    C.PlainNameIs([ns1], s);
    PackMeaning(s, 0, lenmsg, cmap);
    WireOne(ns1);
    assert [3] + ns1 + [0] == [3, 110, 115, 49, 0];
    AtStart([3, 110, 115, 49, 0]);
    C.PlainNameRead([3, 110, 115, 49, 0], 0, [ns1]);
    C.JoinedOne(ns1);
  }

  lemma AtStart(msg: Bytes)
    ensures At(msg, 0, msg)
  {
    assert msg[0..0 + |msg|] == msg;
  }

  lemma WireOne(f: Bytes)
    requires |f| < 64
    ensures Wire([f]) == [|f|] + f
  {
    assert [f][1..] == [] && Wire([]) == [];
  }
}
