/** Reading records: UnpackRR (msg.go), and the round trip with PackRR. */
module RecordReader {
  import opened Bytes
  import opened Names
  import opened Options
  import opened NameReader
  import opened TextStrings
  import opened WireFields
  import opened Records

  datatype RecordRead = NoRecord(fault: ReadFault) | RecordAt(record: Record, next: nat)

  /** The header is read for the type and the length, then the whole record, which must end where the length says. */
  function ReadRecord(msg: Bytes, off: nat): (r: RecordRead) {
    match ReadStruct(msg, off, 0, HEADER_SHAPES)
    case NoStruct(f) => NoRecord(f)
    case Struct(fs, next) =>
      ReadStructShapes(msg, off, 0, HEADER_SHAPES);
      var h := ToHeader(fs);
      var end := next + h.rdlength;
      match DataShapes(h.rrtype)
      case None => NoRecord(OtherType)
      case Some(shapes) => ReadData(msg, next, end, h, shapes)
  }

  function ReadData(msg: Bytes, off: nat, end: nat, h: Header, shapes: seq<Shape>): (r: RecordRead)
    requires DataShapes(h.rrtype) == Some(shapes)
  {
    match ReadStruct(msg, off, end, shapes)
    case NoStruct(f) => NoRecord(if end != |msg| then RdlengthMismatch else f)
    case Struct(ds, next) =>
      ReadStructShapes(msg, off, end, shapes);
      assert Shapes(ds) == shapes;
      if next != end then NoRecord(RdlengthMismatch) else RecordAt(Record(h, ToData(h.rrtype, ds)), end)
  }

  method UnpackRR(msg: Bytes, off0: nat) returns (r: RecordRead)
    ensures r == ReadRecord(msg, off0)
  {
    hide ReadStruct, ToData, ToHeader, DataShapes;
    ReadStructShapes(msg, off0, 0, HEADER_SHAPES);
    var hdr := UnpackStructValue(msg, off0, 0, HEADER_SHAPES);
    if hdr.NoStruct? {
      return NoRecord(hdr.fault);
    }
    assert Shapes(hdr.fields) == HEADER_SHAPES;
    var h := ToHeader(hdr.fields);
    var end := hdr.next + h.rdlength;
    var shapes := DataShapes(h.rrtype);
    if shapes.None? {
      return NoRecord(OtherType);
    }
    // The header is read once more, as the first field of the record; it ends in the same place.
    var again := UnpackStructValue(msg, off0, 0, HEADER_SHAPES);
    ReadStructShapes(msg, again.next, end, shapes.value);
    var data := UnpackStructValue(msg, again.next, end, shapes.value);
    if data.NoStruct? {
      return NoRecord(if end != |msg| then RdlengthMismatch else data.fault);
    }
    if data.next != end {
      return NoRecord(RdlengthMismatch);
    }
    assert Shapes(data.fields) == shapes.value;
    r := RecordAt(Record(h, ToData(h.rrtype, data.fields)), end);
  }

  // ----- round trip -----

  function CanonicalData(d: Data): (c: Data)
    ensures TypeOf(c) == TypeOf(d)
  {
    match d
    case A(ip) => A(if |ip| == IPV4_LEN || |ip| == IPV6_LEN then V4_PREFIX + FourBytes(ip) else ip)
    case AAAA(ip) => d
    case TXT(texts) => TXT(CanonicalTexts(texts))
    case CNAME(s) => CNAME(Canonical(s))
    case NS(s) => NS(Canonical(s))
    case PTR(s) => PTR(Canonical(s))
    case SRV(p, w, port, s) => SRV(p, w, port, Canonical(s))
    case SOA(s, m, serial, refresh, retry, expire, minttl) =>
      SOA(Canonical(s), Canonical(m), serial, refresh, retry, expire, minttl)
  }

  /** A record as it comes back: names and texts in the unpacker's form, and the length the packer found. */
  function CanonicalRecord(r: Record, rdlength: u16): (c: Record) {
    Record(r.hdr.(name := Canonical(r.hdr.name), rdlength := rdlength), CanonicalData(r.data))
  }

  lemma CanonicalIsFields(r: Record, rdlength: u16)
    ensures DataFields(CanonicalData(r.data)) == CanonicalFields(DataFields(r.data))
    ensures HeaderFields(CanonicalRecord(r, rdlength).hdr) == CanonicalFields(HeaderFields(r.hdr.(rdlength := rdlength)))
  {
    hide Canonical, CanonicalTexts, FourBytes;
    var h := r.hdr.(rdlength := rdlength);
    var hs, cs := HeaderFields(h), HeaderFields(CanonicalRecord(r, rdlength).hdr);
    assert cs[0] == CanonicalField(hs[0]) && cs[1] == CanonicalField(hs[1]) && cs[2] == CanonicalField(hs[2]);
    assert cs[3] == CanonicalField(hs[3]) && cs[4] == CanonicalField(hs[4]);
    CanonicalDataFields(r.data);
  }

  lemma CanonicalDataFields(d: Data)
    ensures DataFields(CanonicalData(d)) == CanonicalFields(DataFields(d))
  {
    hide Canonical, CanonicalTexts, FourBytes;
    var fs, cs := DataFields(d), DataFields(CanonicalData(d));
    assert cs[0] == CanonicalField(fs[0]);
    if d.SRV? {
      assert cs[1] == CanonicalField(fs[1]) && cs[2] == CanonicalField(fs[2]) && cs[3] == CanonicalField(fs[3]);
    }
    if d.SOA? {
      assert cs[1] == CanonicalField(fs[1]) && cs[2] == CanonicalField(fs[2]) && cs[3] == CanonicalField(fs[3]);
      assert cs[4] == CanonicalField(fs[4]) && cs[5] == CanonicalField(fs[5]) && cs[6] == CanonicalField(fs[6]);
    }
    assert |cs| == |fs| && |fs| == (if d.SRV? then 4 else if d.SOA? then 7 else 1);
    assert forall i :: 0 <= i < |fs| ==> cs[i] == CanonicalField(fs[i]);
  }

  lemma ShapesOfData(d: Data)
    ensures DataShapes(TypeOf(d)) == Some(Shapes(DataFields(d)))
    ensures TailLast(DataFields(d))
  {
    var fs := DataFields(d);
    assert forall i :: 0 <= i < |fs| ==> Shapes(fs)[i] == ShapeOf(fs[i]);
    assert DataShapes(TypeOf(d)).value == Shapes(fs);
  }

  lemma ShapesOfHeader(h: Header)
    ensures Shapes(HeaderFields(h)) == HEADER_SHAPES
    ensures NoTail(HeaderFields(h)) && TailLast(HeaderFields(h))
  {
    var fs := HeaderFields(h);
    assert forall i :: 0 <= i < |fs| ==> Shapes(fs)[i] == ShapeOf(fs[i]);
  }

  /** Records are put together from their fields in one way only. */
  lemma FromFieldsUnique(h: Header, h': Header, d: Data, d': Data)
    ensures HeaderFields(h) == HeaderFields(h') ==> h == h'
    ensures TypeOf(d) == TypeOf(d') && DataFields(d) == DataFields(d') ==> d == d'
  {
    if HeaderFields(h) == HeaderFields(h') {
      assert HeaderFields(h)[0] == HeaderFields(h')[0] && HeaderFields(h)[1] == HeaderFields(h')[1];
      assert HeaderFields(h)[2] == HeaderFields(h')[2] && HeaderFields(h)[3] == HeaderFields(h')[3];
      assert HeaderFields(h)[4] == HeaderFields(h')[4];
    }
    if TypeOf(d) == TypeOf(d') && DataFields(d) == DataFields(d') {
      var fs, fs' := DataFields(d), DataFields(d');
      assert forall i :: 0 <= i < |fs| ==> fs[i] == fs'[i];
    }
  }

  /** r stands in msg from off to end, its data from mid on, with the length of the data in its header. */
  ghost predicate RecordLaid(msg: Bytes, off: nat, r: Record, mid: nat, end: nat, hends: seq<nat>, dends: seq<nat>) {
    && r.hdr.rrtype == TypeOf(r.data)
    && mid <= end && end - mid <= 0xFFFF
    && |hends| == 5 && AllLaid(msg, off, HeaderFields(r.hdr.(rdlength := end - mid)), hends) && hends[4] == mid
    && |dends| == |DataFields(r.data)| && AllLaid(msg, mid, DataFields(r.data), dends) && StartOf(mid, dends, |dends|) == end
  }

  lemma ReadLaidRecord(msg: Bytes, off: nat, r: Record, mid: nat, end: nat, hends: seq<nat>, dends: seq<nat>)
    requires RecordLaid(msg, off, r, mid, end, hends, dends)
    ensures ReadRecord(msg, off) == RecordAt(CanonicalRecord(r, end - mid), end)
  {
    hide ReadStruct, AllLaid, DataShapes, ToData, ToHeader, HeaderFields, DataFields, CanonicalData, TailLast, NoTail;
    var h := r.hdr.(rdlength := end - mid);
    var c := CanonicalRecord(r, end - mid);
    ShapesOfHeader(h);
    ReadLaidStruct(msg, off, 0, HeaderFields(h), hends);
    CanonicalIsFields(r, end - mid);
    ReadStructShapes(msg, off, 0, HEADER_SHAPES);
    var fs := ReadStruct(msg, off, 0, HEADER_SHAPES).fields;
    assert Shapes(fs) == HEADER_SHAPES;
    FromFieldsUnique(ToHeader(fs), c.hdr, r.data, r.data);
    ShapesOfData(r.data);
    var shapes := Shapes(DataFields(r.data));
    ReadLaidStruct(msg, mid, end, DataFields(r.data), dends);
    ReadStructShapes(msg, mid, end, shapes);
    var ds := ReadStruct(msg, mid, end, shapes).fields;
    assert Shapes(ds) == shapes;
    FromFieldsUnique(h, h, ToData(TypeOf(r.data), ds), c.data);
  }

  predicate GoodRecord(r: Record) {
    r.hdr.rrtype == TypeOf(r.data) && GoodName(r.hdr.name) && GoodFields(DataFields(r.data))
  }

  /** The length of the packed data, which the packer puts into the header. */
  function DataLength(r: Record, off: nat, lenmsg: nat, cmap: CMap, compress: bool): (n: u16)
    requires PackRecord(r, off, lenmsg, cmap, compress).Put?
  {
    var name := PackField(DomainName(r.hdr.name, true), off, lenmsg, cmap, compress);
    |PackStruct(DataFields(r.data), off + |name.bytes| + 10, lenmsg, name.cmap, compress).bytes|
  }

  /** A record packed without a map, with room, stands in the message with the length of its data. */
  lemma PackedRecordLaid(r: Record, off: nat, lenmsg: nat, cmap: CMap, msg: Bytes)
    returns (mid: nat, hends: seq<nat>, dends: seq<nat>)
    requires off + RecordLen(r) + 1 <= lenmsg && GoodRecord(r)
    requires PackRecord(r, off, lenmsg, cmap, false).Put?
    requires At(msg, off, PackRecord(r, off, lenmsg, cmap, false).bytes)
    ensures RecordLaid(msg, off, r, mid, off + |PackRecord(r, off, lenmsg, cmap, false).bytes|, hends, dends)
    ensures mid + DataLength(r, off, lenmsg, cmap, false) == off + |PackRecord(r, off, lenmsg, cmap, false).bytes|
    ensures |PackRecord(r, off, lenmsg, cmap, false).bytes| <= RecordLen(r)
  {
    hide PackField, PackStruct, At, AllLaid, StructLen, RecordLen, HeaderFields, DataFields, U32, U16, GoodFields, GoodName;
    var p := PackField(DomainName(r.hdr.name, true), off, lenmsg, cmap, false);
    var n := p.bytes;
    var d := PackStruct(DataFields(r.data), off + |n| + 10, lenmsg, p.cmap, false).bytes;
    var h := r.hdr.(rdlength := |d|);
    LenIsFields(r);
    LenIsFields(Record(h, r.data));
    SameLen(r, |d|);
    HeaderPacks(h, off, lenmsg, cmap, false);
    AtSplit(msg, off, HeaderBytes(n, r.hdr, |d|), d);
    GoodHeader(h);
    hends := PackedStructLaid(HeaderFields(h), off, lenmsg, cmap, msg);
    mid := off + |n| + 10;
    dends := PackedStructLaid(DataFields(r.data), mid, lenmsg, p.cmap, msg);
  }

  lemma SameLen(r: Record, rdlength: u16)
    ensures RecordLen(r.(hdr := r.hdr.(rdlength := rdlength))) == RecordLen(r)
  {
  }

  lemma GoodHeader(h: Header)
    requires GoodName(h.name)
    ensures GoodFields(HeaderFields(h)) && |HeaderFields(h)| == 5
  {
  }

  /**
    Main result for one record: packed without a map and with room, it is read back with every field restored, names
    and texts in canonical form, ending where the packer ended; the length that rawSetRdlength wrote is the one
    UnpackRR checks.
    */
  lemma RecordRoundTrip(r: Record, off: nat, lenmsg: nat, cmap: CMap, msg: Bytes)
    requires off + RecordLen(r) + 1 <= lenmsg && GoodRecord(r)
    requires PackRecord(r, off, lenmsg, cmap, false).Put?
    requires At(msg, off, PackRecord(r, off, lenmsg, cmap, false).bytes)
    ensures ReadRecord(msg, off) ==
            RecordAt(CanonicalRecord(r, DataLength(r, off, lenmsg, cmap, false)), off + |PackRecord(r, off, lenmsg, cmap, false).bytes|)
    ensures |PackRecord(r, off, lenmsg, cmap, false).bytes| <= RecordLen(r)
  {
    hide PackRecord, ReadRecord, At, CanonicalRecord, GoodRecord, DataLength, RecordLen, AllLaid, HeaderFields, DataFields, TypeOf;
    var mid, hends, dends := PackedRecordLaid(r, off, lenmsg, cmap, msg);
    ReadLaidRecord(msg, off, r, mid, off + |PackRecord(r, off, lenmsg, cmap, false).bytes|, hends, dends);
  }
}
