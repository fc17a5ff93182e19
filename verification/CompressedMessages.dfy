/**
  Whole messages with compressed names: PackBuffer with Compress set, and Unpack (msg.go).

  Packing a message is a run on one buffer and one map in the sense of module Compression: names are put there one
  after another, with the other fields' bytes in between.
  */
module CompressedMessages {
  import opened Bytes
  import opened Names
  import opened NameText
  import opened NameReader
  import opened Compression
  import opened WireFields
  import opened Records
  import opened RecordReader
  import opened Messages
  import opened MessageReader

  /** The names a pointer may stand for. */
  predicate Compressible(f: Field) {
    f.DomainName? && f.compressible && f.name != [DOT]
  }

  /** Compressible names are plain; the other fields are such as come back. */
  ghost predicate PlainField(f: Field) {
    if Compressible(f) then PlainName(f.name) else GoodField(f)
  }

  ghost predicate PlainFields(fs: seq<Field>) {
    forall i :: 0 <= i < |fs| ==> PlainField(fs[i])
  }

  // ----- the run that packing a message is -----

  function AfterField(f: Field, st: Buffer, lenmsg: nat): (st': Buffer) {
    match PackField(f, |st.msg|, lenmsg, st.cmap, true)
    case Faulty(_) => st
    case Put(b, cmap) =>
      Buffer(st.msg + b, cmap,
             if Compressible(f) then st.placed + [Placed(f.name, |st.msg|, |st.msg| + |b|)] else st.placed)
  }

  function AfterStruct(fs: seq<Field>, st: Buffer, lenmsg: nat): (st': Buffer)
    decreases |fs|
  {
    if fs == [] then st else AfterStruct(fs[1..], AfterField(fs[0], st, lenmsg), lenmsg)
  }

  /** The buffer a later one has grown from. */
  ghost predicate Grown(st: Buffer, later: Buffer) {
    st.msg <= later.msg && st.placed <= later.placed
  }

  /** The names with numbers from a up to b have chains the unpacker follows to their ends. */
  ghost predicate Reach(st: Buffer, a: nat, b: nat) {
    forall i :: a <= i < b && i < |st.placed| ==> Hops(st, i) <= MAX_HOPS
  }

  lemma ReachParts(st: Buffer, a: nat, b: nat, c: nat)
    requires a <= b <= c
    ensures Reach(st, a, c) <==> Reach(st, a, b) && Reach(st, b, c)
  {
    hide Hops;
  }

  lemma PlainIsCanonical(s: Bytes)
    requires PlainName(s)
    ensures Canonical(s) == s && GoodName(s) && SLASH !in s
  {
    hide Tokens, PlainByte;
    PackCompressed(s, 0, |s| + 1, map[]);
    FirstField(s);
    assert PlainLabel(LabelsOf(s)[0]);
  }

  lemma NotCompressed(f: Field, off: nat, lenmsg: nat, cmap: CMap)
    requires !Compressible(f)
    ensures PackField(f, off, lenmsg, cmap, true) == PackField(f, off, lenmsg, cmap, false)
  {
    hide Tokens;
    if f.DomainName? && f.compressible {
      RootTokens();
      RootEither(off, lenmsg, cmap);
    }
  }

  lemma RootTokens()
    ensures Tokens([DOT]) == [Tok(DOT, false)]
  {
    TokensPlain(DOT, []);
    assert [DOT] + [] == [DOT] && Tokens([]) == [];
  }

  lemma RootEither(off: nat, lenmsg: nat, cmap: CMap)
    ensures PackName([DOT], off, lenmsg, cmap, true) == PackName([DOT], off, lenmsg, cmap, false)
  {
    RootTokens();
    hide Tokens;
    var ts := Tokens([DOT]);
    assert [DOT][0..] == [DOT];
    assert Walk([DOT], ts, 1, 1, off + 1, lenmsg, cmap, true) == Walk([DOT], ts, 1, 1, off + 1, lenmsg, cmap, false);
  }

  /** A field keeps the buffer sound, takes at most its len, and is what the packer writes. */
  lemma FieldSound(f: Field, st: Buffer, lenmsg: nat)
    requires Sound(st) && PlainField(f) && |st.msg| + FieldLen(f) + 1 <= lenmsg
    requires PackField(f, |st.msg|, lenmsg, st.cmap, true).Put?
    ensures Sound(AfterField(f, st, lenmsg)) && Grown(st, AfterField(f, st, lenmsg))
    ensures |AfterField(f, st, lenmsg).msg| <= |st.msg| + FieldLen(f)
  {
    hide PackName, Sound, PlainName, PointerBytes, Compress, LabelsOf;
    var off := |st.msg|;
    if Compressible(f) {
      PackCompressed(f.name, off, lenmsg, st.cmap);
      PackCompressed(f.name, off, off + |f.name| + 1, st.cmap);
      PutSound(st, f.name);
      assert AfterField(f, st, lenmsg) == Do(st, Op.Put(f.name));
    } else {
      NotCompressed(f, off, lenmsg, st.cmap);
      SameMap(f, off, lenmsg, st.cmap);
      PackedLaid(f, off, lenmsg, st.cmap, st.msg);
      RawSound(st, PackField(f, off, lenmsg, st.cmap, false).bytes);
    }
  }

  /** Only compressed names enter the map. */
  lemma SameMap(f: Field, off: nat, lenmsg: nat, cmap: CMap)
    requires PackField(f, off, lenmsg, cmap, false).Put?
    ensures PackField(f, off, lenmsg, cmap, false).cmap == cmap
  {
    hide Walk, Tokens;
    if f.DomainName? && f.name != [] {
      WalkSameMap(f.name, Tokens(f.name), 0, 0, off, lenmsg, cmap);
    }
  }

  lemma {:induction false} WalkSameMap(s: Bytes, ts: seq<Tok>, k: nat, begin: nat, off: nat, lenmsg: nat, cmap: CMap)
    requires begin <= k <= |ts| <= |s|
    ensures var w := Walk(s, ts, k, begin, off, lenmsg, cmap, false); !w.Stop? ==> w.cmap == cmap
    decreases |ts| - k
  {
    hide Chunk, Values;
    if k < |ts| {
      if !IsSep(ts[k]) {
        WalkSameMap(s, ts, k + 1, begin, off, lenmsg, cmap);
      } else if k - begin < 64 {
        WalkSameMap(s, ts, k + 1, k + 1, off + 1 + (k - begin), lenmsg, cmap);
      }
    }
  }

  /** A packed field stands in every later buffer in which its chain is short enough. */
  lemma FieldStands(f: Field, st: Buffer, lenmsg: nat, later: Buffer)
    requires Sound(st) && PlainField(f) && |st.msg| + FieldLen(f) + 1 <= lenmsg
    requires PackField(f, |st.msg|, lenmsg, st.cmap, true).Put?
    requires Grown(AfterField(f, st, lenmsg), later) && Sound(later)
    requires Reach(later, |st.placed|, |AfterField(f, st, lenmsg).placed|)
    ensures Laid(later.msg, |st.msg|, f, |AfterField(f, st, lenmsg).msg|)
  {
    hide PackField, Sound, UnpackName, Hops, FieldLen;
    var off, st' := |st.msg|, AfterField(f, st, lenmsg);
    var b := PackField(f, off, lenmsg, st.cmap, true).bytes;
    if Compressible(f) {
      PlainIsCanonical(f.name);
      var i := |st.placed|;
      assert later.placed[i] == st'.placed[i] == Placed(f.name, off, off + |b|);
      ReadBack(later, i, []);
      assert later.msg + [] == later.msg;
      NameMoves(later.msg, off, f.name, off + |b|);
    } else {
      NotCompressed(f, off, lenmsg, st.cmap);
      PackedLaid(f, off, lenmsg, st.cmap, later.msg);
      AtPrefix(later.msg, st.msg, b);
    }
  }

  /** A name whose chain is too long cannot be read. */
  lemma FieldFails(f: Field, st: Buffer, lenmsg: nat, later: Buffer, lenrd: nat)
    requires Sound(st) && PlainField(f) && |st.msg| + FieldLen(f) + 1 <= lenmsg
    requires PackField(f, |st.msg|, lenmsg, st.cmap, true).Put?
    requires Grown(AfterField(f, st, lenmsg), later) && Sound(later)
    requires !Reach(later, |st.placed|, |AfterField(f, st, lenmsg).placed|)
    ensures |st.msg| < |later.msg| && ReadField(later.msg, |st.msg|, lenrd, ShapeOf(f)).NoField?
    ensures |st.msg| < |AfterField(f, st, lenmsg).msg|
  {
    hide PackField, Sound, UnpackName, Hops, FieldLen;
    var off, st' := |st.msg|, AfterField(f, st, lenmsg);
    var b := PackField(f, off, lenmsg, st.cmap, true).bytes;
    var i := |st.placed|;
    assert Compressible(f) && later.placed[i] == st'.placed[i] == Placed(f.name, off, off + |b|);
    ReadBack(later, i, []);
    assert later.msg + [] == later.msg;
    PlacedMoves(later, i);
  }

  /** A placed name has bytes. */
  lemma PlacedMoves(st: Buffer, i: nat)
    requires Sound(st) && i < |st.placed|
    ensures st.placed[i].at < st.placed[i].end <= |st.msg|
  {
    hide MapSound, DottedText;
    assert PlacedSound(st.msg, st.placed[i]);
    SpellMoves(st.msg, st.placed[i].at, st.placed[i].at);
  }

  lemma {:induction false} SpellMoves(msg: Bytes, start: nat, pos: nat)
    ensures var sp := Spell(msg, start, pos); sp.Spelled? ==> pos < sp.next <= |msg|
    decreases |msg| - pos
  {
    if pos < |msg| && 0 < msg[pos] < 64 && pos + 1 + msg[pos] <= |msg| {
      SpellMoves(msg, start, pos + 1 + msg[pos]);
    }
  }

  lemma AtPrefix(msg: Bytes, a: Bytes, b: Bytes)
    requires a + b <= msg
    ensures At(msg, |a|, b)
  {
    assert msg[|a|..|a| + |b|] == (a + b)[|a|..];
  }

  /** A name that is read ends behind its start, inside the message. */
  lemma NameMoves(msg: Bytes, off: nat, s: Bytes, end: nat)
    requires UnpackName(msg, off) == Name(s, end) && s != [DOT]
    ensures off < end <= |msg|
  {
    hide DottedText;
    ReadMoves(msg, off, 0);
  }

  lemma {:induction false} ReadMoves(msg: Bytes, off: nat, ptr: nat)
    requires ptr <= MAX_HOPS
    ensures var r := ReadLabels(msg, off, ptr); r.LabelsRead? ==> off < r.next <= |msg|
    decreases MAX_HOPS - ptr, |msg| - off
  {
    if off < |msg| {
      var c := msg[off];
      if 0 < c < 64 && off + 1 + c <= |msg| {
        ReadMoves(msg, off + 1 + c, ptr);
      }
    }
  }

  // ----- structures -----

  lemma GrownTwice(a: Buffer, b: Buffer, c: Buffer)
    requires Grown(a, b) && Grown(b, c)
    ensures Grown(a, c)
  {
  }

  lemma FieldAppends(f: Field, st: Buffer, lenmsg: nat)
    requires PackField(f, |st.msg|, lenmsg, st.cmap, true).Put?
    ensures var r, st' := PackField(f, |st.msg|, lenmsg, st.cmap, true), AfterField(f, st, lenmsg);
            st'.msg == st.msg + r.bytes && st'.cmap == r.cmap
  {
    hide PackField;
  }

  lemma {:induction false} StructSound(fs: seq<Field>, st: Buffer, lenmsg: nat)
    requires Sound(st) && PlainFields(fs) && |st.msg| + StructLen(fs) + 1 <= lenmsg
    requires PackStruct(fs, |st.msg|, lenmsg, st.cmap, true).Put?
    ensures var r, st' := PackStruct(fs, |st.msg|, lenmsg, st.cmap, true), AfterStruct(fs, st, lenmsg);
            && Sound(st') && Grown(st, st')
            && st'.msg == st.msg + r.bytes && st'.cmap == r.cmap && |r.bytes| <= StructLen(fs)
    decreases |fs|
  {
    hide Sound, PackField, AfterField, FieldLen, PlainField, Grown;
    if fs == [] {
      GrownIs(st);
    } else {
      assert PlainField(fs[0]);
      FieldSound(fs[0], st, lenmsg);
      FieldAppends(fs[0], st, lenmsg);
      var mid := AfterField(fs[0], st, lenmsg);
      var r := PackField(fs[0], |st.msg|, lenmsg, st.cmap, true);
      StructSound(fs[1..], mid, lenmsg);
      GrownTwice(st, mid, AfterStruct(fs, st, lenmsg));
      var more := PackStruct(fs[1..], |mid.msg|, lenmsg, mid.cmap, true).bytes;
      assert st.msg + (r.bytes + more) == st.msg + r.bytes + more;
    }
  }

  lemma {:induction false} StructStands(fs: seq<Field>, st: Buffer, lenmsg: nat, later: Buffer) returns (ends: seq<nat>)
    requires Sound(st) && PlainFields(fs) && |st.msg| + StructLen(fs) + 1 <= lenmsg
    requires PackStruct(fs, |st.msg|, lenmsg, st.cmap, true).Put?
    requires Grown(AfterStruct(fs, st, lenmsg), later) && Sound(later)
    requires Reach(later, |st.placed|, |AfterStruct(fs, st, lenmsg).placed|)
    ensures |ends| == |fs| && AllLaid(later.msg, |st.msg|, fs, ends)
    ensures StartOf(|st.msg|, ends, |ends|) == |AfterStruct(fs, st, lenmsg).msg|
    decreases |fs|
  {
    hide Sound, Reach, PackField, AfterField, FieldLen, PlainField, Grown, Laid;
    if fs == [] {
      return [];
    }
    var mid := SplitStruct(fs, st, lenmsg, later);
    ReachParts(later, |st.placed|, |mid.placed|, |AfterStruct(fs, st, lenmsg).placed|);
    FieldStands(fs[0], st, lenmsg, later);
    var rest := StructStands(fs[1..], mid, lenmsg, later);
    ends := [|mid.msg|] + rest;
    forall i | 0 <= i < |fs| ensures Laid(later.msg, StartOf(|st.msg|, ends, i), fs[i], ends[i]) {
      if i > 0 {
        assert Laid(later.msg, StartOf(|mid.msg|, rest, i - 1), fs[1..][i - 1], rest[i - 1]);
      }
    }
  }

  /** What packing the first field leaves for the others. */
  lemma SplitStruct(fs: seq<Field>, st: Buffer, lenmsg: nat, later: Buffer) returns (mid: Buffer)
    requires fs != [] && Sound(st) && PlainFields(fs) && |st.msg| + StructLen(fs) + 1 <= lenmsg
    requires PackStruct(fs, |st.msg|, lenmsg, st.cmap, true).Put? && Grown(AfterStruct(fs, st, lenmsg), later)
    ensures mid == AfterField(fs[0], st, lenmsg) && AfterStruct(fs, st, lenmsg) == AfterStruct(fs[1..], mid, lenmsg)
    ensures PlainField(fs[0]) && PlainFields(fs[1..]) && PackField(fs[0], |st.msg|, lenmsg, st.cmap, true).Put?
    ensures Sound(mid) && |mid.msg| + StructLen(fs[1..]) + 1 <= lenmsg && |st.msg| + FieldLen(fs[0]) + 1 <= lenmsg
    ensures PackStruct(fs[1..], |mid.msg|, lenmsg, mid.cmap, true).Put? && Grown(mid, later)
    ensures |st.placed| <= |mid.placed| <= |AfterStruct(fs, st, lenmsg).placed|
    ensures |st.msg| <= |mid.msg| <= |AfterStruct(fs, st, lenmsg).msg|
  {
    hide Sound, PackField, AfterField, FieldLen, PlainField;
    assert PlainField(fs[0]);
    FieldSound(fs[0], st, lenmsg);
    FieldAppends(fs[0], st, lenmsg);
    mid := AfterField(fs[0], st, lenmsg);
    StructSound(fs[1..], mid, lenmsg);
    GrownTwice(mid, AfterStruct(fs, st, lenmsg), later);
  }

  /** A structure with a name whose chain is too long cannot be read. */
  lemma {:induction false} StructFails(fs: seq<Field>, st: Buffer, lenmsg: nat, later: Buffer, lenrd: nat)
    requires Sound(st) && PlainFields(fs) && |st.msg| + StructLen(fs) + 1 <= lenmsg && TailLast(fs)
    requires PackStruct(fs, |st.msg|, lenmsg, st.cmap, true).Put?
    requires Grown(AfterStruct(fs, st, lenmsg), later) && Sound(later)
    requires !Reach(later, |st.placed|, |AfterStruct(fs, st, lenmsg).placed|)
    requires lenrd == 0 || lenrd >= |AfterStruct(fs, st, lenmsg).msg|
    ensures ReadStruct(later.msg, |st.msg|, lenrd, Shapes(fs)).NoStruct?
    ensures |st.msg| < |AfterStruct(fs, st, lenmsg).msg|
    decreases |fs|
  {
    hide Sound, PackField, AfterField, FieldLen, PlainField, Grown, Laid, ReadField, Tail, ShapeOf, StructLen, Hops;
    if fs != [] {
      var mid := SplitStruct(fs, st, lenmsg, later);
      ReachParts(later, |st.placed|, |mid.placed|, |AfterStruct(fs, st, lenmsg).placed|);
      hide Reach;
      assert Shapes(fs)[1..] == Shapes(fs[1..]);
      if !Reach(later, |st.placed|, |mid.placed|) {
        FieldFails(fs[0], st, lenmsg, later, lenrd);
      } else {
        assert fs[1..] != [] by { NothingAfter(fs, mid, lenmsg, later); }
        StructFails(fs[1..], mid, lenmsg, later, lenrd);
        FieldStands(fs[0], st, lenmsg, later);
        LaidMoves(later.msg, |st.msg|, fs[0], |mid.msg|);
        ReadLaid(later.msg, |st.msg|, lenrd, fs[0], |mid.msg|);
      }
    }
  }

  /** Behind the last field there is no name to fail on. */
  lemma NothingAfter(fs: seq<Field>, mid: Buffer, lenmsg: nat, later: Buffer)
    requires fs != [] && !Reach(later, |mid.placed|, |AfterStruct(fs[1..], mid, lenmsg).placed|)
    ensures fs[1..] != []
  {
    hide Hops, AfterField;
  }

  // ----- records -----

  ghost predicate PlainRecord(r: Record) {
    r.hdr.rrtype == TypeOf(r.data) && PlainFields(HeaderFields(r.hdr)) && PlainFields(DataFields(r.data))
  }

  /** The header as it is in the end, with the length of the data. */
  function FinalHeader(r: Record, st: Buffer, lenmsg: nat): (h: Header) {
    if PackRecord(r, |st.msg|, lenmsg, st.cmap, true).Put? then
      r.hdr.(rdlength := DataLength(r, |st.msg|, lenmsg, st.cmap, true))
    else r.hdr
  }

  function AfterRecord(r: Record, st: Buffer, lenmsg: nat): (st': Buffer) {
    if PackRecord(r, |st.msg|, lenmsg, st.cmap, true).Put? then
      AfterStruct(DataFields(r.data), AfterStruct(HeaderFields(FinalHeader(r, st, lenmsg)), st, lenmsg), lenmsg)
    else st
  }

  /** r is packed as the header h and then its data, of the length in h. */
  ghost predicate TwoStructs(r: Record, h: Header, st: Buffer, lenmsg: nat) {
    var p := PackStruct(HeaderFields(h), |st.msg|, lenmsg, st.cmap, true);
    && p.Put?
    && var d := PackStruct(DataFields(r.data), |st.msg| + |p.bytes|, lenmsg, p.cmap, true);
    && d.Put? && |d.bytes| == h.rdlength
    && PackRecord(r, |st.msg|, lenmsg, st.cmap, true) == FieldPack.Put(p.bytes + d.bytes, d.cmap)
  }

  /** Packing a record is packing its final header and then its data. */
  lemma RecordIsStructs(r: Record, st: Buffer, lenmsg: nat)
    requires PackRecord(r, |st.msg|, lenmsg, st.cmap, true).Put?
    ensures TwoStructs(r, FinalHeader(r, st, lenmsg), st, lenmsg)
  {
    hide PackField, PackStruct, U16, U32, DataFields, HeaderFields;
    HeaderPacks(FinalHeader(r, st, lenmsg), |st.msg|, lenmsg, st.cmap, true);
  }

  lemma RecordSound(r: Record, st: Buffer, lenmsg: nat)
    requires Sound(st) && PlainRecord(r) && |st.msg| + RecordLen(r) + 1 <= lenmsg
    requires PackRecord(r, |st.msg|, lenmsg, st.cmap, true).Put?
    ensures var p, st' := PackRecord(r, |st.msg|, lenmsg, st.cmap, true), AfterRecord(r, st, lenmsg);
            && Sound(st') && Grown(st, st')
            && st'.msg == st.msg + p.bytes && st'.cmap == p.cmap && |p.bytes| <= RecordLen(r)
    ensures var h := FinalHeader(r, st, lenmsg);
            && |st.msg| + StructLen(HeaderFields(h)) + StructLen(DataFields(r.data)) + 1 <= lenmsg
            && PlainFields(HeaderFields(h)) && Sound(AfterStruct(HeaderFields(h), st, lenmsg))
            && |AfterStruct(HeaderFields(h), st, lenmsg).msg| <= |st.msg| + StructLen(HeaderFields(h))
  {
    hide PackField, PackStruct, PackRecord, AfterStruct, Sound, DataFields, HeaderFields, StructLen, RecordLen, Grown, PlainFields, DataLength;
    var h := FinalHeader(r, st, lenmsg);
    RecordIsStructs(r, st, lenmsg);
    HeaderLen(r, h);
    StructSound(HeaderFields(h), st, lenmsg);
    var mid := AfterStruct(HeaderFields(h), st, lenmsg);
    StructSound(DataFields(r.data), mid, lenmsg);
    GrownTwice(st, mid, AfterRecord(r, st, lenmsg));
    Associative(st.msg, mid.msg, AfterRecord(r, st, lenmsg).msg,
                PackStruct(HeaderFields(h), |st.msg|, lenmsg, st.cmap, true).bytes,
                PackStruct(DataFields(r.data), |mid.msg|, lenmsg, mid.cmap, true).bytes);
  }

  lemma Associative(a: Bytes, b: Bytes, c: Bytes, x: Bytes, y: Bytes)
    requires b == a + x && c == b + y
    ensures c == a + (x + y)
  {
  }

  /** The length field has no part in the header's size. */
  lemma HeaderLen(r: Record, h: Header)
    requires h == r.hdr.(rdlength := h.rdlength) && PlainFields(HeaderFields(r.hdr))
    ensures StructLen(HeaderFields(h)) + StructLen(DataFields(r.data)) == RecordLen(r)
    ensures PlainFields(HeaderFields(h))
  {
    hide DataFields, StructLen;
    LenIsFields(Record(h, r.data));
    forall i | 0 <= i < 5 ensures PlainField(HeaderFields(h)[i]) {
      assert PlainField(HeaderFields(r.hdr)[i]);
    }
  }

  lemma GrownSizes(st: Buffer, later: Buffer)
    requires Grown(st, later)
    ensures |st.msg| <= |later.msg| && |st.placed| <= |later.placed|
  {
  }

  /** A record with a name whose chain is too long cannot be read. */
  lemma RecordFails(r: Record, h: Header, st: Buffer, mid: Buffer, lenmsg: nat, later: Buffer)
    requires Sound(st) && Sound(mid) && Sound(later) && PlainFields(HeaderFields(h)) && PlainFields(DataFields(r.data))
    requires r.hdr.rrtype == h.rrtype == TypeOf(r.data)
    requires |st.msg| + StructLen(HeaderFields(h)) + 1 <= lenmsg && PackStruct(HeaderFields(h), |st.msg|, lenmsg, st.cmap, true).Put?
    requires |mid.msg| + StructLen(DataFields(r.data)) + 1 <= lenmsg
    requires PackStruct(DataFields(r.data), |mid.msg|, lenmsg, mid.cmap, true).Put?
    requires mid == AfterStruct(HeaderFields(h), st, lenmsg) && Grown(mid, later) && |st.placed| <= |mid.placed|
    requires var end := AfterStruct(DataFields(r.data), mid, lenmsg);
             && Grown(end, later) && |mid.msg| + h.rdlength == |end.msg|
             && (!Reach(later, |st.placed|, |mid.placed|) || !Reach(later, |mid.placed|, |end.placed|))
    ensures ReadRecord(later.msg, |st.msg|).NoRecord?
  {
    hide PackStruct, AfterStruct, Sound, Reach, StructLen, Grown, PlainFields, AllLaid, ReadStruct, ToHeader, HeaderFields, DataFields,
      DataShapes, TailLast, NoTail;
    ShapesOfHeader(h);
    ShapesOfData(r.data);
    ReadStructShapes(later.msg, |st.msg|, 0, HEADER_SHAPES);
    if !Reach(later, |st.placed|, |mid.placed|) {
      StructFails(HeaderFields(h), st, lenmsg, later, 0);
    } else {
      var hends := StructStands(HeaderFields(h), st, lenmsg, later);
      ReadLaidStruct(later.msg, |st.msg|, 0, HeaderFields(h), hends);
      var c := h.(name := Canonical(h.name));
      HeaderCanonical(h);
      FromFieldsUnique(ToHeader(HeaderFields(c)), c, r.data, r.data);
      StructFails(DataFields(r.data), mid, lenmsg, later, |mid.msg| + h.rdlength);
    }
  }

  lemma HeaderCanonical(h: Header)
    ensures var c := h.(name := Canonical(h.name));
            CanonicalFields(HeaderFields(h)) == HeaderFields(c) && Shapes(HeaderFields(c)) == HEADER_SHAPES
  {
    hide Canonical;
    var c := h.(name := Canonical(h.name));
    var fs, cs := HeaderFields(h), HeaderFields(c);
    assert cs[0] == CanonicalField(fs[0]) && cs[1] == CanonicalField(fs[1]) && cs[2] == CanonicalField(fs[2]);
    assert cs[3] == CanonicalField(fs[3]) && cs[4] == CanonicalField(fs[4]);
    ShapesOfHeader(c);
  }

  /** A packed record is read back from every later buffer exactly when its chains are short enough there. */
  lemma RecordReadsBack(r: Record, st: Buffer, lenmsg: nat, later: Buffer)
    requires Sound(st) && PlainRecord(r) && |st.msg| + RecordLen(r) + 1 <= lenmsg
    requires PackRecord(r, |st.msg|, lenmsg, st.cmap, true).Put?
    requires Grown(AfterRecord(r, st, lenmsg), later) && Sound(later)
    ensures var read := ReadRecord(later.msg, |st.msg|);
            if Reach(later, |st.placed|, |AfterRecord(r, st, lenmsg).placed|) then
              && read.RecordAt? && read.next == |AfterRecord(r, st, lenmsg).msg|
              && RecordBack(r, read.record, DataLength(r, |st.msg|, lenmsg, st.cmap, true))
            else read.NoRecord?
  {
    hide PackField, PackStruct, PackRecord, AfterStruct, Sound, Reach, DataFields, StructLen, RecordLen, Grown, PlainFields,
      DataLength, AllLaid, ReadRecord, CanonicalRecord, HeaderFields;
    var h := FinalHeader(r, st, lenmsg);
    RecordIsStructs(r, st, lenmsg);
    RecordSound(r, st, lenmsg);
    StructSound(HeaderFields(h), st, lenmsg);
    var mid := AfterStruct(HeaderFields(h), st, lenmsg);
    var end := |AfterRecord(r, st, lenmsg).msg|;
    StructSound(DataFields(r.data), mid, lenmsg);
    GrownTwice(mid, AfterRecord(r, st, lenmsg), later);
    GrownSizes(st, mid);
    GrownSizes(mid, AfterRecord(r, st, lenmsg));
    ReachParts(later, |st.placed|, |mid.placed|, |AfterRecord(r, st, lenmsg).placed|);
    if !Reach(later, |st.placed|, |AfterRecord(r, st, lenmsg).placed|) {
      RecordFails(r, h, st, mid, lenmsg, later);
      return;
    }
    var hends := StructStands(HeaderFields(h), st, lenmsg, later);
    var dends := StructStands(DataFields(r.data), mid, lenmsg, later);
    assert |HeaderFields(h)| == 5;
    assert RecordLaid(later.msg, |st.msg|, r, |mid.msg|, end, hends, dends);
    hide RecordLaid;
    ReadLaidRecord(later.msg, |st.msg|, r, |mid.msg|, end, hends, dends);
    CanonicalRdlength(r, h.rdlength);
  }

  // ----- sections -----

  function AfterRecords(rs: seq<Record>, st: Buffer, lenmsg: nat): (st': Buffer)
    decreases |rs|
  {
    if rs == [] then st else AfterRecords(rs[1..], AfterRecord(rs[0], st, lenmsg), lenmsg)
  }

  function AfterQuestions(qs: seq<Question>, st: Buffer, lenmsg: nat): (st': Buffer)
    decreases |qs|
  {
    if qs == [] then st else AfterQuestions(qs[1..], AfterStruct(QuestionFields(qs[0]), st, lenmsg), lenmsg)
  }

  ghost predicate PlainQuestion(q: Question) {
    PlainFields(QuestionFields(q))
  }

  lemma {:induction false} RecordsSound(rs: seq<Record>, st: Buffer, lenmsg: nat)
    requires Sound(st) && |st.msg| + RecordsLen(rs) + 1 <= lenmsg && forall i :: 0 <= i < |rs| ==> PlainRecord(rs[i])
    requires PackRecords(rs, |st.msg|, lenmsg, st.cmap, true).Put?
    ensures var p, st' := PackRecords(rs, |st.msg|, lenmsg, st.cmap, true), AfterRecords(rs, st, lenmsg);
            && Sound(st') && Grown(st, st')
            && st'.msg == st.msg + p.bytes && st'.cmap == p.cmap && |p.bytes| <= RecordsLen(rs)
    decreases |rs|
  {
    hide Sound, PackRecord, AfterRecord, RecordLen, PlainRecord, Grown, FinalHeader;
    GrownIs(st);
    if rs != [] {
      RecordSound(rs[0], st, lenmsg);
      var mid := AfterRecord(rs[0], st, lenmsg);
      RecordsSound(rs[1..], mid, lenmsg);
      GrownTwice(st, mid, AfterRecords(rs, st, lenmsg));
      Associative(st.msg, mid.msg, AfterRecords(rs, st, lenmsg).msg, PackRecord(rs[0], |st.msg|, lenmsg, st.cmap, true).bytes,
                  PackRecords(rs[1..], |mid.msg|, lenmsg, mid.cmap, true).bytes);
    }
  }

  lemma NoReach(st: Buffer, a: nat)
    ensures Reach(st, a, a)
  {
  }

  /** What packing the first record leaves for the others. */
  lemma SplitRecords(rs: seq<Record>, st: Buffer, lenmsg: nat, later: Buffer) returns (mid: Buffer)
    requires rs != [] && Sound(st) && |st.msg| + RecordsLen(rs) + 1 <= lenmsg && forall i :: 0 <= i < |rs| ==> PlainRecord(rs[i])
    requires PackRecords(rs, |st.msg|, lenmsg, st.cmap, true).Put? && Grown(AfterRecords(rs, st, lenmsg), later)
    ensures mid == AfterRecord(rs[0], st, lenmsg) && AfterRecords(rs, st, lenmsg) == AfterRecords(rs[1..], mid, lenmsg)
    ensures PackRecord(rs[0], |st.msg|, lenmsg, st.cmap, true).Put? && |st.msg| + RecordLen(rs[0]) + 1 <= lenmsg
    ensures Sound(mid) && |mid.msg| + RecordsLen(rs[1..]) + 1 <= lenmsg
    ensures PackRecords(rs[1..], |mid.msg|, lenmsg, mid.cmap, true).Put? && Grown(mid, later)
    ensures DataLengths(rs, |st.msg|, lenmsg, st.cmap, true)
         == [DataLength(rs[0], |st.msg|, lenmsg, st.cmap, true)] + DataLengths(rs[1..], |mid.msg|, lenmsg, mid.cmap, true)
    ensures |st.placed| <= |mid.placed| <= |AfterRecords(rs, st, lenmsg).placed|
  {
    hide Sound, PackRecord, AfterRecord, RecordLen, PlainRecord, Grown, FinalHeader, DataLength;
    RecordSound(rs[0], st, lenmsg);
    mid := AfterRecord(rs[0], st, lenmsg);
    RecordsSound(rs[1..], mid, lenmsg);
    GrownTwice(mid, AfterRecords(rs, st, lenmsg), later);
    GrownSizes(st, mid);
    GrownSizes(mid, AfterRecords(rs, st, lenmsg));
  }

  /** A record that is decided before others that are. */
  lemma RecordsDecidedCons(msg: Bytes, off: nat, r: Record, n: u16, mid: nat, rs: seq<Record>, ns: seq<u16>, end: nat,
                           here: bool, rest: bool)
    requires var read := ReadRecord(msg, off);
             if here then read.RecordAt? && read.next == mid && RecordBack(r, read.record, n) else read.NoRecord?
    requires RecordsDecided(msg, mid, rs, ns, end, rest)
    ensures RecordsDecided(msg, off, [r] + rs, [n] + ns, end, here && rest)
  {
    hide ReadRecord, RecordBack, RecordsStand;
    if here && rest {
      RecordsStandCons(msg, off, r, n, mid, rs, ns, end);
    }
  }

  lemma NoRecordsDecided(st: Buffer, lenmsg: nat, later: Buffer)
    ensures AfterRecords([], st, lenmsg) == st
    ensures RecordsDecided(later.msg, |st.msg|, [], DataLengths([], |st.msg|, lenmsg, st.cmap, true), |st.msg|,
                           Reach(later, |st.placed|, |st.placed|))
  {
    hide ReadRecord;
    NoReach(later, |st.placed|);
  }

  /** Packed records are read back from every later buffer exactly when their chains are short enough there. */
  lemma {:induction false} RecordsReadBackLater(rs: seq<Record>, st: Buffer, lenmsg: nat, later: Buffer)
    requires Sound(st) && |st.msg| + RecordsLen(rs) + 1 <= lenmsg && forall i :: 0 <= i < |rs| ==> PlainRecord(rs[i])
    requires PackRecords(rs, |st.msg|, lenmsg, st.cmap, true).Put?
    requires Grown(AfterRecords(rs, st, lenmsg), later) && Sound(later)
    ensures var end := AfterRecords(rs, st, lenmsg);
            RecordsDecided(later.msg, |st.msg|, rs, DataLengths(rs, |st.msg|, lenmsg, st.cmap, true), |end.msg|,
                           Reach(later, |st.placed|, |end.placed|))
    decreases |rs|
  {
    hide Sound, Reach, PackRecord, AfterRecord, RecordLen, PlainRecord, Grown, ReadRecord, RecordBack, RecordsDecided,
      PackRecords, RecordsLen, AfterRecords, DataLength, DataLengths;
    if rs == [] {
      NoRecordsDecided(st, lenmsg, later);
    } else {
      var mid := SplitRecords(rs, st, lenmsg, later);
      var end := AfterRecords(rs, st, lenmsg);
      ReachParts(later, |st.placed|, |mid.placed|, |end.placed|);
      RecordReadsBack(rs[0], st, lenmsg, later);
      RecordsReadBackLater(rs[1..], mid, lenmsg, later);
      RecordsDecidedCons(later.msg, |st.msg|, rs[0], DataLength(rs[0], |st.msg|, lenmsg, st.cmap, true), |mid.msg|,
                         rs[1..], DataLengths(rs[1..], |mid.msg|, lenmsg, mid.cmap, true), |end.msg|,
                         Reach(later, |st.placed|, |mid.placed|), Reach(later, |mid.placed|, |end.placed|));
      assert [rs[0]] + rs[1..] == rs;
    }
  }

  lemma {:induction false} QuestionsSound(qs: seq<Question>, st: Buffer, lenmsg: nat)
    requires Sound(st) && |st.msg| + QuestionsLen(qs) + 1 <= lenmsg && forall i :: 0 <= i < |qs| ==> PlainQuestion(qs[i])
    requires PackQuestions(qs, |st.msg|, lenmsg, st.cmap, true).Put?
    ensures var p, st' := PackQuestions(qs, |st.msg|, lenmsg, st.cmap, true), AfterQuestions(qs, st, lenmsg);
            && Sound(st') && Grown(st, st')
            && st'.msg == st.msg + p.bytes && st'.cmap == p.cmap && |p.bytes| <= QuestionsLen(qs)
    decreases |qs|
  {
    hide Sound, PackStruct, AfterStruct, QuestionLen, QuestionFields, PlainFields, Grown, StructLen;
    GrownIs(st);
    if qs != [] {
      assert PlainQuestion(qs[0]);
      QuestionIsFields(qs[0], false);
      StructSound(QuestionFields(qs[0]), st, lenmsg);
      var mid := AfterStruct(QuestionFields(qs[0]), st, lenmsg);
      QuestionsSound(qs[1..], mid, lenmsg);
      GrownTwice(st, mid, AfterQuestions(qs, st, lenmsg));
      Associative(st.msg, mid.msg, AfterQuestions(qs, st, lenmsg).msg,
                  PackStruct(QuestionFields(qs[0]), |st.msg|, lenmsg, st.cmap, true).bytes,
                  PackQuestions(qs[1..], |mid.msg|, lenmsg, mid.cmap, true).bytes);
    }
  }

  lemma QuestionReadsBack(q: Question, st: Buffer, lenmsg: nat, later: Buffer)
    requires Sound(st) && PlainQuestion(q) && |st.msg| + QuestionLen(q) + 1 <= lenmsg
    requires PackStruct(QuestionFields(q), |st.msg|, lenmsg, st.cmap, true).Put?
    requires Grown(AfterStruct(QuestionFields(q), st, lenmsg), later) && Sound(later)
    ensures var read := ReadStruct(later.msg, |st.msg|, 0, QUESTION_SHAPES);
            if Reach(later, |st.placed|, |AfterStruct(QuestionFields(q), st, lenmsg).placed|)
            then read == Struct(QuestionFields(CanonicalQuestion(q)), |AfterStruct(QuestionFields(q), st, lenmsg).msg|)
            else read.NoStruct?
  {
    hide Sound, Reach, PackStruct, AfterStruct, Grown, StructLen, AllLaid, ReadStruct, PlainField, Canonical;
    QuestionIsFields(q, false);
    var fs := QuestionFields(q);
    assert NoTail(fs) && TailLast(fs) && Shapes(fs) == QUESTION_SHAPES;
    if !Reach(later, |st.placed|, |AfterStruct(QuestionFields(q), st, lenmsg).placed|) {
      StructFails(fs, st, lenmsg, later, 0);
      return;
    }
    var ends := StructStands(fs, st, lenmsg, later);
    ReadLaidStruct(later.msg, |st.msg|, 0, fs, ends);
    assert CanonicalFields(fs) == QuestionFields(CanonicalQuestion(q));
  }

  /** What packing the first question leaves for the others. */
  lemma SplitQuestions(qs: seq<Question>, st: Buffer, lenmsg: nat, later: Buffer) returns (mid: Buffer)
    requires qs != [] && Sound(st) && |st.msg| + QuestionsLen(qs) + 1 <= lenmsg && forall i :: 0 <= i < |qs| ==> PlainQuestion(qs[i])
    requires PackQuestions(qs, |st.msg|, lenmsg, st.cmap, true).Put? && Grown(AfterQuestions(qs, st, lenmsg), later)
    ensures mid == AfterStruct(QuestionFields(qs[0]), st, lenmsg) && AfterQuestions(qs, st, lenmsg) == AfterQuestions(qs[1..], mid, lenmsg)
    ensures PackStruct(QuestionFields(qs[0]), |st.msg|, lenmsg, st.cmap, true).Put? && |st.msg| + QuestionLen(qs[0]) + 1 <= lenmsg
    ensures Sound(mid) && |mid.msg| + QuestionsLen(qs[1..]) + 1 <= lenmsg
    ensures PackQuestions(qs[1..], |mid.msg|, lenmsg, mid.cmap, true).Put? && Grown(mid, later)
    ensures |st.placed| <= |mid.placed| <= |AfterQuestions(qs, st, lenmsg).placed|
  {
    hide Sound, PackStruct, AfterStruct, QuestionLen, QuestionFields, PlainFields, Grown, StructLen;
    assert PlainQuestion(qs[0]);
    QuestionIsFields(qs[0], false);
    StructSound(QuestionFields(qs[0]), st, lenmsg);
    mid := AfterStruct(QuestionFields(qs[0]), st, lenmsg);
    QuestionsSound(qs[1..], mid, lenmsg);
    GrownTwice(mid, AfterQuestions(qs, st, lenmsg), later);
    GrownSizes(st, mid);
    GrownSizes(mid, AfterQuestions(qs, st, lenmsg));
  }

  lemma QuestionsDecidedCons(msg: Bytes, off: nat, q: Question, mid: nat, qs: seq<Question>, end: nat, here: bool, rest: bool)
    requires var read := ReadStruct(msg, off, 0, QUESTION_SHAPES);
             if here then read == Struct(QuestionFields(CanonicalQuestion(q)), mid) else read.NoStruct?
    requires QuestionsDecided(msg, mid, qs, end, rest)
    ensures QuestionsDecided(msg, off, [q] + qs, end, here && rest)
  {
    hide ReadStruct, CanonicalQuestion, QuestionFields, QuestionsStand;
    if here && rest {
      QuestionsStandCons(msg, off, q, mid, qs, end);
    }
  }

  lemma NoQuestionsDecided(st: Buffer, lenmsg: nat, later: Buffer)
    ensures AfterQuestions([], st, lenmsg) == st
    ensures QuestionsDecided(later.msg, |st.msg|, [], |st.msg|, Reach(later, |st.placed|, |st.placed|))
  {
    hide ReadStruct;
    NoReach(later, |st.placed|);
  }

  lemma {:induction false} QuestionsReadBackLater(qs: seq<Question>, st: Buffer, lenmsg: nat, later: Buffer)
    requires Sound(st) && |st.msg| + QuestionsLen(qs) + 1 <= lenmsg && forall i :: 0 <= i < |qs| ==> PlainQuestion(qs[i])
    requires PackQuestions(qs, |st.msg|, lenmsg, st.cmap, true).Put?
    requires Grown(AfterQuestions(qs, st, lenmsg), later) && Sound(later)
    ensures var end := AfterQuestions(qs, st, lenmsg);
            QuestionsDecided(later.msg, |st.msg|, qs, |end.msg|, Reach(later, |st.placed|, |end.placed|))
    decreases |qs|
  {
    hide Sound, Reach, PackStruct, AfterStruct, QuestionLen, QuestionFields, PlainQuestion, Grown, ReadStruct, CanonicalQuestion,
      QuestionsDecided, PackQuestions, QuestionsLen, AfterQuestions;
    if qs == [] {
      NoQuestionsDecided(st, lenmsg, later);
    } else {
      var mid := SplitQuestions(qs, st, lenmsg, later);
      var end := AfterQuestions(qs, st, lenmsg);
      ReachParts(later, |st.placed|, |mid.placed|, |end.placed|);
      QuestionReadsBack(qs[0], st, lenmsg, later);
      QuestionsReadBackLater(qs[1..], mid, lenmsg, later);
      QuestionsDecidedCons(later.msg, |st.msg|, qs[0], |mid.msg|, qs[1..], |end.msg|,
                           Reach(later, |st.placed|, |mid.placed|), Reach(later, |mid.placed|, |end.placed|));
      assert [qs[0]] + qs[1..] == qs;
    }
  }

  // ----- messages -----

  ghost predicate PlainMessage(m: Message) {
    && (forall i :: 0 <= i < |m.question| ==> PlainQuestion(m.question[i]))
    && (forall i :: 0 <= i < |m.answer| ==> PlainRecord(m.answer[i]))
    && (forall i :: 0 <= i < |m.ns| ==> PlainRecord(m.ns[i]))
    && (forall i :: 0 <= i < |m.extra| ==> PlainRecord(m.extra[i]))
  }

  /** The buffer when header and questions are packed. */
  function AfterFront(m: Message, lenmsg: nat): (st: Buffer) {
    AfterQuestions(m.question, AfterStruct(MessageHeader(m), Buffer([], map[], []), lenmsg), lenmsg)
  }

  function AfterMessage(m: Message, lenmsg: nat): (st: Buffer) {
    AfterRecords(m.extra, AfterRecords(m.ns, AfterRecords(m.answer, AfterFront(m, lenmsg), lenmsg), lenmsg), lenmsg)
  }

  lemma FrontSound(m: Message, lenmsg: nat)
    requires m.compress && PlainMessage(m) && lenmsg >= 12 + QuestionsLen(m.question) + 1 && FrontPack(m, lenmsg).Put?
    ensures var p, st := FrontPack(m, lenmsg), AfterFront(m, lenmsg);
            Sound(st) && st.msg == p.bytes && st.cmap == p.cmap && |p.bytes| <= 12 + QuestionsLen(m.question)
    ensures var st0 := AfterStruct(MessageHeader(m), Buffer([], map[], []), lenmsg);
            && Sound(st0) && |st0.msg| == 12 && Grown(st0, AfterFront(m, lenmsg))
            && st0.msg == PackStruct(MessageHeader(m), 0, lenmsg, map[], true).bytes
            && st0.cmap == PackStruct(MessageHeader(m), 0, lenmsg, map[], true).cmap
  {
    hide Sound, PackStruct, PackQuestions, AfterStruct, AfterQuestions, Grown, PlainQuestion, PlainRecord, MessageHeader, StructLen;
    var st := Buffer([], map[], []);
    EmptySound();
    HeaderIsFields(m);
    PlainHeader(m);
    StructSound(MessageHeader(m), st, lenmsg);
    var st0 := AfterStruct(MessageHeader(m), st, lenmsg);
    var h := PackStruct(MessageHeader(m), 0, lenmsg, map[], true);
    assert [] + h.bytes == h.bytes;
    HeaderIs12(m, lenmsg);
    QuestionsSound(m.question, st0, lenmsg);
  }

  lemma PlainHeader(m: Message)
    ensures PlainFields(MessageHeader(m))
  {
  }

  lemma HeaderIs12(m: Message, lenmsg: nat)
    requires PackStruct(MessageHeader(m), 0, lenmsg, map[], true).Put?
    ensures |PackStruct(MessageHeader(m), 0, lenmsg, map[], true).bytes| == 12
  {
    hide PackStruct, HeaderBits;
    WordsIgnoreMap(MessageHeader(m), 0, lenmsg, map[], true);
  }

  /** What the four packing steps yield, one after the other. */
  lemma MessageSteps(m: Message, lenmsg: nat)
    requires m.compress && PlainMessage(m) && lenmsg >= MessageLen(m) + 1 && PackMessage(m, lenmsg).Put?
    ensures FrontPack(m, lenmsg).Put?
    ensures var st1 := AfterFront(m, lenmsg);
            var st2 := AfterRecords(m.answer, st1, lenmsg);
            var st3 := AfterRecords(m.ns, st2, lenmsg);
            && Sound(st1) && Sound(st2) && Sound(st3) && Sound(AfterMessage(m, lenmsg))
            && Grown(st1, st2) && Grown(st2, st3) && Grown(st3, AfterMessage(m, lenmsg))
            && PackRecords(m.answer, |st1.msg|, lenmsg, st1.cmap, true).Put?
            && PackRecords(m.ns, |st2.msg|, lenmsg, st2.cmap, true).Put?
            && PackRecords(m.extra, |st3.msg|, lenmsg, st3.cmap, true).Put?
            && |st1.msg| + RecordsLen(m.answer) + 1 <= lenmsg && |st2.msg| + RecordsLen(m.ns) + 1 <= lenmsg
            && |st3.msg| + RecordsLen(m.extra) + 1 <= lenmsg
    ensures AfterMessage(m, lenmsg).msg == PackMessage(m, lenmsg).bytes
    ensures var st1 := AfterFront(m, lenmsg);
            var st2 := AfterRecords(m.answer, st1, lenmsg);
            var st3 := AfterRecords(m.ns, st2, lenmsg);
            MessageLengths(m, lenmsg) == Lengths(DataLengths(m.answer, |st1.msg|, lenmsg, st1.cmap, true),
                                                 DataLengths(m.ns, |st2.msg|, lenmsg, st2.cmap, true),
                                                 DataLengths(m.extra, |st3.msg|, lenmsg, st3.cmap, true))
  {
    hide Sound, PackRecords, AfterRecords, Grown, PlainQuestion, PlainRecord, FrontPack, AfterFront, RecordsLen, QuestionsLen, DataLengths;
    FrontSound(m, lenmsg);
    var st1 := AfterFront(m, lenmsg);
    PackRecordsAppend(m.answer + m.ns, m.extra, |st1.msg|, lenmsg, st1.cmap, true);
    PackRecordsAppend(m.answer, m.ns, |st1.msg|, lenmsg, st1.cmap, true);
    RecordsSound(m.answer, st1, lenmsg);
    var st2 := AfterRecords(m.answer, st1, lenmsg);
    RecordsSound(m.ns, st2, lenmsg);
    var st3 := AfterRecords(m.ns, st2, lenmsg);
    var a := PackRecords(m.answer, |st1.msg|, lenmsg, st1.cmap, true).bytes;
    var n := PackRecords(m.ns, |st2.msg|, lenmsg, st2.cmap, true).bytes;
    Associative(st1.msg, st2.msg, st3.msg, a, n);
    RecordsSound(m.extra, st3, lenmsg);
    Associative(st1.msg, st3.msg, AfterMessage(m, lenmsg).msg, a + n, PackRecords(m.extra, |st3.msg|, lenmsg, st3.cmap, true).bytes);
  }

  /** The names that are read when the message is: a truncated message is read only as far as its questions. */
  ghost predicate NamesReach(m: Message, lenmsg: nat) {
    var st := AfterMessage(m, lenmsg);
    Reach(st, 0, if m.truncated then |AfterFront(m, lenmsg).placed| else |st.placed|)
  }

  /**
    Main result for compressed messages: the map stays sound, every name put into the message is spelled there, and
    the message is read back, with every field and section restored, exactly when no chain in it has more than ten
    pointers.
    */
  lemma CompressedRoundTrip(m: Message, lenmsg: nat)
    requires m.compress && PlainMessage(m) && CountsFit(m) && lenmsg >= MessageLen(m) + 1
    requires PackMessage(m, lenmsg).Put?
    ensures var st := AfterMessage(m, lenmsg);
            && Sound(st) && st.msg == PackMessage(m, lenmsg).bytes
            && (ReadMessage(st.msg).MessageAt? && MessageBack(m, ReadMessage(st.msg).message, MessageLengths(m, lenmsg)) <==> NamesReach(m, lenmsg))
  {
    assert 0 <= m.rcode < 16;
    hide Sound, Reach, PackStruct, PackRecords, PackQuestions, PackMessage, AfterRecords, AfterQuestions, AfterStruct, Grown,
      PlainQuestion, PlainRecord, RecordsLen, QuestionsLen, MessageHeader, ReadStruct, ReadMessage, MessageBack, CountsFit,
      QuestionsDecided, RecordsDecided, At, MessageLengths, DataLengths;
    MessageSteps(m, lenmsg);
    var fin := AfterMessage(m, lenmsg);
    FrontSound(m, lenmsg);
    var st0 := AfterStruct(MessageHeader(m), Buffer([], map[], []), lenmsg);
    var st1 := AfterFront(m, lenmsg);
    var st2 := AfterRecords(m.answer, st1, lenmsg);
    var st3 := AfterRecords(m.ns, st2, lenmsg);
    GrownTwice(st2, st3, fin);
    GrownTwice(st1, st2, fin);
    GrownTwice(st0, st1, fin);
    GrownIs(fin);
    HeaderStands(m, lenmsg, st0, fin);
    QuestionsReadBackLater(m.question, st0, lenmsg, fin);
    RecordsReadBackLater(m.answer, st1, lenmsg, fin);
    RecordsReadBackLater(m.ns, st2, lenmsg, fin);
    RecordsReadBackLater(m.extra, st3, lenmsg, fin);
    ReachSections(st0, st1, st2, st3, fin);
    NoNames(m, lenmsg);
    Verdict(m, fin.msg, MessageLengths(m, lenmsg), |st1.msg|, |st2.msg|, |st3.msg|, |fin.msg|,
            Reach(fin, |st0.placed|, |st1.placed|), Reach(fin, |st1.placed|, |st2.placed|),
            Reach(fin, |st2.placed|, |st3.placed|), Reach(fin, |st3.placed|, |fin.placed|));
  }

  lemma ReachSections(st0: Buffer, st1: Buffer, st2: Buffer, st3: Buffer, fin: Buffer)
    requires Grown(st0, st1) && Grown(st1, st2) && Grown(st2, st3) && Grown(st3, fin)
    ensures Reach(fin, |st0.placed|, |fin.placed|) <==>
            && Reach(fin, |st0.placed|, |st1.placed|) && Reach(fin, |st1.placed|, |st2.placed|)
            && Reach(fin, |st2.placed|, |st3.placed|) && Reach(fin, |st3.placed|, |fin.placed|)
  {
    hide Reach;
    ReachParts(fin, |st0.placed|, |st1.placed|, |fin.placed|);
    ReachParts(fin, |st1.placed|, |st2.placed|, |fin.placed|);
    ReachParts(fin, |st2.placed|, |st3.placed|, |fin.placed|);
  }

  /** The header of a message has no names. */
  lemma NoNames(m: Message, lenmsg: nat)
    ensures AfterStruct(MessageHeader(m), Buffer([], map[], []), lenmsg).placed == []
  {
    hide HeaderBits;
    WordsPlaceNothing(MessageHeader(m), Buffer([], map[], []), lenmsg);
  }

  lemma {:induction false} WordsPlaceNothing(fs: seq<Field>, st: Buffer, lenmsg: nat)
    requires forall i :: 0 <= i < |fs| ==> fs[i].Word?
    ensures AfterStruct(fs, st, lenmsg).placed == st.placed
    decreases |fs|
  {
    hide U16;
    if fs != [] {
      WordsPlaceNothing(fs[1..], AfterField(fs[0], st, lenmsg), lenmsg);
    }
  }

  lemma GrownIs(st: Buffer)
    ensures Grown(st, st) && st.msg + [] == st.msg
  {
  }

  lemma HeaderStands(m: Message, lenmsg: nat, st0: Buffer, later: Buffer)
    requires lenmsg >= 13 && m.compress && Grown(st0, later) && PackStruct(MessageHeader(m), 0, lenmsg, map[], true).Put?
    requires st0.msg == PackStruct(MessageHeader(m), 0, lenmsg, map[], true).bytes
    ensures ReadStruct(later.msg, 0, 0, MESSAGE_SHAPES) == Struct(MessageHeader(m), 12)
  {
    hide PackStruct, MessageHeader, ReadStruct, At;
    assert [] + st0.msg == st0.msg;
    AtPrefix(later.msg, [], st0.msg);
    HeaderReadBack(m, lenmsg, map[], later.msg);
  }
}
