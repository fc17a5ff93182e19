/**
  Resource records: the eight types the resolver answers with (types.go), PackRR and UnpackRR (msg.go), and
  rawSetRdlength (rawmsg.go), which finds its way over the packed owner name on its own.
  */
module Records {
  import opened Bytes
  import opened Names
  import opened Options
  import opened NameText
  import opened NameReader
  import opened TextStrings
  import opened WireFields

  datatype Header = Header(name: Bytes, rrtype: u16, rrclass: u16, ttl: u32, rdlength: u16)

  datatype Data =
    | A(ip: Bytes)
    | AAAA(ip6: Bytes)
    | TXT(texts: seq<Bytes>)
    | CNAME(target: Bytes)
    | NS(ns: Bytes)
    | PTR(ptr: Bytes)
    | SRV(priority: u16, weight: u16, port: u16, host: Bytes)
    | SOA(mname: Bytes, mbox: Bytes, serial: u32, refresh: u32, retry: u32, expire: u32, minttl: u32)

  datatype Record = Record(hdr: Header, data: Data)

  const CLASS_INET: u16 := 1

  function TypeOf(d: Data): (t: u16) {
    match d
    case A(_) => 1
    case NS(_) => 2
    case CNAME(_) => 5
    case SOA(_, _, _, _, _, _, _) => 6
    case PTR(_) => 12
    case TXT(_) => 16
    case AAAA(_) => 28
    case SRV(_, _, _, _) => 33
  }

  function HeaderFields(h: Header): (fs: seq<Field>)
    ensures |fs| == 5
  {
    [DomainName(h.name, true), Word(h.rrtype), Word(h.rrclass), Long(h.ttl), Word(h.rdlength)]
  }

  /** The target of an SRV record is not to be compressed. */
  function DataFields(d: Data): (fs: seq<Field>) {
    match d
    case A(ip) => [Address4(ip)]
    case AAAA(ip) => [Address6(ip)]
    case TXT(texts) => [Texts(texts)]
    case CNAME(s) => [DomainName(s, true)]
    case NS(s) => [DomainName(s, true)]
    case PTR(s) => [DomainName(s, true)]
    case SRV(p, w, port, s) => [Word(p), Word(w), Word(port), DomainName(s, false)]
    case SOA(s, m, serial, refresh, retry, expire, minttl) =>
      [DomainName(s, true), DomainName(m, true), Long(serial), Long(refresh), Long(retry), Long(expire), Long(minttl)]
  }

  const HEADER_SHAPES: seq<Shape> := [NameShape(true), WordShape, WordShape, LongShape, WordShape]

  /** The fields of a record of type t; None for the types this model leaves out. */
  function DataShapes(t: u16): (r: Option<seq<Shape>>) {
    if t == 1 then Some([Address4Shape])
    else if t == 28 then Some([Address6Shape])
    else if t == 16 then Some([TextsShape])
    else if t == 5 || t == 2 || t == 12 then Some([NameShape(true)])
    else if t == 33 then Some([WordShape, WordShape, WordShape, NameShape(false)])
    else if t == 6 then Some([NameShape(true), NameShape(true), LongShape, LongShape, LongShape, LongShape, LongShape])
    else None
  }

  function ToHeader(fs: seq<Field>): (h: Header)
    requires Shapes(fs) == HEADER_SHAPES
    ensures HeaderFields(h) == fs
  {
    assert forall i :: 0 <= i < 5 ==> ShapeOf(fs[i]) == HEADER_SHAPES[i];
    Header(fs[0].name, fs[1].n, fs[2].n, fs[3].l, fs[4].n)
  }

  function ToData(t: u16, fs: seq<Field>): (d: Data)
    requires DataShapes(t) == Some(Shapes(fs))
    ensures TypeOf(d) == t && DataFields(d) == fs
  {
    assert forall i :: 0 <= i < |fs| ==> ShapeOf(fs[i]) == DataShapes(t).value[i];
    if t == 1 then A(fs[0].ip)
    else if t == 28 then AAAA(fs[0].ip6)
    else if t == 16 then TXT(fs[0].texts)
    else if t == 5 then CNAME(fs[0].name)
    else if t == 2 then NS(fs[0].name)
    else if t == 12 then PTR(fs[0].name)
    else if t == 33 then SRV(fs[0].n, fs[1].n, fs[2].n, fs[3].name)
    else SOA(fs[0].name, fs[1].name, fs[2].l, fs[3].l, fs[4].l, fs[5].l, fs[6].l)
  }

  /** len of a record: as if nothing were compressed. */
  function RecordLen(r: Record): (n: nat) {
    |r.hdr.name| + 1 + 10 +
    match r.data
    case A(_) => IPV4_LEN
    case AAAA(_) => IPV6_LEN
    case TXT(texts) => TextsLen(texts)
    case CNAME(s) => |s| + 1
    case NS(s) => |s| + 1
    case PTR(s) => |s| + 1
    case SRV(_, _, _, s) => |s| + 1 + 6
    case SOA(s, m, _, _, _, _, _) => |s| + 1 + (|m| + 1) + 20
  }

  /** TXT.len, the one len that is a loop. */
  method TxtLen(texts: seq<Bytes>, hdrLen: nat) returns (l: nat)
    ensures l == hdrLen + TextsLen(texts)
  {
    l := hdrLen;
    assert texts[0..] == texts;
    for i := 0 to |texts|
      invariant l + TextsLen(texts[i..]) == hdrLen + TextsLen(texts)
    {
      assert texts[i..][0] == texts[i] && texts[i..][1..] == texts[i + 1..];
      l := l + |texts[i]| + 1;
    }
  }

  lemma LenIsFields(r: Record)
    ensures RecordLen(r) == StructLen(HeaderFields(r.hdr)) + StructLen(DataFields(r.data))
  {
    hide TextsLen;
    var h := HeaderFields(r.hdr);
    assert h[1..][1..] == h[2..] && h[2..][1..] == h[3..] && h[3..][1..] == h[4..] && h[4..][1..] == [];
    assert StructLen(h) == |r.hdr.name| + 1 + StructLen(h[1..]);
    assert StructLen(h[1..]) == 2 + StructLen(h[2..]);
    assert StructLen(h[2..]) == 2 + StructLen(h[3..]);
    assert StructLen(h[3..]) == 4 + StructLen(h[4..]);
    assert StructLen(h[4..]) == 2;
    DataLen(r.data);
  }

  lemma DataLen(d: Data)
    ensures StructLen(DataFields(d)) ==
            match d
            case A(_) => IPV4_LEN
            case AAAA(_) => IPV6_LEN
            case TXT(texts) => TextsLen(texts)
            case CNAME(s) => |s| + 1
            case NS(s) => |s| + 1
            case PTR(s) => |s| + 1
            case SRV(_, _, _, s) => |s| + 1 + 6
            case SOA(s, m, _, _, _, _, _) => |s| + 1 + (|m| + 1) + 20
  {
    hide TextsLen;
    var fs := DataFields(d);
    if d.SRV? {
      assert fs[1..][1..] == fs[2..] && fs[2..][1..] == fs[3..] && fs[3..][1..] == [];
      assert StructLen(fs[3..]) == FieldLen(fs[3]);
      assert StructLen(fs[2..]) == 2 + StructLen(fs[3..]);
    } else if d.SOA? {
      assert fs[1..][1..] == fs[2..] && fs[2..][1..] == fs[3..] && fs[3..][1..] == fs[4..] && fs[4..][1..] == fs[5..];
      assert fs[5..][1..] == fs[6..] && fs[6..][1..] == [];
      assert StructLen(fs[6..]) == 4;
      assert StructLen(fs[5..]) == 4 + StructLen(fs[6..]);
      assert StructLen(fs[4..]) == 4 + StructLen(fs[5..]);
      assert StructLen(fs[3..]) == 4 + StructLen(fs[4..]);
      assert StructLen(fs[2..]) == 4 + StructLen(fs[3..]);
      assert StructLen(fs[1..]) == FieldLen(fs[1]) + StructLen(fs[2..]);
    } else {
      assert fs[1..] == [];
    }
  }

  // ----- finding the length field again -----

  /** Behind the name at off, as rawSetRdlength walks it: a byte of the reserved label types is stepped over. */
  function SkipName(msg: Bytes, off: nat): (r: Option<nat>)
    ensures r.Some? ==> off < r.value
    decreases |msg| - off
  {
    if off + 1 > |msg| then None
    else
      var c := msg[off];
      if c == 0 then Some(off + 1)
      else if c < 64 then if off + 1 + c > |msg| then None else SkipName(msg, off + 1 + c)
      else if c >= 192 then Some(off + 2)
      else SkipName(msg, off + 1)
  }

  /** Where the length goes, and the two bytes that go there for a record that ends at end. */
  function RdlengthSlot(msg: Bytes, off: nat, end: nat): (r: Option<(nat, u16)>)
    ensures r.Some? ==> off < r.value.0 && r.value.0 + 2 <= |msg|
  {
    match SkipName(msg, off)
    case None => None
    case Some(behind) =>
      var at := behind + 2 + 2 + 4;
      var rdatalen := end - (at + 2);
      if at + 2 > |msg| || rdatalen > 0xFFFF then None else Some((at, rdatalen % 0x1_0000))
  }

  method RawSetRdlength(msg: array<byte>, off0: nat, end: nat) returns (ok: bool)
    modifies msg
    ensures match RdlengthSlot(old(msg[..]), off0, end)
            case None => !ok && msg[..] == old(msg[..])
            case Some((at, n)) => ok && msg[..] == old(msg[..])[at := n / 256][at + 1 := n % 256]
  {
    var l := msg.Length;
    ghost var m := msg[..];
    var off: nat := off0;
    while true
      invariant msg[..] == m && SkipName(m, off0) == SkipName(m, off)
      decreases l - off
    {
      if off + 1 > l {
        return false;
      }
      var c := msg[off];
      off := off + 1;
      if c == 0 {
        break;
      } else if c < 64 {
        if off + c > l {
          return false;
        }
        off := off + c;
      } else if c >= 192 {
        off := off + 1;
        break;
      }
    }
    assert SkipName(m, off0) == Some(off);
    off := off + 2 + 2 + 4;
    if off + 2 > l {
      return false;
    }
    var rdatalen: int := end - (off + 2);
    if rdatalen > 0xFFFF {
      return false;
    }
    var n := rdatalen % 0x1_0000;
    msg[off], msg[off + 1] := n / 256, n % 256;
    ok := true;
  }

  // ----- packing a record -----

  function HeaderBytes(n: Bytes, h: Header, rdlength: u16): (b: Bytes)
    ensures |b| == |n| + 10
  {
    n + U16(h.rrtype) + U16(h.rrclass) + U32(h.ttl) + U16(rdlength)
  }

  /** A packed record: owner, type, class, TTL, the length of the packed data, and the data. */
  function PackRecord(r: Record, off: nat, lenmsg: nat, cmap: CMap, compress: bool): (p: FieldPack) {
    match PackField(DomainName(r.hdr.name, true), off, lenmsg, cmap, compress)
    case Faulty(f) => Faulty(f)
    case Put(n, cmap1) =>
      if off + |n| + 10 > lenmsg then Faulty(Overflow)
      else
        match PackStruct(DataFields(r.data), off + |n| + 10, lenmsg, cmap1, compress)
        case Faulty(f) => Faulty(f)
        case Put(d, cmap2) => if |d| > 0xFFFF then Faulty(BadRdlength) else Put(HeaderBytes(n, r.hdr, |d|) + d, cmap2)
  }

  /** The header's fields packed one after the other. */
  lemma HeaderPacks(h: Header, off: nat, lenmsg: nat, cmap: CMap, compress: bool)
    ensures PackStruct(HeaderFields(h), off, lenmsg, cmap, compress) ==
            match PackField(DomainName(h.name, true), off, lenmsg, cmap, compress)
            case Faulty(f) => Faulty(f)
            case Put(n, cmap1) =>
              if off + |n| + 10 > lenmsg then Faulty(Overflow) else Put(HeaderBytes(n, h, h.rdlength), cmap1)
  {
    hide PackStruct, U16, U32, PackName, StructLen;
    var fs := HeaderFields(h);
    assert fs[0..] == fs && fs[5..] == [];
    AfterNothing(PackStruct(fs, off, lenmsg, cmap, compress));
    StructStep(fs, 0, off, lenmsg, cmap, compress, []);
    var first := PackField(fs[0], off, lenmsg, cmap, compress);
    if first.Put? {
      var n := first.bytes;
      assert [] + n == n;
      StructStep(fs, 1, off + |n|, lenmsg, first.cmap, compress, n);
      StructStep(fs, 2, off + |n| + 2, lenmsg, first.cmap, compress, n + U16(h.rrtype));
      StructStep(fs, 3, off + |n| + 4, lenmsg, first.cmap, compress, n + U16(h.rrtype) + U16(h.rrclass));
      StructStep(fs, 4, off + |n| + 8, lenmsg, first.cmap, compress, n + U16(h.rrtype) + U16(h.rrclass) + U32(h.ttl));
      StructEnds(HeaderBytes(n, h, h.rdlength), off + |n| + 10, lenmsg, first.cmap, compress);
    }
  }

  ghost predicate Bounded(cmap: CMap) {
    forall key :: key in cmap ==> cmap[key] < MAX_OFFSET
  }

  /** What the packer's loop emits is counted labels, none of them empty, whatever the map. */
  lemma {:induction false} WalkIsWire(s: Bytes, ts: seq<Tok>, k: nat, begin: nat, off: nat, lenmsg: nat, cmap: CMap, compress: bool)
    returns (fs: seq<Bytes>)
    requires begin <= k <= |ts| <= |s| && Bounded(cmap)
    requires forall i :: begin <= i < k ==> !IsSep(ts[i])
    requires if begin > 0 then IsSep(ts[begin - 1]) else ts != [] && !IsSep(ts[0])
    requires !Walk(s, ts, k, begin, off, lenmsg, cmap, compress).Stop?
    ensures forall i :: 0 <= i < |fs| ==> 1 <= |fs[i]| < 64
    ensures var w := Walk(s, ts, k, begin, off, lenmsg, cmap, compress);
            w.bytes == Wire(fs) && Bounded(w.cmap) && (w.Hit? ==> w.pointer < MAX_OFFSET)
    decreases |ts| - k
  {
    hide Chunk;
    if k == |ts| {
      return [];
    }
    if !IsSep(ts[k]) {
      fs := WalkIsWire(s, ts, k + 1, begin, off, lenmsg, cmap, compress);
      return;
    }
    assert k > begin;
    var key := s[begin..];
    if compress && key != [DOT] && key in cmap {
      return [];
    }
    var text := Values(ts[begin..k]);
    var more := WalkIsWire(s, ts, k + 1, k + 1, off + 1 + (k - begin), lenmsg, Recorded(cmap, key, off, compress), compress);
    fs := [text] + more;
    assert fs[1..] == more;
  }

  /** A packed name: counted labels, then a zero byte or a pointer. */
  lemma NameIsWire(s: Bytes, off: nat, lenmsg: nat, cmap: CMap, compress: bool) returns (fs: seq<Bytes>, tail: Bytes)
    requires GoodName(s) && Bounded(cmap) && PackName(s, off, lenmsg, cmap, compress).Packed?
    ensures forall i :: 0 <= i < |fs| ==> 1 <= |fs[i]| < 64
    ensures tail == [0] || (|tail| == 2 && tail[0] >= 192)
    ensures var p := PackName(s, off, lenmsg, cmap, compress); p.bytes == Wire(fs) + tail && Bounded(p.cmap)
  {
    hide Walk, Tokens, PointerBytes;
    if s == [DOT] {
      RootWalk(off, lenmsg, cmap, compress);
      return [], [0];
    }
    FirstIsNoSep(s);
    fs := WalkIsWire(s, Tokens(s), 0, 0, off, lenmsg, cmap, compress);
    var w := Walk(s, Tokens(s), 0, 0, off, lenmsg, cmap, compress);
    tail := if w.Hit? then PointerBytes(w.pointer) else [0];
  }

  lemma RootWalk(off: nat, lenmsg: nat, cmap: CMap, compress: bool)
    requires PackName([DOT], off, lenmsg, cmap, compress).Packed?
    ensures PackName([DOT], off, lenmsg, cmap, compress).bytes == [0]
    ensures PackName([DOT], off, lenmsg, cmap, compress).cmap == cmap
  {
    TokensPlain(DOT, []);
    assert [DOT] + [] == [DOT] && Tokens([]) == [];
    var ts := Tokens([DOT]);
    assert ts == [Tok(DOT, false)];
    assert Values(ts[0..0]) == [] && Chunk([]) == [0];
    assert [DOT][0..] == [DOT];
    hide Tokens, Chunk, Values;
    assert Walk([DOT], ts, 1, 1, off + 1, lenmsg, cmap, compress) == End([], 0, cmap);
  }

  lemma FirstIsNoSep(s: Bytes)
    requires s != [] && s[0] != DOT && s[|s| - 1] == DOT
    ensures Tokens(s) != [] && !IsSep(Tokens(s)[0])
  {
  }

  /** rawSetRdlength steps over a packed name as a whole. */
  lemma {:induction false} SkipWire(msg: Bytes, off: nat, fs: seq<Bytes>, tail: Bytes)
    requires forall i :: 0 <= i < |fs| ==> 1 <= |fs[i]| < 64
    requires tail == [0] || (|tail| == 2 && tail[0] >= 192)
    requires At(msg, off, Wire(fs) + tail)
    ensures SkipName(msg, off) == Some(off + |Wire(fs) + tail|)
    decreases |fs|
  {
    hide At;
    if fs == [] {
      assert Wire(fs) + tail == [tail[0]] + tail[1..];
      AtSplit(msg, off, [tail[0]], tail[1..]);
      AtByte(msg, off, tail[0]);
    } else {
      var rest := Wire(fs[1..]) + tail;
      assert Wire(fs) + tail == [|fs[0]|] + (fs[0] + rest);
      AtSplit(msg, off, [|fs[0]|], fs[0] + rest);
      AtByte(msg, off, |fs[0]|);
      AtSplit(msg, off + 1, fs[0], rest);
      AtSlice(msg, off + 1, fs[0]);
      SkipWire(msg, off + 1 + |fs[0]|, fs[1..], tail);
    }
  }

  lemma WroteAt(m: Bytes, m': Bytes, off: nat, bytes: Bytes)
    requires Wrote(m, m', off, bytes)
    ensures At(m', off, bytes)
  {
  }

  /** The slot that rawSetRdlength finds in a record just written is the header's last field. */
  lemma SlotFound(m: Bytes, off: nat, r: Record, n: Bytes, d: Bytes, lenmsg: nat, cmap: CMap, compress: bool)
    requires GoodName(r.hdr.name) && Bounded(cmap)
    requires PackField(DomainName(r.hdr.name, true), off, lenmsg, cmap, compress).Put?
    requires n == PackField(DomainName(r.hdr.name, true), off, lenmsg, cmap, compress).bytes
    requires At(m, off, HeaderBytes(n, r.hdr, r.hdr.rdlength) + d)
    ensures RdlengthSlot(m, off, off + |n| + 10 + |d|) == if |d| > 0xFFFF then None else Some((off + |n| + 8, |d|))
  {
    hide PackName, At, U16, U32, SkipName;
    var fs, tail := NameIsWire(r.hdr.name, off, lenmsg, cmap, compress);
    var rest := U16(r.hdr.rrtype) + U16(r.hdr.rrclass) + U32(r.hdr.ttl) + U16(r.hdr.rdlength);
    var all := HeaderBytes(n, r.hdr, r.hdr.rdlength) + d;
    assert all == n + (rest + d);
    AtSplit(m, off, n, rest + d);
    SkipWire(m, off, fs, tail);
    AtFits(m, off, all);
  }

  lemma AtFits(m: Bytes, off: nat, bytes: Bytes)
    requires At(m, off, bytes)
    ensures off + |bytes| <= |m|
  {
  }

  /** Two bytes in the middle of what was written are replaced. */
  lemma WrotePatched(m: Bytes, m1: Bytes, off: nat, a: Bytes, w: Bytes, w': Bytes, d: Bytes)
    requires |w| == |w'| == 2 && Wrote(m, m1, off, a + w + d)
    ensures var at := off + |a|; at + 2 <= |m1| && Wrote(m, m1[at := w'[0]][at + 1 := w'[1]], off, a + w' + d)
  {
    var at := off + |a|;
    var m2 := m1[at := w'[0]][at + 1 := w'[1]];
    var was, now := a + w + d, a + w' + d;
    forall x | 0 <= x < |now| ensures m2[off + x] == now[x] {
      assert m1[off + x] == m1[off..off + |was|][x];
    }
    forall x | 0 <= x < off ensures m2[x] == m[x] {
      assert m1[x] == m1[..off][x];
    }
    WroteSome(m, m2, off, now);
  }

  /** Whatever rawSetRdlength overwrites lies behind the record's start. */
  lemma PatchedSomewhere(m: Bytes, m1: Bytes, m2: Bytes, off: nat, bytes: Bytes)
    requires Wrote(m, m1, off, bytes) && |m2| == |m1| && forall x :: 0 <= x < off ==> m2[x] == m1[x]
    ensures Wrote(m, m2, off, m2[off..off + |bytes|])
  {
    assert m2[..off] == m1[..off];
  }

  ghost predicate RecordExact(r: Record, compress: bool) {
    Exact(r.hdr.name, compress) && AllExact(DataFields(r.data), compress)
  }

  lemma HeaderIsPlain(h: Header, compress: bool)
    ensures AllSized(HeaderFields(h))
    ensures Exact(h.name, compress) ==> AllExact(HeaderFields(h), compress)
  {
  }

  lemma WroteNone(m: Bytes, m': Bytes, off: nat, bytes: Bytes)
    requires Wrote(m, m', off, bytes)
    ensures Wrote(m, m', off, [])
  {
  }

  lemma WroteSlice(m: Bytes, m': Bytes, off: nat, bytes: Bytes)
    requires Wrote(m, m', off, bytes)
    ensures off + |bytes| <= |m'| && m'[off..off + |bytes|] == bytes
  {
  }

  /** The record's fields have been packed: owner n, the rest of the header, and the data. */
  ghost predicate FieldsPacked(r: Record, off: nat, lenmsg: nat, cmap0: CMap, compress: bool, hdr: Bytes, data: Bytes, cmap: CMap) {
    var name := PackField(DomainName(r.hdr.name, true), off, lenmsg, cmap0, compress);
    && name.Put?
    && hdr == HeaderBytes(name.bytes, r.hdr, r.hdr.rdlength)
    && off + |hdr| <= lenmsg
    && PackStruct(DataFields(r.data), off + |hdr|, lenmsg, name.cmap, compress) == Put(data, cmap)
  }

  /** A record is complete once its length has been set. */
  lemma RecordDone(r: Record, m: Bytes, m2: Bytes, m3: Bytes, off: nat, hdr: Bytes, data: Bytes, ok: bool,
                   cmap0: CMap, cmap: CMap, compress: bool)
    requires GoodName(r.hdr.name) && Bounded(cmap0)
    requires FieldsPacked(r, off, |m|, cmap0, compress, hdr, data, cmap)
    requires Wrote(m, m2, off, hdr + data)
    requires match RdlengthSlot(m2, off, off + |hdr| + |data|)
             case None => !ok
             case Some((at, l)) => ok && m3 == m2[at := l / 256][at + 1 := l % 256]
    ensures off + |hdr + data| <= |m2|
    ensures PackRecord(r, off, |m|, cmap0, compress) ==
            if ok then Put(m3[off..off + |hdr + data|], cmap) else Faulty(BadRdlength)
  {
    hide PackField, Wrote, RdlengthSlot, Bounded, DataFields, PackStruct, PackRecord, HeaderBytes;
    var n := PackField(DomainName(r.hdr.name, true), off, |m|, cmap0, compress).bytes;
    WroteAt(m, m2, off, hdr + data);
    AtFits(m2, off, hdr + data);
    HeaderSize(n, r.hdr, r.hdr.rdlength);
    SlotFound(m2, off, r, n, data, |m|, cmap0, compress);
    RecordWithLength(r, n, off, |m|, cmap0, compress, hdr, data, cmap);
    if |data| <= 0xFFFF {
      HeaderSize(n, r.hdr, |data|);
      LengthPatched(m, m2, off, n, r.hdr, data);
      WroteSlice(m, m3, off, HeaderBytes(n, r.hdr, |data|) + data);
    }
  }

  lemma HeaderSize(n: Bytes, h: Header, rdlength: u16)
    ensures |HeaderBytes(n, h, rdlength)| == |n| + 10
  {
  }

  /** A record whose fields are packed is the header with the length of the data, and the data. */
  lemma RecordWithLength(r: Record, n: Bytes, off: nat, lenmsg: nat, cmap0: CMap, compress: bool, hdr: Bytes, data: Bytes, cmap: CMap)
    requires FieldsPacked(r, off, lenmsg, cmap0, compress, hdr, data, cmap)
    requires n == PackField(DomainName(r.hdr.name, true), off, lenmsg, cmap0, compress).bytes
    ensures PackRecord(r, off, lenmsg, cmap0, compress) ==
            if |data| > 0xFFFF then Faulty(BadRdlength) else Put(HeaderBytes(n, r.hdr, |data|) + data, cmap)
  {
    hide PackField, PackStruct, HeaderBytes, DataFields;
    HeaderSize(n, r.hdr, r.hdr.rdlength);
  }

  /** Setting the length in a packed header. */
  lemma LengthPatched(m: Bytes, m2: Bytes, off: nat, n: Bytes, h: Header, data: Bytes)
    requires |data| <= 0xFFFF && Wrote(m, m2, off, HeaderBytes(n, h, h.rdlength) + data) && off + |n| + 10 <= |m2|
    ensures var at := off + |n| + 8;
            Wrote(m, m2[at := |data| / 256][at + 1 := |data| % 256], off, HeaderBytes(n, h, |data|) + data)
  {
    hide Wrote, U32;
    var fixed := n + U16(h.rrtype) + U16(h.rrclass) + U32(h.ttl);
    FourOf(h.ttl);
    WrotePatched(m, m2, off, fixed, U16(h.rdlength), U16(|data|), data);
  }

  lemma FourOf(n: u32)
    ensures |U32(n)| == 4
  {
  }

  /** PackRR's call of packStructCompress. */
  method PackRRFields(r: Record, msg: array<byte>, off0: nat, cmap0: CMap, compress: bool)
    returns (off: nat, cmap: CMap, fault: Option<Fault>, ghost hdr: Bytes, ghost data: Bytes)
    requires off0 <= msg.Length
    modifies msg
    ensures Wrote(old(msg[..]), msg[..], off0, if fault.None? then hdr + data else [])
    ensures fault.None? ==> off == off0 + |hdr + data| <= msg.Length && |hdr + data| <= RecordLen(r)
    ensures off0 + RecordLen(r) + 1 <= msg.Length && fault.Some? && AllSized(DataFields(r.data)) ==> !OutOfRoom(fault.value)
    ensures RecordExact(r, compress) ==>
              if fault.Some? then PackRecord(r, off0, msg.Length, cmap0, compress) == Faulty(fault.value)
              else FieldsPacked(r, off0, msg.Length, cmap0, compress, hdr, data, cmap)
  {
    hide PackField, PackStruct, StructLen, RecordLen, DataFields, HeaderFields, AllSized, AllExact, Wrote, HeaderBytes, Exact, OutOfRoom;
    ghost var m := msg[..];
    LenIsFields(r);
    data := [];
    off, cmap, fault, hdr := PackStructValue(HeaderFields(r.hdr), msg, off0, cmap0, compress);
    HeaderPacks(r.hdr, off0, msg.Length, cmap0, compress);
    HeaderIsPlain(r.hdr, compress);
    WroteNone(m, msg[..], off0, hdr);
    if fault.None? {
      ghost var m1 := msg[..];
      off, cmap, fault, data := PackStructValue(DataFields(r.data), msg, off, cmap, compress);
      WroteMore(m, m1, msg[..], off0, hdr, data);
    }
  }

  method PackRR(r: Record, msg: array<byte>, off0: nat, cmap0: CMap, compress: bool)
    returns (off: nat, cmap: CMap, fault: Option<Fault>, ghost bytes: Bytes)
    requires off0 <= msg.Length
    modifies msg
    ensures Wrote(old(msg[..]), msg[..], off0, bytes)
    ensures fault.None? ==> off == off0 + |bytes| <= msg.Length && |bytes| <= RecordLen(r)
    ensures off0 + RecordLen(r) + 1 <= msg.Length && fault.Some? && AllSized(DataFields(r.data)) ==> !OutOfRoom(fault.value)
    ensures RecordExact(r, compress) && GoodName(r.hdr.name) && Bounded(cmap0) ==>
              PackRecord(r, off0, msg.Length, cmap0, compress) ==
              match fault case None => Put(bytes, cmap) case Some(e) => Faulty(e)
  {
    hide PackRecord, FieldsPacked, RecordLen, DataFields, AllSized, Wrote, RdlengthSlot, RecordExact, Bounded, GoodName;
    ghost var m := msg[..];
    ghost var hdr, data;
    off, cmap, fault, hdr, data := PackRRFields(r, msg, off0, cmap0, compress);
    bytes := [];
    if fault.Some? {
      return;
    }
    ghost var m2 := msg[..];
    var ok := RawSetRdlength(msg, off0, off);
    if RecordExact(r, compress) && GoodName(r.hdr.name) && Bounded(cmap0) {
      RecordDone(r, m, m2, msg[..], off0, hdr, data, ok, cmap0, cmap, compress);
    }
    SlotBehind(m2, off0, off);
    WroteSlice(m, m2, off0, hdr + data);
    PatchedSomewhere(m, m2, msg[..], off0, hdr + data);
    if ok {
      bytes := msg[off0..off];
    } else {
      WroteNone(m, msg[..], off0, msg[off0..off]);
      off, fault := off0, Some(BadRdlength);
    }
  }

  lemma SlotBehind(m: Bytes, off: nat, end: nat)
    ensures RdlengthSlot(m, off, end).Some? ==> off < RdlengthSlot(m, off, end).value.0 && RdlengthSlot(m, off, end).value.0 + 2 <= |m|
  {
  }
}
