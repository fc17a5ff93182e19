/** Structures as lists of fields: the cases of packStructValue and unpackStructValue (msg.go) that the resolver's records use. */
module WireFields {
  import opened Bytes
  import opened Names
  import opened Options
  import opened NameText
  import opened NameReader
  import opened TextStrings

  type u16 = n: int | 0 <= n < 0x1_0000
  type u32 = n: int | 0 <= n < 0x1_0000_0000

  const IPV4_LEN := 4
  const IPV6_LEN := 16

  /** A structure field with its value; compressible tells the tag cdomain-name from domain-name. */
  datatype Field =
    | DomainName(name: Bytes, compressible: bool)
    | Word(n: u16)
    | Long(l: u32)
    | Address4(ip: Bytes)
    | Address6(ip6: Bytes)
    | Texts(texts: seq<Bytes>)

  datatype Fault =
    | InName(nameError: PackError)
    | InText(textError: TextError)
    | Overflow
    | BadAddress
    | BadRdlength
    | BadRcode
    | Panic

  /** The faults of a packer that has run out of buffer. */
  predicate OutOfRoom(f: Fault) {
    match f
    case InName(e) => e == NoBuffer || e == Crash
    case InText(e) => e == NoRoom
    case Overflow => true
    case Panic => true
    case _ => false
  }

  datatype FieldPack = Faulty(fault: Fault) | Put(bytes: Bytes, cmap: CMap)

  // ----- packing -----

  /** The four bytes the packer takes from an address it accepts. */
  function FourBytes(ip: Bytes): (b: Bytes)
    requires |ip| == IPV4_LEN || |ip| == IPV6_LEN
    ensures |b| == IPV4_LEN
  {
    if |ip| == IPV6_LEN then ip[12..] else ip
  }

  function PackField(f: Field, off: nat, lenmsg: nat, cmap: CMap, compress: bool): (r: FieldPack) {
    match f
    case DomainName(s, c) =>
      (match PackName(s, off, lenmsg, cmap, c && compress)
       case Failed(e) => Faulty(InName(e))
       case Packed(b, _, cmap') => Put(b, cmap'))
    case Word(n) => if off + 2 > lenmsg then Faulty(Overflow) else Put(U16(n), cmap)
    case Long(n) => if off + 4 > lenmsg then Faulty(Overflow) else Put(U32(n), cmap)
    case Address4(ip) =>
      if off + IPV4_LEN > lenmsg then Faulty(Overflow)
      else if ip == [] then Put([], cmap)
      else if |ip| == IPV4_LEN || |ip| == IPV6_LEN then Put(FourBytes(ip), cmap)
      else Faulty(BadAddress)
    case Address6(ip) =>
      if ip == [] then Put([], cmap)
      else if |ip| > IPV6_LEN || off + |ip| > lenmsg then Faulty(Overflow)
      else if |ip| < IPV6_LEN then Faulty(Panic) // the loop reads all sixteen
      else Put(ip, cmap)
    case Texts(ss) =>
      (match PackTexts(ss, off, lenmsg)
       case TextFault(e) => Faulty(InText(e))
       case TextBytes(b) => Put(b, cmap))
  }

  /** r with output already produced put in front. */
  function After(bytes: Bytes, r: FieldPack): FieldPack {
    match r
    case Faulty(f) => r
    case Put(b, cmap) => Put(bytes + b, cmap)
  }

  function PackStruct(fs: seq<Field>, off: nat, lenmsg: nat, cmap: CMap, compress: bool): (r: FieldPack) {
    if fs == [] then Put([], cmap)
    else
      match PackField(fs[0], off, lenmsg, cmap, compress)
      case Faulty(f) => Faulty(f)
      case Put(b, cmap') => After(b, PackStruct(fs[1..], off + |b|, lenmsg, cmap', compress))
  }

  /** The share of a field in len. */
  function FieldLen(f: Field): (n: nat) {
    match f
    case DomainName(s, _) => |s| + 1
    case Word(_) => 2
    case Long(_) => 4
    case Address4(_) => IPV4_LEN
    case Address6(_) => IPV6_LEN
    case Texts(ss) => TextsLen(ss)
  }

  function StructLen(fs: seq<Field>): (n: nat) {
    if fs == [] then 0 else FieldLen(fs[0]) + StructLen(fs[1..])
  }

  /** Names with backslashes are not described exactly when they are compressed. */
  ghost predicate FieldExact(f: Field, compress: bool) {
    f.DomainName? ==> Exact(f.name, f.compressible && compress)
  }

  /** Values that len accounts for: addresses of the usual sizes and texts the packer's scratch buffer holds. */
  predicate Sized(f: Field) {
    match f
    case Address4(ip) => |ip| == 0 || |ip| == IPV4_LEN || |ip| == IPV6_LEN
    case Address6(ip) => |ip| == 0 || |ip| == IPV6_LEN
    case Texts(ss) => forall i :: 0 <= i < |ss| ==> |ss[i]| <= MAX_TEXT
    case _ => true
  }

  // ----- the packer as the source runs it -----

  method PutBytes(msg: array<byte>, off: nat, bytes: Bytes)
    requires off + |bytes| <= msg.Length
    modifies msg
    ensures Wrote(old(msg[..]), msg[..], off, bytes)
  {
    ghost var m := msg[..];
    for j := 0 to |bytes|
      invariant forall x :: 0 <= x < off ==> msg[x] == m[x]
      invariant forall x :: 0 <= x < j ==> msg[off + x] == bytes[x]
    {
      msg[off + j] := bytes[j];
    }
    WroteSome(m, msg[..], off, bytes);
  }

  /** Sixteen bytes of an IPv6 address, read one by one; a shorter address ends in a panic. */
  method PackAddress6(ip: Bytes, msg: array<byte>, off0: nat, ghost cmap: CMap, ghost compress: bool)
    returns (off: nat, fault: Option<Fault>, ghost bytes: Bytes)
    requires off0 <= msg.Length
    modifies msg
    ensures Wrote(old(msg[..]), msg[..], off0, bytes)
    ensures fault.None? ==> off == off0 + |bytes| && |bytes| <= IPV6_LEN
    ensures PackField(Address6(ip), off0, msg.Length, cmap, compress) ==
              match fault case None => Put(bytes, cmap) case Some(f) => Faulty(f)
  {
    off, fault, bytes := off0, None, [];
    ghost var m := msg[..];
    WroteNothing(m, off0);
    if |ip| == 0 {
      return;
    }
    if |ip| > IPV6_LEN || off + |ip| > msg.Length {
      fault := Some(Overflow);
      return;
    }
    var j := 0;
    while j < IPV6_LEN && j < |ip|
      invariant j <= |ip| <= IPV6_LEN && off == off0 + j
      invariant forall x :: 0 <= x < off0 ==> msg[x] == m[x]
      invariant forall x :: 0 <= x < j ==> msg[off0 + x] == ip[x]
    {
      msg[off] := ip[j];
      off, j := off + 1, j + 1;
    }
    WroteSome(m, msg[..], off0, []);
    if j < IPV6_LEN {
      fault := Some(Panic);
    } else {
      bytes := ip;
      WroteSome(m, msg[..], off0, ip);
    }
  }

  method PackNameField(s: Bytes, msg: array<byte>, off0: nat, cmap0: CMap, compressible: bool, compress: bool)
    returns (off: nat, cmap: CMap, fault: Option<Fault>, ghost bytes: Bytes)
    requires off0 <= msg.Length
    modifies msg
    ensures Wrote(old(msg[..]), msg[..], off0, bytes)
    ensures fault.None? ==> off == off0 + |bytes| && |bytes| <= |s| + 1
    ensures off0 + |s| + 1 <= msg.Length && fault.Some? ==> !OutOfRoom(fault.value)
    ensures Exact(s, compressible && compress) ==>
              PackField(DomainName(s, compressible), off0, msg.Length, cmap0, compress) ==
              match fault case None => Put(bytes, cmap) case Some(f) => Faulty(f)
  {
    hide PackName, Wrote, Exact;
    var labels, err;
    off, labels, cmap, err, bytes := PackDomainName(s, msg, off0, cmap0, compressible && compress);
    fault := if err.Some? then Some(InName(err.value)) else None;
  }

  method PackStructField(f: Field, msg: array<byte>, off0: nat, cmap0: CMap, compress: bool)
    returns (off: nat, cmap: CMap, fault: Option<Fault>, ghost bytes: Bytes)
    requires off0 <= msg.Length
    modifies msg
    ensures Wrote(old(msg[..]), msg[..], off0, bytes)
    ensures fault.None? ==> off == off0 + |bytes| <= msg.Length && |bytes| <= FieldLen(f)
    ensures off0 + FieldLen(f) + 1 <= msg.Length && fault.Some? && Sized(f) ==> !OutOfRoom(fault.value)
    ensures FieldExact(f, compress) ==>
              PackField(f, off0, msg.Length, cmap0, compress) ==
              match fault case None => Put(bytes, cmap) case Some(e) => Faulty(e)
  {
    hide PackName, Wrote, Exact, PackTexts, TextsLen, U16, U32;
    off, cmap, fault, bytes := off0, cmap0, None, [];
    ghost var m := msg[..];
    WroteNothing(m, off0);
    match f
    case DomainName(s, c) =>
      off, cmap, fault, bytes := PackNameField(s, msg, off0, cmap0, c, compress);
      WroteFits(m, msg[..], off0, bytes);
    case Word(n) =>
      if off + 2 > msg.Length {
        fault := Some(Overflow);
        return;
      }
      PutBytes(msg, off, U16(n));
      off, bytes := off + 2, U16(n);
    case Long(n) =>
      if off + 4 > msg.Length {
        fault := Some(Overflow);
        return;
      }
      PutBytes(msg, off, U32(n));
      off, bytes := off + 4, U32(n);
    case Address4(ip) =>
      if off + IPV4_LEN > msg.Length {
        fault := Some(Overflow);
        return;
      }
      if |ip| == IPV6_LEN || |ip| == IPV4_LEN {
        PutBytes(msg, off, FourBytes(ip));
        off, bytes := off + IPV4_LEN, FourBytes(ip);
      } else if |ip| != 0 {
        fault := Some(BadAddress);
      }
    case Address6(ip) =>
      off, fault, bytes := PackAddress6(ip, msg, off0, cmap0, compress);
      WroteFits(m, msg[..], off0, bytes);
    case Texts(ss) =>
      var err;
      off, err, bytes := PackTxt(ss, msg, off0);
      fault := if err.Some? then Some(InText(err.value)) else None;
      WroteFits(m, msg[..], off0, bytes);
      TextsFit(ss, off0, msg.Length);
  }

  lemma TextsFit(ss: seq<Bytes>, off: nat, lenmsg: nat)
    ensures PackTexts(ss, off, lenmsg).TextBytes? ==> |PackTexts(ss, off, lenmsg).bytes| <= TextsLen(ss)
    ensures off + TextsLen(ss) + 1 <= lenmsg && Sized(Texts(ss)) ==> PackTexts(ss, off, lenmsg) != TextFault(NoRoom)
  {
    hide PackStrings;
    PackStringsFits(ss, off, lenmsg);
  }

  ghost predicate AllExact(fs: seq<Field>, compress: bool) {
    forall i :: 0 <= i < |fs| ==> FieldExact(fs[i], compress)
  }

  predicate AllSized(fs: seq<Field>) {
    forall i :: 0 <= i < |fs| ==> Sized(fs[i])
  }

  lemma StructStep(fs: seq<Field>, k: nat, off: nat, lenmsg: nat, cmap: CMap, compress: bool, bytes: Bytes)
    requires k < |fs|
    ensures var r := PackField(fs[k], off, lenmsg, cmap, compress);
            After(bytes, PackStruct(fs[k..], off, lenmsg, cmap, compress)) ==
            if r.Faulty? then r
            else After(bytes + r.bytes, PackStruct(fs[k + 1..], off + |r.bytes|, lenmsg, r.cmap, compress))
    ensures StructLen(fs[k..]) == FieldLen(fs[k]) + StructLen(fs[k + 1..])
  {
    hide PackField, FieldLen;
    assert fs[k..][0] == fs[k] && fs[k..][1..] == fs[k + 1..];
    var r := PackField(fs[k], off, lenmsg, cmap, compress);
    if r.Put? {
      AfterTwice(bytes, r.bytes, PackStruct(fs[k + 1..], off + |r.bytes|, lenmsg, r.cmap, compress));
    }
  }

  method PackStructValue(fs: seq<Field>, msg: array<byte>, off0: nat, cmap0: CMap, compress: bool)
    returns (off: nat, cmap: CMap, fault: Option<Fault>, ghost bytes: Bytes)
    requires off0 <= msg.Length
    modifies msg
    ensures Wrote(old(msg[..]), msg[..], off0, bytes)
    ensures fault.None? ==> off == off0 + |bytes| <= msg.Length && |bytes| <= StructLen(fs)
    ensures off0 + StructLen(fs) + 1 <= msg.Length && fault.Some? && AllSized(fs) ==> !OutOfRoom(fault.value)
    ensures AllExact(fs, compress) ==>
              PackStruct(fs, off0, msg.Length, cmap0, compress) ==
              match fault case None => Put(bytes, cmap) case Some(e) => Faulty(e)
  {
    hide PackField, FieldLen, FieldExact, Sized, Wrote, PackStruct, StructLen, OutOfRoom;
    off, cmap, fault, bytes := off0, cmap0, None, [];
    ghost var m := msg[..];
    WroteNothing(m, off0);
    assert fs[0..] == fs;
    AfterNothing(PackStruct(fs, off0, msg.Length, cmap0, compress));
    for k := 0 to |fs|
      invariant fault.None? && off == off0 + |bytes| <= msg.Length
      invariant Wrote(m, msg[..], off0, bytes)
      invariant |bytes| + StructLen(fs[k..]) <= StructLen(fs)
      invariant AllExact(fs, compress) ==>
                  PackStruct(fs, off0, msg.Length, cmap0, compress) ==
                  After(bytes, PackStruct(fs[k..], off, msg.Length, cmap, compress))
    {
      StructStep(fs, k, off, msg.Length, cmap, compress, bytes);
      ghost var m1, more := msg[..], [];
      off, cmap, fault, more := PackStructField(fs[k], msg, off, cmap, compress);
      WroteMore(m, m1, msg[..], off0, bytes, more);
      if fault.Some? {
        bytes := [];
        return;
      }
      bytes := bytes + more;
    }
    assert fs[|fs|..] == [];
    StructEnds(bytes, off, msg.Length, cmap, compress);
  }

  lemma AfterTwice(a: Bytes, b: Bytes, r: FieldPack)
    ensures After(a, After(b, r)) == After(a + b, r)
  {
    assert r.Put? ==> a + (b + r.bytes) == a + b + r.bytes;
  }

  lemma AfterNothing(r: FieldPack)
    ensures After([], r) == r
  {
    assert r.Put? ==> [] + r.bytes == r.bytes;
  }

  lemma StructEnds(bytes: Bytes, off: nat, lenmsg: nat, cmap: CMap, compress: bool)
    ensures After(bytes, PackStruct([], off, lenmsg, cmap, compress)) == Put(bytes, cmap)
  {
    assert bytes + [] == bytes;
  }

  // ----- reading -----

  datatype Shape = NameShape(compressible: bool) | WordShape | LongShape | Address4Shape | Address6Shape | TextsShape

  function ShapeOf(f: Field): Shape {
    match f
    case DomainName(_, c) => NameShape(c)
    case Word(_) => WordShape
    case Long(_) => LongShape
    case Address4(_) => Address4Shape
    case Address6(_) => Address6Shape
    case Texts(_) => TextsShape
  }

  /** A field that nothing was read into. */
  function Zero(shape: Shape): (f: Field)
    ensures ShapeOf(f) == shape
  {
    match shape
    case NameShape(c) => DomainName([], c)
    case WordShape => Word(0)
    case LongShape => Long(0)
    case Address4Shape => Address4([])
    case Address6Shape => Address6([])
    case TextsShape => Texts([])
  }

  datatype ReadFault = BadName(error: ReadError) | BadText | ShortMessage | BadOffset | RdlengthMismatch | OtherType

  datatype FieldRead = NoField(fault: ReadFault) | Got(field: Field, next: nat)

  const V4_PREFIX: Bytes := [0, 0, 0, 0, 0, 0, 0, 0, 0, 0, 255, 255]

  /** Reads the next field; lenrd is the end of the record data, or 0 in a structure without a header. */
  function ReadField(msg: Bytes, off: nat, lenrd: nat, shape: Shape): (r: FieldRead)
    requires off <= |msg|
  {
    match shape
    case NameShape(c) =>
      if off == |msg| then Got(Zero(shape), off)
      else
        (match UnpackName(msg, off)
         case NoName(e) => NoField(BadName(e))
         case Name(s, next) => Got(DomainName(s, c), next))
    case WordShape =>
      if off == |msg| then Got(Zero(shape), off)
      else if off + 2 > |msg| then NoField(ShortMessage)
      else Got(Word(FromU16(msg[off..off + 2])), off + 2)
    case LongShape =>
      if off == |msg| then Got(Zero(shape), off)
      else if off + 4 > |msg| then NoField(ShortMessage)
      else Got(Long(FromU32(msg[off..off + 4])), off + 4)
    case Address4Shape =>
      if off == lenrd then Got(Zero(shape), off)
      else if off + IPV4_LEN > lenrd || off + IPV4_LEN > |msg| then NoField(ShortMessage)
      else Got(Address4(V4_PREFIX + msg[off..off + IPV4_LEN]), off + IPV4_LEN)
    case Address6Shape =>
      if off == lenrd then Got(Zero(shape), off)
      else if off + IPV6_LEN > lenrd || off + IPV6_LEN > |msg| then NoField(ShortMessage)
      else Got(Address6(msg[off..off + IPV6_LEN]), off + IPV6_LEN)
    case TextsShape =>
      if off == |msg| || off == lenrd then Got(Zero(shape), off)
      else
        (match ReadStrings(msg, off, lenrd)
         case NoStrings => NoField(BadText)
         case StringsAt(ss, next) => Got(Texts(ss), next))
  }

  datatype StructRead = NoStruct(fault: ReadFault) | Struct(fields: seq<Field>, next: nat)

  /** Fields are read in turn; once the record data are used up the rest keep their zero values. */
  function ReadStruct(msg: Bytes, off: nat, lenrd: nat, shapes: seq<Shape>): (r: StructRead)
    decreases |shapes|
  {
    if shapes == [] then Struct([], off)
    else if lenrd != 0 && lenrd == off then Struct(seq(|shapes|, i requires 0 <= i < |shapes| => Zero(shapes[i])), off)
    else if off > |msg| then NoStruct(BadOffset)
    else
      var r := ReadField(msg, off, lenrd, shapes[0]);
      if r.NoField? then NoStruct(r.fault)
      else
        match ReadStruct(msg, r.next, lenrd, shapes[1..])
        case NoStruct(f) => NoStruct(f)
        case Struct(fs, next) => Struct([r.field] + fs, next)
  }

  lemma ReadFieldShape(msg: Bytes, off: nat, lenrd: nat, shape: Shape)
    requires off <= |msg|
    ensures var r := ReadField(msg, off, lenrd, shape); r.Got? ==> ShapeOf(r.field) == shape
  {
    hide UnpackName, ReadStrings;
  }

  /** What is read has the shape asked for. */
  lemma {:induction false} ReadStructShapes(msg: Bytes, off: nat, lenrd: nat, shapes: seq<Shape>)
    ensures var r := ReadStruct(msg, off, lenrd, shapes);
            r.Struct? ==> |r.fields| == |shapes| && forall i :: 0 <= i < |shapes| ==> ShapeOf(r.fields[i]) == shapes[i]
    decreases |shapes|
  {
    hide ReadField, ShapeOf;
    if shapes != [] && !(lenrd != 0 && lenrd == off) && off <= |msg| {
      ReadFieldShape(msg, off, lenrd, shapes[0]);
      var r := ReadField(msg, off, lenrd, shapes[0]);
      if r.Got? {
        ReadStructShapes(msg, r.next, lenrd, shapes[1..]);
      }
    }
  }

  // ----- the unpacker as the source runs it -----

  method UnpackField(msg: Bytes, off: nat, lenrd: nat, shape: Shape) returns (r: FieldRead)
    requires off <= |msg|
    ensures r == ReadField(msg, off, lenrd, shape)
  {
    hide UnpackName, ReadStrings, FromU16, FromU32;
    match shape
    case NameShape(c) =>
      if off == |msg| {
        return Got(Zero(shape), off);
      }
      var name := UnpackDomainName(msg, off);
      r := if name.NoName? then NoField(BadName(name.error)) else Got(DomainName(name.text, c), name.next);
    case WordShape =>
      if off == |msg| {
        return Got(Zero(shape), off);
      }
      if off + 2 > |msg| {
        return NoField(ShortMessage);
      }
      r := Got(Word(FromU16(msg[off..off + 2])), off + 2);
    case LongShape =>
      if off == |msg| {
        return Got(Zero(shape), off);
      }
      if off + 4 > |msg| {
        return NoField(ShortMessage);
      }
      r := Got(Long(FromU32(msg[off..off + 4])), off + 4);
    case Address4Shape =>
      if off == lenrd {
        return Got(Zero(shape), off);
      }
      if off + IPV4_LEN > lenrd || off + IPV4_LEN > |msg| {
        return NoField(ShortMessage);
      }
      r := Got(Address4(V4_PREFIX + [msg[off], msg[off + 1], msg[off + 2], msg[off + 3]]), off + IPV4_LEN);
      assert msg[off..off + IPV4_LEN] == [msg[off], msg[off + 1], msg[off + 2], msg[off + 3]];
    case Address6Shape =>
      if off == lenrd {
        return Got(Zero(shape), off);
      }
      if off + IPV6_LEN > lenrd || off + IPV6_LEN > |msg| {
        return NoField(ShortMessage);
      }
      r := Got(Address6(msg[off..off + IPV6_LEN]), off + IPV6_LEN);
    case TextsShape =>
      if off == |msg| || off == lenrd {
        return Got(Zero(shape), off);
      }
      var texts := UnpackTxt(msg, off, lenrd);
      r := if texts.NoStrings? then NoField(BadText) else Got(Texts(texts.texts), texts.next);
  }

  /** What reading yields when the fields read so far are put in front. */
  function Behind(fs: seq<Field>, r: StructRead): StructRead {
    match r
    case NoStruct(f) => r
    case Struct(more, next) => Struct(fs + more, next)
  }

  lemma BehindStep(fs: seq<Field>, f: Field, r: StructRead)
    ensures Behind(fs, Behind([f], r)) == Behind(fs + [f], r)
  {
    assert r.Struct? ==> fs + ([f] + r.fields) == fs + [f] + r.fields;
  }

  lemma ReadStructStep(msg: Bytes, off: nat, lenrd: nat, shapes: seq<Shape>, k: nat)
    requires k < |shapes|
    ensures ReadStruct(msg, off, lenrd, shapes[k..]) ==
            if lenrd != 0 && lenrd == off then
              Struct(seq(|shapes| - k, i requires 0 <= i < |shapes| - k => Zero(shapes[k..][i])), off)
            else if off > |msg| then NoStruct(BadOffset)
            else
              var r := ReadField(msg, off, lenrd, shapes[k]);
              if r.NoField? then NoStruct(r.fault) else Behind([r.field], ReadStruct(msg, r.next, lenrd, shapes[k + 1..]))
  {
    hide ReadField;
    var rest := shapes[k..];
    assert rest[0] == shapes[k] && rest[1..] == shapes[k + 1..];
    assert seq(|rest|, i requires 0 <= i < |rest| => Zero(rest[i])) ==
           seq(|shapes| - k, i requires 0 <= i < |shapes| - k => Zero(shapes[k..][i]));
  }

  method UnpackStructValue(msg: Bytes, off0: nat, lenrd: nat, shapes: seq<Shape>) returns (r: StructRead)
    ensures r == ReadStruct(msg, off0, lenrd, shapes)
  {
    hide ReadField, ReadStruct;
    var off: nat, fs := off0, [];
    assert shapes[0..] == shapes;
    BehindNothing(ReadStruct(msg, off0, lenrd, shapes));
    for i := 0 to |shapes|
      invariant |fs| == i
      invariant ReadStruct(msg, off0, lenrd, shapes) == Behind(fs, ReadStruct(msg, off, lenrd, shapes[i..]))
    {
      ReadStructStep(msg, off, lenrd, shapes, i);
      if lenrd != 0 && lenrd == off {
        return Struct(fs + seq(|shapes| - i, j requires 0 <= j < |shapes| - i => Zero(shapes[i..][j])), off);
      }
      if off > |msg| {
        return NoStruct(BadOffset);
      }
      var one := UnpackField(msg, off, lenrd, shapes[i]);
      if one.NoField? {
        return NoStruct(one.fault);
      }
      BehindStep(fs, one.field, ReadStruct(msg, one.next, lenrd, shapes[i + 1..]));
      fs, off := fs + [one.field], one.next;
    }
    assert shapes[|shapes|..] == [];
    ReadNothing(msg, off, lenrd);
    assert fs + [] == fs;
    r := Struct(fs, off);
  }

  lemma ReadNothing(msg: Bytes, off: nat, lenrd: nat)
    ensures ReadStruct(msg, off, lenrd, []) == Struct([], off)
  {
  }

  lemma BehindNothing(r: StructRead)
    ensures Behind([], r) == r
  {
    assert r.Struct? ==> [] + r.fields == r.fields;
  }

  // ----- round trip -----

  /** The value a field has after it has been packed and read back. */
  function CanonicalField(f: Field): (c: Field)
    ensures ShapeOf(c) == ShapeOf(f)
  {
    match f
    case DomainName(s, c) => DomainName(Canonical(s), c)
    case Word(_) => f
    case Long(_) => f
    case Address4(ip) => if |ip| == IPV4_LEN || |ip| == IPV6_LEN then Address4(V4_PREFIX + FourBytes(ip)) else f
    case Address6(_) => f
    case Texts(ss) => Texts(CanonicalTexts(ss))
  }

  function CanonicalFields(fs: seq<Field>): (cs: seq<Field>)
    ensures |cs| == |fs| && forall i :: 0 <= i < |fs| ==> cs[i] == CanonicalField(fs[i])
  {
    seq(|fs|, i requires 0 <= i < |fs| => CanonicalField(fs[i]))
  }

  function Shapes(fs: seq<Field>): (ss: seq<Shape>)
    ensures |ss| == |fs| && forall i :: 0 <= i < |fs| ==> ss[i] == ShapeOf(fs[i])
  {
    seq(|fs|, i requires 0 <= i < |fs| => ShapeOf(fs[i]))
  }

  /** f stands in msg from off to end, so that reading it yields its canonical value. */
  ghost predicate Laid(msg: Bytes, off: nat, f: Field, end: nat) {
    && off <= end <= |msg|
    && match f
       case DomainName(s, _) => off < end && UnpackName(msg, off) == Name(Canonical(s), end)
       case Word(n) => At(msg, off, U16(n)) && end == off + 2
       case Long(n) => At(msg, off, U32(n)) && end == off + 4
       case Address4(ip) =>
         (ip == [] && end == off) ||
         ((|ip| == IPV4_LEN || |ip| == IPV6_LEN) && At(msg, off, FourBytes(ip)) && end == off + IPV4_LEN)
       case Address6(ip) => (ip == [] && end == off) || (|ip| == IPV6_LEN && At(msg, off, ip) && end == off + IPV6_LEN)
       case Texts(ss) => if off == end then ss == [] else ReadStrings(msg, off, end) == StringsAt(CanonicalTexts(ss), end)
  }

  /** Addresses and texts run to the end of the record. */
  predicate Tail(f: Field) {
    f.Address4? || f.Address6? || f.Texts?
  }

  /** A field that stands in the message is read back; fields that may be empty want the record to end with them. */
  lemma ReadLaid(msg: Bytes, off: nat, lenrd: nat, f: Field, end: nat)
    requires Laid(msg, off, f, end) && (Tail(f) ==> lenrd == end)
    ensures ReadField(msg, off, lenrd, ShapeOf(f)) == Got(CanonicalField(f), end)
  {
    hide UnpackName, ReadStrings, U16, U32, Canonical, FromU16, FromU32;
    match f
    case DomainName(s, _) =>
    case Word(n) =>
      AtSlice(msg, off, U16(n));
      U16RoundTrip(n);
    case Long(n) =>
      AtSlice(msg, off, U32(n));
      U32RoundTrip(n);
    case Address4(ip) =>
      if ip != [] {
        AtSlice(msg, off, FourBytes(ip));
      }
    case Address6(ip) =>
      if ip != [] {
        AtSlice(msg, off, ip);
      }
    case Texts(ss) =>
      if ss == [] {
        assert CanonicalTexts(ss) == [];
      }
  }

  function StartOf(off: nat, ends: seq<nat>, i: nat): nat
    requires i <= |ends|
  {
    if i == 0 then off else ends[i - 1]
  }

  /** The fields of a structure stand one after the other; ends says where each of them ends. */
  ghost predicate AllLaid(msg: Bytes, off: nat, fs: seq<Field>, ends: seq<nat>) {
    && |ends| == |fs|
    && forall i :: 0 <= i < |fs| ==> Laid(msg, StartOf(off, ends, i), fs[i], ends[i])
  }

  lemma LaidFirst(msg: Bytes, off: nat, fs: seq<Field>, ends: seq<nat>)
    requires AllLaid(msg, off, fs, ends) && fs != []
    ensures Laid(msg, off, fs[0], ends[0]) && AllLaid(msg, ends[0], fs[1..], ends[1..])
    ensures StartOf(off, ends, |ends|) == StartOf(ends[0], ends[1..], |ends| - 1)
  {
    hide Laid;
    assert Laid(msg, StartOf(off, ends, 0), fs[0], ends[0]);
    forall i | 0 <= i < |fs| - 1 ensures Laid(msg, StartOf(ends[0], ends[1..], i), fs[1..][i], ends[1..][i]) {
      assert Laid(msg, StartOf(off, ends, i + 1), fs[i + 1], ends[i + 1]);
    }
  }

  lemma LaidMoves(msg: Bytes, off: nat, f: Field, end: nat)
    requires Laid(msg, off, f, end)
    ensures off <= end <= |msg| && (!Tail(f) ==> off < end)
    ensures Tail(f) && off == end ==> CanonicalField(f) == Zero(ShapeOf(f))
  {
  }

  lemma {:induction false} LaidRunsUp(msg: Bytes, off: nat, fs: seq<Field>, ends: seq<nat>)
    requires AllLaid(msg, off, fs, ends)
    ensures off <= StartOf(off, ends, |fs|)
    decreases |fs|
  {
    hide Laid;
    if fs != [] {
      LaidFirst(msg, off, fs, ends);
      LaidMoves(msg, off, fs[0], ends[0]);
      LaidRunsUp(msg, ends[0], fs[1..], ends[1..]);
    }
  }

  /** Only the last field of a structure may run to the end of the record. */
  predicate TailLast(fs: seq<Field>) {
    forall i :: 0 <= i < |fs| - 1 ==> !Tail(fs[i])
  }

  predicate NoTail(fs: seq<Field>) {
    forall i :: 0 <= i < |fs| ==> !Tail(fs[i])
  }

  lemma {:induction false} ReadLaidStruct(msg: Bytes, off: nat, lenrd: nat, fs: seq<Field>, ends: seq<nat>)
    requires |ends| == |fs| && AllLaid(msg, off, fs, ends) && TailLast(fs)
    requires lenrd == StartOf(off, ends, |ends|) || (lenrd == 0 && NoTail(fs))
    ensures ReadStruct(msg, off, lenrd, Shapes(fs)) == Struct(CanonicalFields(fs), StartOf(off, ends, |ends|))
    decreases |fs|
  {
    hide AllLaid, Laid, ReadField, CanonicalField, Zero, ShapeOf, Tail;
    if fs != [] {
      LaidFirst(msg, off, fs, ends);
      LaidMoves(msg, off, fs[0], ends[0]);
      LaidRunsUp(msg, ends[0], fs[1..], ends[1..]);
      assert Shapes(fs)[1..] == Shapes(fs[1..]);
      assert CanonicalFields(fs) == [CanonicalField(fs[0])] + CanonicalFields(fs[1..]);
      if Tail(fs[0]) {
        assert |fs| == 1;
      }
      ReadLaid(msg, off, lenrd, fs[0], ends[0]);
      ReadLaidStruct(msg, ends[0], lenrd, fs[1..], ends[1..]);
    }
  }

  /** Names that come back: not empty, and starting with a dot only when they are the root. */
  predicate GoodName(s: Bytes) {
    s != [] && (s == [DOT] || s[0] != DOT)
  }

  predicate GoodField(f: Field) {
    f.DomainName? ==> GoodName(f.name)
  }

  /** A field packed without a map, with room, takes at most its len and stands in the message. */
  lemma PackedLaid(f: Field, off: nat, lenmsg: nat, cmap: CMap, msg: Bytes)
    requires off + FieldLen(f) + 1 <= lenmsg && GoodField(f)
    requires PackField(f, off, lenmsg, cmap, false).Put?
    ensures |PackField(f, off, lenmsg, cmap, false).bytes| <= FieldLen(f)
    ensures var bytes := PackField(f, off, lenmsg, cmap, false).bytes;
            At(msg, off, bytes) ==> Laid(msg, off, f, off + |bytes|)
  {
    hide PackName, PackStrings, UnpackName, Canonical, U16, U32, TextsLen, At;
    var bytes := PackField(f, off, lenmsg, cmap, false).bytes;
    if At(msg, off, bytes) {
      AtSlice(msg, off, bytes);
    }
    match f
    case DomainName(s, _) =>
      NamePackedShort(s, off, lenmsg, cmap);
      if At(msg, off, bytes) {
        PackThenUnpack(s, off, lenmsg, cmap, msg);
      }
    case Texts(ss) =>
      TextsFit(ss, off, lenmsg);
      PackStringsSome(ss, off, lenmsg);
      if At(msg, off, bytes) {
        StringsReadBack(ss, off, lenmsg, msg);
      }
    case Word(_) =>
    case Long(_) =>
    case Address4(_) =>
    case Address6(_) =>
  }

  lemma PackStringSome(s: Bytes, off: nat, lenmsg: nat)
    requires PackString(s, off, lenmsg).TextBytes?
    ensures PackString(s, off, lenmsg).bytes != []
  {
    hide Tokens, Hanging;
  }

  lemma PackStringsSome(ss: seq<Bytes>, off: nat, lenmsg: nat)
    requires PackStrings(ss, off, lenmsg).TextBytes?
    ensures PackStrings(ss, off, lenmsg).bytes == [] <==> ss == []
  {
    hide PackString;
    if ss != [] {
      PackStringSome(ss[0], off, lenmsg);
    }
  }

  lemma NamePackedShort(s: Bytes, off: nat, lenmsg: nat, cmap: CMap)
    requires GoodName(s) && off + |s| + 1 <= lenmsg && PackName(s, off, lenmsg, cmap, false).Packed?
    ensures 1 <= |PackName(s, off, lenmsg, cmap, false).bytes| <= |s| + 1
  {
    hide PackName, Tokens, Fields, Wire;
    PackedIsFqdn(s, off, lenmsg, cmap);
    PackMeaning(s, off, lenmsg, cmap);
    if s == [DOT] {
      PackRoot(off, lenmsg, cmap);
    }
  }

  predicate GoodFields(fs: seq<Field>) {
    forall i :: 0 <= i < |fs| ==> GoodField(fs[i])
  }

  lemma {:induction false} PackedStructLaid(fs: seq<Field>, off: nat, lenmsg: nat, cmap: CMap, msg: Bytes) returns (ends: seq<nat>)
    requires off + StructLen(fs) + 1 <= lenmsg && GoodFields(fs)
    requires PackStruct(fs, off, lenmsg, cmap, false).Put?
    requires At(msg, off, PackStruct(fs, off, lenmsg, cmap, false).bytes)
    ensures |ends| == |fs| && AllLaid(msg, off, fs, ends)
    ensures StartOf(off, ends, |ends|) == off + |PackStruct(fs, off, lenmsg, cmap, false).bytes|
    ensures |PackStruct(fs, off, lenmsg, cmap, false).bytes| <= StructLen(fs)
    decreases |fs|
  {
    hide PackField, FieldLen, GoodField, At, Laid;
    if fs == [] {
      return [];
    }
    assert GoodField(fs[0]);
    var r := PackField(fs[0], off, lenmsg, cmap, false);
    var more := PackStruct(fs[1..], off + |r.bytes|, lenmsg, r.cmap, false);
    AtSplit(msg, off, r.bytes, more.bytes);
    PackedLaid(fs[0], off, lenmsg, cmap, msg);
    var mid := off + |r.bytes|;
    var rest := PackedStructLaid(fs[1..], mid, lenmsg, r.cmap, msg);
    ends := [mid] + rest;
    forall i | 0 <= i < |fs| ensures Laid(msg, StartOf(off, ends, i), fs[i], ends[i]) {
      if i > 0 {
        assert Laid(msg, StartOf(mid, rest, i - 1), fs[1..][i - 1], rest[i - 1]);
      }
    }
  }
}
