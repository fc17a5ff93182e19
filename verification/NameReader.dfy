/** Reading names out of messages: UnpackDomainName (msg.go), and its round trips with the packer. */
module NameReader {
  import Arith
  import opened Bytes
  import opened Names
  import opened NameText

  datatype ReadError = ShortBuffer | TooManyPointers | ReservedBits

  /** next is where the record goes on (behind the first pointer, if any), last where the bytes read end. */
  datatype NameRead = ReadFailed(error: ReadError) | LabelsRead(labels: seq<Bytes>, next: nat, last: nat)

  const MAX_HOPS := 10

  /** The labels found from off on, when ptr pointers have been followed already. */
  function ReadLabels(msg: Bytes, off: nat, ptr: nat): (r: NameRead)
    requires ptr <= MAX_HOPS
    ensures r.LabelsRead? ==> forall i :: 0 <= i < |r.labels| ==> 1 <= |r.labels[i]| < 64
    decreases MAX_HOPS - ptr, |msg| - off
  {
    if off >= |msg| then ReadFailed(ShortBuffer)
    else
      var c := msg[off];
      if c == 0 then LabelsRead([], off + 1, off + 1)
      else if c < 64 then
        if off + 1 + c > |msg| then ReadFailed(ShortBuffer)
        else
          var r := ReadLabels(msg, off + 1 + c, ptr);
          if r.ReadFailed? then r else LabelsRead([msg[off + 1..off + 1 + c]] + r.labels, r.next, r.last)
      else if c >= 192 then
        if off + 1 >= |msg| then ReadFailed(ShortBuffer)
        else if ptr + 1 > MAX_HOPS then ReadFailed(TooManyPointers)
        else
          var r := ReadLabels(msg, (c as int - 192) * 256 + msg[off + 1] as int, ptr + 1);
          if r.ReadFailed? then r else LabelsRead(r.labels, off + 2, r.last)
      else ReadFailed(ReservedBits)
  }

  datatype NameResult = NoName(error: ReadError) | Name(text: Bytes, next: nat)

  /**
    The unpacker's result. For the root it reports the offset behind the zero byte it read, even when a pointer
    led there.
    */
  function UnpackName(msg: Bytes, off: nat): (r: NameResult) {
    match ReadLabels(msg, off, 0)
    case ReadFailed(e) => NoName(e)
    case LabelsRead(ls, next, last) => if ls == [] then Name([DOT], last) else Name(DottedText(ls), next)
  }

  // ----- the unpacker as the source runs it -----

  /** What is left to read, with the labels already read put in front and the first pointer remembered. */
  function Resume(ls: seq<Bytes>, ptr: nat, off1: nat, r: NameRead): NameRead {
    match r
    case ReadFailed(e) => r
    case LabelsRead(more, next, last) => LabelsRead(ls + more, if ptr > 0 then off1 else next, last)
  }

  /** Appends the escaped bytes of one label, and its dot. */
  method AppendLabel(s0: Bytes, lab: Bytes) returns (s: Bytes)
    ensures s == s0 + LabelText(lab) + [DOT]
  {
    hide LabelText, Ddd;
    s := s0;
    LabelTextNil(s);
    for j := 0 to |lab|
      invariant s == s0 + LabelText(lab[..j])
    {
      var b := lab[j];
      LabelTextSnoc(lab[..j], b);
      assert lab[..j + 1] == lab[..j] + [b];
      var escaped: Bytes;
      if b in [DOT, '(' as int, ')' as int, ';' as int, ' ' as int, '@' as int, QUOTE, SLASH] {
        escaped := [SLASH, b];
      } else if b == TAB {
        escaped := [SLASH, 't' as int];
      } else if b == CR {
        escaped := [SLASH, 'r' as int];
      } else if b < 32 || b >= 127 {
        escaped := [SLASH] + Ddd(b);
      } else {
        escaped := [b];
      }
      Arith.Reassociate(s0, LabelText(lab[..j]), escaped);
      s := s + escaped;
    }
    assert lab[..|lab|] == lab;
    s := s + [DOT];
  }

  lemma LabelTextNil(s: Bytes)
    ensures s + LabelText([]) == s
  {
  }

  method UnpackDomainName(msg: Bytes, off0: nat) returns (r: NameResult)
    ensures r == UnpackName(msg, off0)
  {
    hide ReadLabels, LabelText, DottedText, Resume;
    var s: Bytes := [];
    var off: nat, off1: nat, ptr: nat := off0, 0, 0;
    ghost var ls: seq<Bytes> := [];
    ResumeStart(ReadLabels(msg, off0, 0));
    DottedTextNil();
    while true
      invariant ptr <= MAX_HOPS
      invariant s == DottedText(ls) && (s == [] <==> ls == [])
      invariant ReadLabels(msg, off0, 0) == Resume(ls, ptr, off1, ReadLabels(msg, off, ptr))
      decreases MAX_HOPS - ptr, |msg| - off
    {
      ReadStep(msg, off, ptr);
      ResumeEnds(ls, ptr, off1, off + 1);
      if off >= |msg| {
        return NoName(ShortBuffer);
      }
      var c := msg[off];
      off := off + 1;
      if c == 0 {
        if |s| == 0 {
          return Name([DOT], off);
        }
        break;
      } else if c < 64 {
        if off + c > |msg| {
          return NoName(ShortBuffer);
        }
        var lab := msg[off..off + c];
        s := AppendLabel(s, lab);
        SnocText(ls, lab, ptr, off1, ReadLabels(msg, off + c, ptr));
        ls := ls + [lab];
        off := off + c;
      } else if c >= 192 {
        if off >= |msg| {
          return NoName(ShortBuffer);
        }
        var c1 := msg[off];
        off := off + 1;
        if ptr == 0 {
          off1 := off;
        }
        ptr := ptr + 1;
        if ptr > MAX_HOPS {
          return NoName(TooManyPointers);
        }
        ResumePointer(ls, ptr, off1, off, ReadLabels(msg, (c as int - 192) * 256 + c1 as int, ptr));
        off := (c as int - 192) * 256 + c1 as int;
      } else {
        return NoName(ReservedBits);
      }
    }
    if ptr == 0 {
      off1 := off;
    }
    r := Name(s, off1);
  }

  lemma ResumeEnds(ls: seq<Bytes>, ptr: nat, off1: nat, end: nat)
    ensures forall e :: Resume(ls, ptr, off1, ReadFailed(e)) == ReadFailed(e)
    ensures Resume(ls, ptr, off1, LabelsRead([], end, end)) == LabelsRead(ls, if ptr > 0 then off1 else end, end)
  {
    assert ls + [] == ls;
  }

  lemma ResumePointer(ls: seq<Bytes>, ptr: nat, off1: nat, off2: nat, r: NameRead)
    requires ptr >= 1 && (ptr == 1 ==> off1 == off2)
    ensures ptr > 1 ==> Resume(ls, ptr - 1, off1, Resume([], 1, off2, r)) == Resume(ls, ptr, off1, r)
    ensures ptr == 1 ==> forall o :: Resume(ls, 0, o, Resume([], 1, off2, r)) == Resume(ls, 1, off1, r)
  {
    assert r.LabelsRead? ==> [] + r.labels == r.labels;
  }

  lemma ResumeStart(r: NameRead)
    ensures Resume([], 0, 0, r) == r
  {
    if r.LabelsRead? {
      assert [] + r.labels == r.labels;
    }
  }

  /** ReadLabels, one step. */
  lemma ReadStep(msg: Bytes, off: nat, ptr: nat)
    requires ptr <= MAX_HOPS
    ensures off >= |msg| ==> ReadLabels(msg, off, ptr) == ReadFailed(ShortBuffer)
    ensures off < |msg| ==>
              var c := msg[off];
              ReadLabels(msg, off, ptr) ==
              if c == 0 then LabelsRead([], off + 1, off + 1)
              else if c < 64 then
                if off + 1 + c > |msg| then ReadFailed(ShortBuffer)
                else Resume([msg[off + 1..off + 1 + c]], 0, 0, ReadLabels(msg, off + 1 + c, ptr))
              else if c >= 192 then
                if off + 1 >= |msg| then ReadFailed(ShortBuffer)
                else if ptr + 1 > MAX_HOPS then ReadFailed(TooManyPointers)
                else Resume([], 1, off + 2, ReadLabels(msg, (c as int - 192) * 256 + msg[off + 1] as int, ptr + 1))
              else ReadFailed(ReservedBits)
  {
    if off < |msg| && msg[off] >= 192 && off + 1 < |msg| && ptr < MAX_HOPS {
      var r := ReadLabels(msg, (msg[off] as int - 192) * 256 + msg[off + 1] as int, ptr + 1);
      assert r.LabelsRead? ==> [] + r.labels == r.labels;
    }
  }

  lemma SnocText(ls: seq<Bytes>, lab: Bytes, ptr: nat, off1: nat, r: NameRead)
    ensures DottedText(ls + [lab]) == DottedText(ls) + LabelText(lab) + [DOT]
    ensures Resume(ls, ptr, off1, Resume([lab], 0, 0, r)) == Resume(ls + [lab], ptr, off1, r)
  {
    hide LabelText, DottedText;
    DottedTextAppend(ls, [lab]);
    DottedTextOne(lab);
    Arith.Reassociate(DottedText(ls), LabelText(lab), [DOT]);
    if r.LabelsRead? {
      Arith.Reassociate(ls, [lab], r.labels);
    }
  }

  lemma DottedTextOne(lab: Bytes)
    ensures DottedText([lab]) == LabelText(lab) + [DOT]
  {
    DottedTextNil();
    assert [lab][1..] == [];
  }

  // ----- round trips -----

  /**
    Main result: a name read from any bytes at all, packed again without a map and with room, gives exactly the
    labels that were read, pointers resolved, each with its length in front, and a zero byte.
    */
  lemma UnpackThenPack(msg: Bytes, off: nat, off': nat, lenmsg: nat, cmap: CMap)
    requires UnpackName(msg, off).Name? && off' + |UnpackName(msg, off).text| + 1 <= lenmsg
    ensures ReadLabels(msg, off, 0).LabelsRead?
    ensures var r := PackName(UnpackName(msg, off).text, off', lenmsg, cmap, false);
            r.Packed? && r.bytes == Wire(ReadLabels(msg, off, 0).labels) + [0] && r.cmap == cmap
  {
    var ls := ReadLabels(msg, off, 0).labels;
    var s := UnpackName(msg, off).text;
    hide ReadLabels, Tokens, PackName;
    if ls == [] {
      PackRoot(off', lenmsg, cmap);
    } else {
      DottedTextEnd(ls);
      TextRead(ls);
      DottedNotRoot(ls);
      PackMeaning(s, off', lenmsg, cmap);
    }
  }

  lemma PackRoot(off: nat, lenmsg: nat, cmap: CMap)
    requires off + 2 <= lenmsg
    ensures PackName([DOT], off, lenmsg, cmap, false) == Packed([0], 1, cmap)
  {
    RootFields();
    hide Tokens, PackName;
    PackMeaning([DOT], off, lenmsg, cmap);
    assert Wire([[]]) == Chunk([]) + Wire([[]][1..]) == [0];
  }

  lemma RootFields()
    ensures Fields(Tokens([DOT]), []) == [[]]
  {
    TokensPlain(DOT, []);
    assert [DOT] + [] == [DOT];
    assert Tokens([]) == [];
    FieldsCons(Tok(DOT, false), [], []);
  }

  /** The text of labels that are not empty is not the root's text. */
  lemma DottedNotRoot(ls: seq<Bytes>)
    requires ls != [] && forall i :: 0 <= i < |ls| ==> 1 <= |ls[i]| < 64
    ensures DottedText(ls) != [DOT] && Legal(ls, false)
  {
    hide NameEscape;
    assert |LabelText(ls[0])| >= 1;
  }

  /** Counted labels in place are read back. */
  lemma {:induction false} ReadWire(msg: Bytes, off: nat, ls: seq<Bytes>, ptr: nat)
    requires forall i :: 0 <= i < |ls| ==> 1 <= |ls[i]| < 64
    requires ptr <= MAX_HOPS && At(msg, off, Wire(ls) + [0])
    ensures ReadLabels(msg, off, ptr) == LabelsRead(ls, off + |Wire(ls)| + 1, off + |Wire(ls)| + 1)
    decreases |ls|
  {
    hide At, ReadLabels;
    ReadStep(msg, off, ptr);
    if ls == [] {
      assert Wire(ls) + [0] == [0];
      AtByte(msg, off, 0);
    } else {
      var rest := Wire(ls[1..]) + [0];
      assert Wire(ls) + [0] == [|ls[0]|] + (ls[0] + rest);
      AtSplit(msg, off, [|ls[0]|], ls[0] + rest);
      AtByte(msg, off, |ls[0]|);
      AtSplit(msg, off + 1, ls[0], rest);
      AtSlice(msg, off + 1, ls[0]);
      ReadWire(msg, off + 1 + |ls[0]|, ls[1..], ptr);
      assert [ls[0]] + ls[1..] == ls;
    }
  }

  lemma AtSlice(msg: Bytes, off: nat, bytes: Bytes)
    requires At(msg, off, bytes)
    ensures off + |bytes| <= |msg| && msg[off..off + |bytes|] == bytes
  {
  }

  /** The canonical text of the labels a name stands for. */
  function Canonical(s: Bytes): (t: Bytes) {
    if s == [DOT] then s else NameOf(Fields(Tokens(s), []))
  }

  /**
    Main result: what the packer wrote without a map is read back as the canonical form of the name, ending where
    the packer ended, exactly when the name does not start with a dot or is the root.
    */
  lemma PackThenUnpack(s: Bytes, off: nat, lenmsg: nat, cmap: CMap, msg: Bytes)
    requires off + |s| + 1 <= lenmsg && s != []
    requires PackName(s, off, lenmsg, cmap, false).Packed?
    requires At(msg, off, PackName(s, off, lenmsg, cmap, false).bytes)
    ensures var bytes := PackName(s, off, lenmsg, cmap, false).bytes;
            UnpackName(msg, off) == Name(Canonical(s), off + |bytes|) <==> s == [DOT] || s[0] != DOT
  {
    hide ReadLabels, PackName, Tokens, At, Fields, UnpackName, Wire, Canonical, NameOf;
    if s == [DOT] {
      PackRoot(off, lenmsg, cmap);
      UnpackRoot(msg, off);
      CanonicalRoot();
    } else {
      PackedIsFqdn(s, off, lenmsg, cmap);
      PackMeaning(s, off, lenmsg, cmap);
      FirstField(s);
      UnpackFields(s, Fields(Tokens(s), []), off, msg);
    }
  }

  lemma CanonicalRoot()
    ensures Canonical([DOT]) == [DOT]
  {
  }

  lemma UnpackFields(s: Bytes, fs: seq<Bytes>, off: nat, msg: Bytes)
    requires s != [DOT] && s != [] && fs == Fields(Tokens(s), [])
    requires forall i :: 0 <= i < |fs| ==> |fs[i]| < 64 && (i > 0 ==> fs[i] != [])
    requires if s[0] == DOT then fs != [] && fs[0] == [] else forall i :: 0 <= i < |fs| && i == 0 ==> fs[i] != []
    requires At(msg, off, Wire(fs) + [0])
    ensures UnpackName(msg, off) == Name(Canonical(s), off + |Wire(fs) + [0]|) <==> s[0] != DOT
  {
    hide Tokens, At, Fields, ReadLabels;
    if s[0] == DOT {
      assert Wire(fs) + [0] == [0] + (Wire(fs[1..]) + [0]);
      AtSplit(msg, off, [0], Wire(fs[1..]) + [0]);
      UnpackRoot(msg, off);
    } else {
      ReadWire(msg, off, fs, 0);
    }
  }

  lemma UnpackRoot(msg: Bytes, off: nat)
    requires At(msg, off, [0])
    ensures UnpackName(msg, off) == Name([DOT], off + 1)
  {
    AtByte(msg, off, 0);
    ReadStep(msg, off, 0);
  }

  lemma PackedIsFqdn(s: Bytes, off: nat, lenmsg: nat, cmap: CMap)
    requires s != [] && PackName(s, off, lenmsg, cmap, false).Packed?
    ensures s[|s| - 1] == DOT
  {
    hide Walk, Tokens;
  }

  /** The first label is empty exactly when the name starts with a dot. */
  lemma FirstField(s: Bytes)
    requires s != []
    ensures var fs := Fields(Tokens(s), []);
            if s[0] == DOT then fs != [] && fs[0] == [] else forall i :: 0 <= i < |fs| && i == 0 ==> fs[i] != []
  {
    if s[0] == DOT {
      assert s == [DOT] + s[1..];
      TokensPlain(DOT, s[1..]);
      FieldsCons(Tok(DOT, false), Tokens(s[1..]), []);
    } else if s != [SLASH] {
      var ts := Tokens(s);
      assert !IsSep(ts[0]);
      assert [] + [ts[0].b] == [ts[0].b];
      FieldsGrow(ts[1..], [ts[0].b]);
    }
  }

  lemma {:induction false} FieldsGrow(ts: seq<Tok>, cur: Bytes)
    requires cur != []
    ensures var fs := Fields(ts, cur); |fs| > 0 ==> fs[0] != []
    decreases |ts|
  {
    if ts != [] && !IsSep(ts[0]) {
      FieldsGrow(ts[1..], cur + [ts[0].b]);
    }
  }

  /** Canonical names are their own canonical form. */
  lemma CanonicalName(ls: seq<Bytes>)
    requires forall i :: 0 <= i < |ls| ==> 1 <= |ls[i]| < 64
    ensures Canonical(NameOf(ls)) == NameOf(ls)
  {
    if ls != [] {
      TextRead(ls);
      DottedNotRoot(ls);
    }
  }
}
