/**
  Name compression over a whole message (msg.go, after section 4.1.4 of RFC 1035): names packed one after another
  into one buffer with one map, other bytes in between.
  */
module Compression {
  import opened Bytes
  import opened Names
  import opened NameText
  import opened NameReader

  // ----- plain names -----

  /** A legal label of characters that are printed as they are. */
  predicate PlainLabel(l: Bytes) {
    1 <= |l| < 64 && forall i :: 0 <= i < |l| ==> PlainByte(l[i])
  }

  predicate PlainLabels(ls: seq<Bytes>) {
    forall i :: 0 <= i < |ls| ==> PlainLabel(ls[i])
  }

  /** A legal, fully qualified name without escapes, other than the root. */
  ghost predicate PlainName(s: Bytes) {
    && s != [DOT] && s != [] && s[|s| - 1] == DOT
    && (forall i :: 0 <= i < |s| ==> s[i] == DOT || PlainByte(s[i]))
    && PlainLabels(Fields(Tokens(s), []))
  }

  function LabelsOf(s: Bytes): seq<Bytes> {
    Fields(Tokens(s), [])
  }

  lemma {:induction false} PlainTokens(s: Bytes)
    requires forall i :: 0 <= i < |s| ==> s[i] == DOT || PlainByte(s[i])
    ensures |Tokens(s)| == |s|
    ensures forall i :: 0 <= i < |s| ==> Tokens(s)[i] == Tok(s[i], false)
    ensures SLASH !in s
  {
    if s != [] {
      assert s == [s[0]] + s[1..];
      assert s[0] != SLASH && (s[0] == DOT || PlainByte(s[0]));
      TokensPlain(s[0], s[1..]);
      PlainTokens(s[1..]);
    }
  }

  lemma {:induction false} PlainLabelText(l: Bytes)
    requires forall i :: 0 <= i < |l| ==> PlainByte(l[i])
    ensures LabelText(l) == l
  {
    if l != [] {
      PlainLabelText(l[1..]);
      assert PlainByte(l[0]);
      EscapeIs(l[0]);
      assert l == [l[0]] + l[1..];
    }
  }

  /** The labels, each with a dot behind it. */
  function Joined(ls: seq<Bytes>): (s: Bytes) {
    if ls == [] then [] else ls[0] + [46] + Joined(ls[1..])
  }

  lemma {:induction false} PlainLabelsText(ls: seq<Bytes>)
    requires PlainLabels(ls)
    ensures DottedText(ls) == Joined(ls)
  {
    hide LabelText, PlainByte;
    if ls != [] {
      assert PlainLabel(ls[0]);
      PlainLabelText(ls[0]);
      PlainLabelsText(ls[1..]);
    }
  }

  /** Counted labels of plain characters in a message are returned as they are, with dots. */
  lemma PlainNameRead(msg: Bytes, off: nat, ls: seq<Bytes>)
    requires ls != [] && PlainLabels(ls) && At(msg, off, Wire(ls) + [0])
    ensures UnpackName(msg, off) == Name(Joined(ls), off + |Wire(ls)| + 1)
  {
    hide PlainByte, DottedText, At, Wire;
    PlainLabelsText(ls);
    ReadWire(msg, off, ls, 0);
  }

  /** Every character of s, which ends with a dot, is a dot or plain, and its own token. */
  ghost predicate PlainText(s: Bytes) {
    && s != [] && s[|s| - 1] == DOT && |Tokens(s)| == |s|
    && forall i :: 0 <= i < |s| ==> Tokens(s)[i] == Tok(s[i], false) && (s[i] == DOT || PlainByte(s[i]))
  }

  /** Index k of s is inside the label that starts at begin. */
  ghost predicate InLabel(s: Bytes, k: nat, begin: nat) {
    && begin <= k <= |s|
    && (forall i :: begin <= i < k ==> s[i] != DOT)
    && (k == |s| ==> begin == |s|)
    && (begin > 0 ==> s[begin - 1] == DOT)
  }

  function FieldsAt(s: Bytes, k: nat, begin: nat): seq<Bytes>
    requires begin <= k <= |s| == |Tokens(s)|
  {
    Fields(Tokens(s)[k..], s[begin..k])
  }

  lemma LabelStep(s: Bytes, k: nat, begin: nat)
    requires PlainText(s) && InLabel(s, k, begin) && k < |s|
    ensures Tokens(s)[k] == Tok(s[k], false)
    ensures s[k] == DOT ==>
              && InLabel(s, k + 1, k + 1)
              && FieldsAt(s, k, begin) == [s[begin..k]] + FieldsAt(s, k + 1, k + 1)
              && LabelText(s[begin..k]) == s[begin..k] && Values(Tokens(s)[begin..k]) == s[begin..k]
    ensures s[k] != DOT ==> InLabel(s, k + 1, begin) && FieldsAt(s, k, begin) == FieldsAt(s, k + 1, begin)
  {
    hide Tokens, PlainByte, LabelText, Fields, FieldsAt, Values;
    FieldsStep(s, k, begin, Tokens(s));
    if s[k] == DOT {
      PlainSlice(s, k, begin, Tokens(s));
    }
  }

  lemma FieldsStep(s: Bytes, k: nat, begin: nat, ts: seq<Tok>)
    requires begin <= k < |s| == |ts| && ts == Tokens(s) && ts[k] == Tok(s[k], false)
    ensures FieldsAt(s, k, begin) ==
            if s[k] == DOT then [s[begin..k]] + FieldsAt(s, k + 1, k + 1) else FieldsAt(s, k + 1, begin)
  {
    hide Tokens;
    var tail := ts[k + 1..];
    assert ts[k..] == [ts[k]] + tail;
    FieldsCons(ts[k], tail, s[begin..k]);
    assert s[k + 1..k + 1] == [];
    assert s[begin..k] + [s[k]] == s[begin..k + 1];
  }

  lemma PlainSlice(s: Bytes, k: nat, begin: nat, ts: seq<Tok>)
    requires begin <= k <= |s| == |ts|
    requires forall i :: 0 <= i < |s| ==> ts[i] == Tok(s[i], false) && (s[i] == DOT || PlainByte(s[i]))
    requires forall i :: begin <= i < k ==> s[i] != DOT
    ensures LabelText(s[begin..k]) == s[begin..k] && Values(ts[begin..k]) == s[begin..k]
  {
    hide PlainByte, LabelText;
    PlainLabelText(s[begin..k]);
  }

  lemma LabelEnd(s: Bytes)
    requires PlainText(s)
    ensures FieldsAt(s, |s|, |s|) == [] && s[|s|..] == []
  {
  }

  /** The text of a plain name, from a label start on, is the text of the labels found there. */
  lemma {:induction false} SuffixText(s: Bytes, k: nat, begin: nat)
    requires PlainText(s) && InLabel(s, k, begin)
    ensures DottedText(FieldsAt(s, k, begin)) == s[begin..]
    decreases |s| - k
  {
    hide PlainText, FieldsAt, InLabel, LabelText;
    InLabelBounds(s, k, begin);
    if k == |s| {
      LabelEnd(s);
    } else {
      LabelStep(s, k, begin);
      if s[k] == DOT {
        SuffixText(s, k + 1, k + 1);
        var cur, fs := s[begin..k], FieldsAt(s, k + 1, k + 1);
        assert ([cur] + fs)[1..] == fs;
        assert s[begin..] == cur + [DOT] + s[k + 1..];
      } else {
        SuffixText(s, k + 1, begin);
      }
    }
  }

  lemma InLabelBounds(s: Bytes, k: nat, begin: nat)
    requires InLabel(s, k, begin) && PlainText(s)
    ensures begin <= k <= |s| == |Tokens(s)| && (k == |s| ==> begin == |s|)
  {
  }

  // ----- the packer with a map, on labels -----

  /** The packer's loop on the labels of a plain name: the longest suffix already recorded becomes a pointer. */
  function Compress(fs: seq<Bytes>, off: nat, cmap: CMap): (w: Walked)
    requires forall i :: 0 <= i < |fs| ==> |fs[i]| < 64
    ensures !w.Stop?
    decreases |fs|
  {
    if fs == [] then End([], 0, cmap)
    else
      var key := DottedText(fs);
      if key in cmap then Hit([], 0, cmap, cmap[key])
      else Prepend(Chunk(fs[0]), 1, Compress(fs[1..], off + 1 + |fs[0]|, Recorded(cmap, key, off, true)))
  }

  lemma {:induction false} WalkCompress(s: Bytes, k: nat, begin: nat, off: nat, lenmsg: nat, cmap: CMap)
    requires PlainText(s) && InLabel(s, k, begin)
    requires off + (|s| - begin) <= lenmsg
    requires PlainLabels(FieldsAt(s, k, begin))
    ensures Walk(s, Tokens(s), k, begin, off, lenmsg, cmap, true) == Compress(FieldsAt(s, k, begin), off, cmap)
    decreases |s| - k
  {
    hide PlainText, FieldsAt, InLabel, Chunk, Recorded, DottedText, LabelText, PlainByte, Walk;
    InLabelBounds(s, k, begin);
    if k == |s| {
      LabelEnd(s);
      WalkEnd(s, begin, off, lenmsg, cmap);
    } else {
      LabelStep(s, k, begin);
      if s[k] == DOT {
        var cur, fs := s[begin..k], FieldsAt(s, k + 1, k + 1);
        var all := [cur] + fs;
        assert all[0] == cur && all[1..] == fs;
        assert PlainLabel(all[0]) && (forall i :: 0 <= i < |fs| ==> fs[i] == all[i + 1]);
        SuffixText(s, k, begin);
        WalkAtDot(s, k, begin, off, lenmsg, cmap);
        WalkCompress(s, k + 1, k + 1, off + 1 + (k - begin), lenmsg, Recorded(cmap, s[begin..], off, true));
      } else {
        WalkCompress(s, k + 1, begin, off, lenmsg, cmap);
        WalkInLabel(s, k, begin, off, lenmsg, cmap);
      }
    }
  }

  lemma WalkEnd(s: Bytes, begin: nat, off: nat, lenmsg: nat, cmap: CMap)
    requires begin <= |s| == |Tokens(s)|
    ensures Walk(s, Tokens(s), |s|, begin, off, lenmsg, cmap, true) == End([], 0, cmap)
  {
  }

  lemma WalkInLabel(s: Bytes, k: nat, begin: nat, off: nat, lenmsg: nat, cmap: CMap)
    requires begin <= k < |s| == |Tokens(s)| && Tokens(s)[k] == Tok(s[k], false) && s[k] != DOT
    ensures Walk(s, Tokens(s), k, begin, off, lenmsg, cmap, true) == Walk(s, Tokens(s), k + 1, begin, off, lenmsg, cmap, true)
  {
  }

  lemma WalkAtDot(s: Bytes, k: nat, begin: nat, off: nat, lenmsg: nat, cmap: CMap)
    requires PlainText(s) && InLabel(s, k, begin) && begin < k < |s| && s[k] == DOT && k - begin < 64
    requires off + (|s| - begin) <= lenmsg && Values(Tokens(s)[begin..k]) == s[begin..k]
    ensures Walk(s, Tokens(s), k, begin, off, lenmsg, cmap, true) ==
            if s[begin..] in cmap then Hit([], 0, cmap, cmap[s[begin..]])
            else Prepend(Chunk(s[begin..k]), 1,
                         Walk(s, Tokens(s), k + 1, k + 1, off + 1 + (k - begin), lenmsg, Recorded(cmap, s[begin..], off, true), true))
  {
    hide Chunk, Recorded, PlainByte;
    assert s[k - 1] != DOT && Tokens(s)[k - 1] == Tok(s[k - 1], false) && Tokens(s)[k] == Tok(s[k], false);
    assert s[begin..][0] == s[begin] != DOT;
  }

  /** What packing a plain name with a map yields. */
  lemma PackCompressed(s: Bytes, off: nat, lenmsg: nat, cmap: CMap)
    requires PlainName(s) && off + |s| + 1 <= lenmsg
    ensures PlainLabels(LabelsOf(s)) && LabelsOf(s) != [] && DottedText(LabelsOf(s)) == s && SLASH !in s
    ensures var w := Compress(LabelsOf(s), off, cmap);
            |w.bytes| <= |s| - (if w.Hit? then 1 else 0) && PackName(s, off, lenmsg, cmap, true) ==
            Packed(w.bytes + (if w.Hit? then PointerBytes(w.pointer) else [0]), w.labels, w.cmap)
  {
    hide Walk, Chunk, Recorded, DottedText, PointerBytes, Compress, Tokens;
    PlainTokens(s);
    assert Tokens(s)[0..] == Tokens(s) && s[0..0] == [] && s[0..] == s;
    WalkCompress(s, 0, 0, off, lenmsg, cmap);
    SuffixText(s, 0, 0);
    DottedTextNil();
    CompressLength(LabelsOf(s), off, cmap);
  }

  lemma {:induction false} CompressLength(fs: seq<Bytes>, off: nat, cmap: CMap)
    requires PlainLabels(fs)
    ensures var w := Compress(fs, off, cmap);
            |w.bytes| <= |DottedText(fs)| - (if w.Hit? then 1 else 0)
    decreases |fs|
  {
    hide Recorded, PlainByte, DottedText, LabelText, Chunk;
    if fs != [] {
      assert PlainLabel(fs[0]);
      PlainLabelText(fs[0]);
      DottedLength(fs);
      if DottedText(fs) !in cmap {
        ChunkLength(fs[0]);
        CompressLength(fs[1..], off + 1 + |fs[0]|, Recorded(cmap, DottedText(fs), off, true));
      }
    }
  }

  lemma DottedLength(fs: seq<Bytes>)
    requires fs != []
    ensures |DottedText(fs)| == |LabelText(fs[0])| + 1 + |DottedText(fs[1..])|
  {
  }

  lemma ChunkLength(f: Bytes)
    requires |f| < 64
    ensures |Chunk(f)| == |f| + 1
  {
  }

  // ----- which suffix becomes a pointer -----

  lemma {:induction false} SuffixShorter(fs: seq<Bytes>, j: nat)
    requires 0 < j <= |fs|
    ensures |DottedText(fs[j..])| < |DottedText(fs)|
    decreases j
  {
    hide DottedText, LabelText;
    DottedLength(fs);
    if j > 1 {
      SuffixShorter(fs[1..], j - 1);
      assert fs[1..][j - 1..] == fs[j..];
    }
  }

  /** Of the suffixes of the name, the key was entered for one of the first k, at an offset that fits 14 bits. */
  ghost predicate Entered(fs: seq<Bytes>, off: nat, k: nat, key: Bytes)
    requires k <= |fs| && forall i :: 0 <= i < |fs| ==> |fs[i]| < 64
  {
    exists j: nat :: j < k && key == DottedText(fs[j..]) && off + |Wire(fs[..j])| < 16384
  }

  /**
    The first k labels are written out and their suffixes recorded, where they stand below 16384; the suffix behind
    them is the longest that was recorded before, if any was, and becomes the pointer.
    */
  lemma {:induction false} CompressIs(fs: seq<Bytes>, off: nat, cmap: CMap) returns (k: nat)
    requires forall i :: 0 <= i < |fs| ==> 1 <= |fs[i]| < 64
    ensures var w := Compress(fs, off, cmap);
            && k <= |fs| && w.bytes == Wire(fs[..k]) && w.labels == k
            && (forall j :: 0 <= j < k ==> DottedText(fs[j..]) !in cmap)
            && (if k == |fs| then w.End? else w.Hit? && DottedText(fs[k..]) in cmap && w.pointer == cmap[DottedText(fs[k..])])
            && (forall key :: key in w.cmap <==> key in cmap || Entered(fs, off, k, key))
    decreases |fs|
  {
    hide DottedText, Wire, Chunk;
    if fs == [] {
      k := 0;
      WireNil();
      assert fs[..0] == [];
    } else if DottedText(fs) in cmap {
      k := 0;
      WireNil();
      assert fs[..0] == [] && fs[0..] == fs;
    } else {
      var cmap' := Recorded(cmap, DottedText(fs), off, true);
      var rest := CompressIs(fs[1..], off + 1 + |fs[0]|, cmap');
      k := rest + 1;
      CompressOneMore(fs, off, cmap, rest);
      hide Compress, Recorded;
      forall j | 1 <= j <= |fs|
        ensures fs[1..][j - 1..] == fs[j..] && DottedText(fs[j..]) != DottedText(fs)
      {
        SuffixShorter(fs, j);
      }
      assert fs[0..] == fs;
      forall j | 0 <= j < k
        ensures DottedText(fs[j..]) !in cmap
      {
        if j > 0 {
          assert DottedText(fs[1..][j - 1..]) !in cmap';
        }
      }
      forall key ensures Entered(fs, off, k, key) <==>
                         (key == DottedText(fs) && off < 16384) || Entered(fs[1..], off + 1 + |fs[0]|, rest, key)
      {
        EnteredMore(fs, off, k, key);
      }
    }
  }

  lemma WireNil()
    ensures Wire([]) == []
  {
  }

  /** The bytes of the first labels, one more in front. */
  lemma WireFront(fs: seq<Bytes>, k: nat)
    requires 0 < k <= |fs| && forall i :: 0 <= i < |fs| ==> |fs[i]| < 64
    ensures Wire(fs[..k]) == Chunk(fs[0]) + Wire(fs[1..][..k - 1])
    ensures |Wire(fs[..k])| == 1 + |fs[0]| + |Wire(fs[1..][..k - 1])|
  {
    hide Wire, Chunk;
    WireCons(fs[0], fs[1..][..k - 1]);
    ChunkLength(fs[0]);
    assert [fs[0]] + fs[1..][..k - 1] == fs[..k];
  }

  /** The suffixes entered are the whole name and those of the rest. */
  lemma EnteredMore(fs: seq<Bytes>, off: nat, k: nat, key: Bytes)
    requires 0 < k <= |fs| && forall i :: 0 <= i < |fs| ==> |fs[i]| < 64
    ensures Entered(fs, off, k, key) <==>
            (key == DottedText(fs) && off < 16384) || Entered(fs[1..], off + 1 + |fs[0]|, k - 1, key)
  {
    hide DottedText, Wire;
    WireNil();
    assert fs[..0] == [] && fs[0..] == fs;
    forall j: nat | 0 < j < k
      ensures fs[1..][j - 1..] == fs[j..] && |Wire(fs[..j])| == 1 + |fs[0]| + |Wire(fs[1..][..j - 1])|
    {
      WireFront(fs, j);
    }
    if j: nat :| j < k - 1 && key == DottedText(fs[1..][j..]) && off + 1 + |fs[0]| + |Wire(fs[1..][..j])| < 16384 {
      assert fs[1..][j + 1 - 1..] == fs[j + 1..];
      assert key == DottedText(fs[j + 1..]) && off + |Wire(fs[..j + 1])| < 16384;
    }
  }

  lemma CompressOneMore(fs: seq<Bytes>, off: nat, cmap: CMap, rest: nat)
    requires fs != [] && forall i :: 0 <= i < |fs| ==> 1 <= |fs[i]| < 64
    requires DottedText(fs) !in cmap && rest < |fs|
    requires var w := Compress(fs[1..], off + 1 + |fs[0]|, Recorded(cmap, DottedText(fs), off, true));
             && w.bytes == Wire(fs[1..][..rest]) && w.labels == rest
             && (if rest == |fs| - 1 then w.End? else w.Hit?)
    ensures var w := Compress(fs, off, cmap);
            && w.bytes == Wire(fs[..rest + 1]) && w.labels == rest + 1
            && (if rest + 1 == |fs| then w.End? else w.Hit?)
    ensures var w, w' := Compress(fs, off, cmap), Compress(fs[1..], off + 1 + |fs[0]|, Recorded(cmap, DottedText(fs), off, true));
            w.cmap == w'.cmap && (w.Hit? ==> w.pointer == w'.pointer)
    ensures forall key :: key in Recorded(cmap, DottedText(fs), off, true) <==> key in cmap || (key == DottedText(fs) && off < 16384)
    ensures forall key :: key in cmap ==> Recorded(cmap, DottedText(fs), off, true)[key] == cmap[key]
  {
    hide DottedText, Wire, Chunk;
    WireFront(fs, rest + 1);
    DottedNotRoot(fs);
  }

  // ----- what a message spells at an offset -----

  datatype Spelled = Garbled | Spelled(labels: seq<Bytes>, hops: nat, next: nat)

  /** Labels and pointers from pos on, in a name segment that began at start: every pointer must lead before start. */
  function Spell(msg: Bytes, start: nat, pos: nat): (r: Spelled)
    ensures r.Spelled? ==> r.next <= |msg|
    decreases start, |msg| - pos
  {
    if pos >= |msg| then Garbled
    else
      var c := msg[pos];
      if c == 0 then Spelled([], 0, pos + 1)
      else if c < 64 then
        if pos + 1 + c > |msg| then Garbled
        else
          match Spell(msg, start, pos + 1 + c)
          case Garbled => Garbled
          case Spelled(ls, h, next) => Spelled([msg[pos + 1..pos + 1 + c]] + ls, h, next)
      else if c >= 192 && pos + 1 < |msg| then
        var target := (c as int - 192) * 256 + msg[pos + 1] as int;
        if target >= start then Garbled
        else
          match Spell(msg, target, target)
          case Garbled => Garbled
          case Spelled(ls, h, _) => Spelled(ls, h + 1, pos + 2)
      else Garbled
  }

  /** A later segment start changes nothing. */
  lemma {:induction false} SpellLater(msg: Bytes, start: nat, start': nat, pos: nat)
    requires start <= start' && Spell(msg, start, pos).Spelled?
    ensures Spell(msg, start', pos) == Spell(msg, start, pos)
    decreases |msg| - pos
  {
    var c := msg[pos];
    if 0 < c < 64 {
      SpellLater(msg, start, start', pos + 1 + c);
    }
  }

  /** Bytes appended behind a message change nothing either. */
  lemma {:induction false} SpellMore(msg: Bytes, more: Bytes, start: nat, pos: nat)
    requires Spell(msg, start, pos).Spelled?
    ensures Spell(msg + more, start, pos) == Spell(msg, start, pos)
    decreases start, |msg| - pos
  {
    SpellStep(msg, start, pos);
    SpellStep(msg + more, start, pos);
    hide Spell;
    var c := msg[pos];
    assert (msg + more)[pos] == c;
    if 0 < c < 64 {
      assert (msg + more)[pos + 1..pos + 1 + c] == msg[pos + 1..pos + 1 + c];
      SpellMore(msg, more, start, pos + 1 + c);
    } else if c >= 192 {
      assert (msg + more)[pos + 1] == msg[pos + 1];
      var target := (c as int - 192) * 256 + msg[pos + 1] as int;
      SpellMore(msg, more, target, target);
    }
  }

  /** A label or a pointer, and what it leads to. */
  lemma SpellStep(msg: Bytes, start: nat, pos: nat)
    ensures pos >= |msg| ==> Spell(msg, start, pos).Garbled?
    ensures pos < |msg| && 64 <= msg[pos] < 192 ==> Spell(msg, start, pos).Garbled?
    ensures pos < |msg| && msg[pos] == 0 ==> Spell(msg, start, pos) == Spelled([], 0, pos + 1)
    ensures pos < |msg| && 0 < msg[pos] < 64 ==>
              var c := msg[pos];
              Spell(msg, start, pos) == if pos + 1 + c > |msg| then Garbled
                                        else Longer([msg[pos + 1..pos + 1 + c]], Spell(msg, start, pos + 1 + c))
    ensures pos < |msg| && msg[pos] >= 192 ==>
              Spell(msg, start, pos) ==
              if pos + 1 >= |msg| then Garbled
              else
                var target := (msg[pos] as int - 192) * 256 + msg[pos + 1] as int;
                if target >= start then Garbled else Jumped(Spell(msg, target, target), pos + 2)
  {
  }

  function Longer(ls: seq<Bytes>, r: Spelled): Spelled {
    match r
    case Garbled => Garbled
    case Spelled(more, h, next) => Spelled(ls + more, h, next)
  }

  function Jumped(r: Spelled, next: nat): Spelled {
    match r
    case Garbled => Garbled
    case Spelled(ls, h, _) => Spelled(ls, h + 1, next)
  }

  /** The unpacker reads what is spelled exactly when it has enough pointers left to follow. */
  lemma {:induction false} ReadSpelled(msg: Bytes, start: nat, pos: nat, ptr: nat)
    requires Spell(msg, start, pos).Spelled? && ptr <= MAX_HOPS
    ensures var r, sp := ReadLabels(msg, pos, ptr), Spell(msg, start, pos);
            if ptr + sp.hops <= MAX_HOPS then r.LabelsRead? && r.labels == sp.labels && r.next == sp.next
            else r == ReadFailed(TooManyPointers)
    decreases start, |msg| - pos
  {
    var c := msg[pos];
    if 0 < c < 64 {
      ReadSpelled(msg, start, pos + 1 + c, ptr);
    } else if c >= 192 && ptr < MAX_HOPS {
      var target := (c as int - 192) * 256 + msg[pos + 1] as int;
      ReadSpelled(msg, target, target, ptr + 1);
    }
  }

  // ----- soundness of the map -----

  /** Every entry is an offset a pointer can hold, before the end of the message, where its text is spelled. */
  ghost predicate MapSound(msg: Bytes, cmap: CMap) {
    forall key :: key in cmap ==> EntrySound(msg, key, cmap[key])
  }

  ghost predicate EntrySound(msg: Bytes, key: Bytes, p: nat) {
    && p < MAX_OFFSET && p < |msg|
    && Spell(msg, p, p).Spelled?
    && PlainLabels(Spell(msg, p, p).labels)
    && DottedText(Spell(msg, p, p).labels) == key
  }

  lemma EntrySoundMore(msg: Bytes, more: Bytes, key: Bytes, p: nat)
    requires EntrySound(msg, key, p)
    ensures EntrySound(msg + more, key, p)
  {
    SpellMore(msg, more, p, p);
  }

  lemma MapSoundMore(msg: Bytes, more: Bytes, cmap: CMap)
    requires MapSound(msg, cmap)
    ensures MapSound(msg + more, cmap)
  {
    hide EntrySound;
    forall key | key in cmap
      ensures EntrySound(msg + more, key, cmap[key])
    {
      EntrySoundMore(msg, more, key, cmap[key]);
    }
  }

  /** The bytes a compressed name ends with. */
  function Closing(w: Walked): (s: Bytes)
    requires !w.Stop?
  {
    if w.Hit? then PointerBytes(w.pointer) else [0]
  }

  /**
    While fs is packed at off, in a name that began at start, the map holds the entries from before the name, all
    sound and before start, and entries for longer suffixes of this name.
    */
  ghost predicate MapBehind(msg: Bytes, start: nat, fs: seq<Bytes>, cmap: CMap) {
    forall key :: key in cmap ==> |key| > |DottedText(fs)| || (EntrySound(msg, key, cmap[key]) && cmap[key] < start)
  }

  /** Each entry of cmap' is sound or comes from cmap. */
  ghost predicate MapGrown(msg: Bytes, cmap: CMap, cmap': CMap) {
    && (forall key :: key in cmap ==> key in cmap' && cmap'[key] == cmap[key])
    && (forall key :: key in cmap' ==> (key in cmap && cmap'[key] == cmap[key]) || EntrySound(msg, key, cmap'[key]))
  }

  /** A name packed at off spells its labels there, and so do the suffixes recorded for it. */
  lemma {:induction false} CompressSound(msg: Bytes, start: nat, fs: seq<Bytes>, off: nat, cmap: CMap)
    requires PlainLabels(fs) && start <= off
    requires At(msg, off, Compress(fs, off, cmap).bytes + Closing(Compress(fs, off, cmap)))
    requires MapBehind(msg, start, fs, cmap)
    ensures var w := Compress(fs, off, cmap);
            var sp := Spell(msg, start, off);
            && sp.Spelled? && sp.labels == fs && sp.next == off + |w.bytes + Closing(w)|
            && MapGrown(msg, cmap, w.cmap)
    decreases |fs|
  {
    hide At, EntrySound, MapBehind, MapGrown, Spell, DottedText, PointerBytes, Chunk, PlainByte, Recorded;
    var w := Compress(fs, off, cmap);
    if fs == [] {
      assert w.bytes + Closing(w) == [0];
      AtByte(msg, off, 0);
      SpellEnd(msg, start, off);
      MapGrownSame(msg, cmap);
    } else if DottedText(fs) in cmap {
      assert w.bytes + Closing(w) == PointerBytes(cmap[DottedText(fs)]);
      SpellPointer(msg, start, fs, off, cmap);
      MapGrownSame(msg, cmap);
    } else {
      var cmap' := Recorded(cmap, DottedText(fs), off, true);
      var w' := Compress(fs[1..], off + 1 + |fs[0]|, cmap');
      assert PlainLabel(fs[0]);
      CompressStep(fs, off, cmap);
      hide Compress, Closing;
      AtSplit(msg, off, Chunk(fs[0]), w'.bytes + Closing(w'));
      MapBehindStep(msg, start, fs, off, cmap);
      CompressSound(msg, start, fs[1..], off + 1 + |fs[0]|, cmap');
      SpellLabel(msg, start, fs, off);
      MapGrownStep(msg, start, fs, off, cmap, w'.cmap);
    }
  }

  lemma CompressStep(fs: seq<Bytes>, off: nat, cmap: CMap)
    requires PlainLabels(fs) && fs != [] && DottedText(fs) !in cmap
    ensures |fs[0]| < 64 && PlainLabels(fs[1..])
    ensures var w, w' := Compress(fs, off, cmap), Compress(fs[1..], off + 1 + |fs[0]|, Recorded(cmap, DottedText(fs), off, true));
            && w.cmap == w'.cmap
            && w.bytes + Closing(w) == Chunk(fs[0]) + (w'.bytes + Closing(w'))
  {
    hide PointerBytes, Chunk, PlainByte, Recorded, DottedText;
  }

  lemma SpellEnd(msg: Bytes, start: nat, off: nat)
    requires off < |msg| && msg[off] == 0
    ensures Spell(msg, start, off) == Spelled([], 0, off + 1)
  {
  }

  lemma MapGrownSame(msg: Bytes, cmap: CMap)
    ensures MapGrown(msg, cmap, cmap)
  {
  }

  lemma SpellPointer(msg: Bytes, start: nat, fs: seq<Bytes>, off: nat, cmap: CMap)
    requires PlainLabels(fs) && MapBehind(msg, start, fs, cmap) && DottedText(fs) in cmap
    requires At(msg, off, PointerBytes(cmap[DottedText(fs)]))
    ensures var sp := Spell(msg, start, off);
            sp.Spelled? && sp.labels == fs && sp.next == off + 2
  {
    hide DottedText, PointerBytes, PlainLabels, Spell, At;
    var p := cmap[DottedText(fs)];
    assert EntrySound(msg, DottedText(fs), p) && p < start;
    PointerAt(msg, off, p);
    SpellJump(msg, start, off, p);
    DottedInjective(fs, Spell(msg, p, p).labels);
  }

  lemma PointerAt(msg: Bytes, off: nat, p: nat)
    requires p < MAX_OFFSET && At(msg, off, PointerBytes(p))
    ensures off + 1 < |msg| && msg[off] >= 192 && (msg[off] as int - 192) * 256 + msg[off + 1] as int == p
  {
    var word := PointerBytes(p);
    hide PointerBytes;
    assert word == [word[0]] + [word[1]];
    AtSplit(msg, off, [word[0]], [word[1]]);
    AtByte(msg, off, word[0]);
    AtByte(msg, off + 1, word[1]);
  }

  lemma SpellJump(msg: Bytes, start: nat, off: nat, p: nat)
    requires off + 1 < |msg| && msg[off] >= 192 && (msg[off] as int - 192) * 256 + msg[off + 1] as int == p < start
    ensures Spell(msg, start, off) ==
            match Spell(msg, p, p)
            case Garbled => Garbled
            case Spelled(ls, h, _) => Spelled(ls, h + 1, off + 2)
  {
  }

  lemma DottedInjective(a: seq<Bytes>, b: seq<Bytes>)
    requires DottedText(a) == DottedText(b)
    ensures a == b
  {
    TextRead(a);
    TextRead(b);
  }

  lemma SpellLabel(msg: Bytes, start: nat, fs: seq<Bytes>, off: nat)
    requires fs != [] && 1 <= |fs[0]| < 64 && At(msg, off, Chunk(fs[0]))
    requires var sp := Spell(msg, start, off + 1 + |fs[0]|); sp.Spelled? && sp.labels == fs[1..]
    ensures var sp, rest := Spell(msg, start, off), Spell(msg, start, off + 1 + |fs[0]|);
            sp.Spelled? && sp.labels == fs && sp.next == rest.next && sp.hops == rest.hops
  {
    AtSplit(msg, off, [|fs[0]|], fs[0]);
    AtByte(msg, off, |fs[0]|);
    AtSlice(msg, off + 1, fs[0]);
    assert [fs[0]] + fs[1..] == fs;
  }

  lemma MapBehindStep(msg: Bytes, start: nat, fs: seq<Bytes>, off: nat, cmap: CMap)
    requires fs != [] && MapBehind(msg, start, fs, cmap)
    ensures MapBehind(msg, start, fs[1..], Recorded(cmap, DottedText(fs), off, true))
  {
    hide EntrySound, LabelText;
  }

  lemma MapGrownStep(msg: Bytes, start: nat, fs: seq<Bytes>, off: nat, cmap: CMap, cmap2: CMap)
    requires fs != [] && PlainLabels(fs) && DottedText(fs) !in cmap && start <= off
    requires MapGrown(msg, Recorded(cmap, DottedText(fs), off, true), cmap2)
    requires Spell(msg, start, off).Spelled? && Spell(msg, start, off).labels == fs && off < |msg|
    ensures MapGrown(msg, cmap, cmap2)
  {
    hide DottedText, PlainByte, Spell;
    SpellLater(msg, start, off, off);
    if off < MAX_OFFSET {
      assert EntrySound(msg, DottedText(fs), off);
    }
    hide EntrySound;
  }

  // ----- whole runs -----

  /** What is done to the buffer: a name is packed, or other bytes are added. */
  datatype Op = Put(name: Bytes) | Raw(bytes: Bytes)

  datatype Placed = Placed(name: Bytes, at: nat, end: nat)

  datatype Buffer = Buffer(msg: Bytes, cmap: CMap, placed: seq<Placed>)

  function Do(st: Buffer, op: Op): (st': Buffer) {
    match op
    case Raw(bytes) => st.(msg := st.msg + bytes)
    case Put(s) =>
      match PackName(s, |st.msg|, |st.msg| + |s| + 1, st.cmap, true)
      case Failed(_) => st
      case Packed(bytes, _, cmap) =>
        Buffer(st.msg + bytes, cmap, st.placed + [Placed(s, |st.msg|, |st.msg| + |bytes|)])
  }

  function Run(st: Buffer, ops: seq<Op>): (st': Buffer)
    decreases |ops|
  {
    if ops == [] then st else Run(Do(st, ops[0]), ops[1..])
  }

  ghost predicate PlacedSound(msg: Bytes, p: Placed) {
    var sp := Spell(msg, p.at, p.at);
    sp.Spelled? && PlainLabels(sp.labels) && sp.labels != [] && DottedText(sp.labels) == p.name && sp.next == p.end
  }

  /** The map is sound and every name packed so far is spelled where it was packed. */
  ghost predicate Sound(st: Buffer) {
    MapSound(st.msg, st.cmap) && forall i :: 0 <= i < |st.placed| ==> PlacedSound(st.msg, st.placed[i])
  }

  lemma PlacedSoundMore(msg: Bytes, more: Bytes, p: Placed)
    requires PlacedSound(msg, p)
    ensures PlacedSound(msg + more, p)
  {
    SpellMore(msg, more, p.at, p.at);
  }

  lemma RawSound(st: Buffer, bytes: Bytes)
    requires Sound(st)
    ensures Sound(st.(msg := st.msg + bytes))
  {
    hide MapSound, PlacedSound;
    MapSoundMore(st.msg, bytes, st.cmap);
    forall i | 0 <= i < |st.placed|
      ensures PlacedSound(st.msg + bytes, st.placed[i])
    {
      PlacedSoundMore(st.msg, bytes, st.placed[i]);
    }
  }

  /** Packing one more name keeps the map sound and all names readable. */
  lemma PutSound(st: Buffer, s: Bytes)
    requires Sound(st) && PlainName(s)
    ensures Sound(Do(st, Put(s)))
    ensures |Do(st, Put(s)).placed| == |st.placed| + 1
  {
    hide PlainName, PackName, EntrySound, DottedText, PlacedSound, Compress, MapSound, Spell, At, PlainByte, PointerBytes;
    var off := |st.msg|;
    var fs := LabelsOf(s);
    PackCompressed(s, off, off + |s| + 1, st.cmap);
    var w := Compress(fs, off, st.cmap);
    var bytes := w.bytes + Closing(w);
    var st' := Do(st, Put(s));
    assert st' == Buffer(st.msg + bytes, w.cmap, st.placed + [Placed(s, off, off + |bytes|)]);
    RawSound(st, bytes);
    AtAppended(st.msg, bytes);
    Behind(st.msg, bytes, fs, st.cmap);
    CompressSound(st'.msg, off, fs, off, st.cmap);
    GrownSound(st'.msg, st.cmap, w.cmap);
    PlacedNow(st'.msg, fs, s, off, off + |bytes|);
  }

  lemma PlacedNow(msg: Bytes, fs: seq<Bytes>, s: Bytes, off: nat, end: nat)
    requires PlainLabels(fs) && fs != [] && DottedText(fs) == s
    requires var sp := Spell(msg, off, off); sp.Spelled? && sp.labels == fs && sp.next == end
    ensures PlacedSound(msg, Placed(s, off, end))
  {
  }

  lemma AtAppended(msg: Bytes, bytes: Bytes)
    ensures At(msg + bytes, |msg|, bytes)
  {
  }

  lemma Behind(msg: Bytes, bytes: Bytes, fs: seq<Bytes>, cmap: CMap)
    requires MapSound(msg, cmap)
    ensures MapBehind(msg + bytes, |msg|, fs, cmap)
  {
    hide DottedText;
    forall key | key in cmap
      ensures EntrySound(msg + bytes, key, cmap[key]) && cmap[key] < |msg|
    {
      EntrySoundMore(msg, bytes, key, cmap[key]);
    }
  }

  lemma GrownSound(msg: Bytes, cmap: CMap, cmap': CMap)
    requires MapSound(msg, cmap) && MapGrown(msg, cmap, cmap')
    ensures MapSound(msg, cmap')
  {
    hide EntrySound;
  }

  /** Main result: soundness holds after any sequence of plain names and other bytes. */
  lemma {:induction false} RunSound(st: Buffer, ops: seq<Op>)
    requires Sound(st) && forall i :: 0 <= i < |ops| && ops[i].Put? ==> PlainName(ops[i].name)
    ensures Sound(Run(st, ops))
    decreases |ops|
  {
    hide Sound, PlainName, Do;
    if ops != [] {
      if ops[0].Put? {
        PutSound(st, ops[0].name);
      } else {
        RawSound(st, ops[0].bytes);
        assert Do(st, ops[0]) == st.(msg := st.msg + ops[0].bytes) by { DoRaw(st, ops[0].bytes); }
      }
      RunSound(Do(st, ops[0]), ops[1..]);
    }
  }

  lemma DoRaw(st: Buffer, bytes: Bytes)
    ensures Do(st, Raw(bytes)) == st.(msg := st.msg + bytes)
  {
  }

  /** An empty buffer with an empty map is sound. */
  lemma EmptySound()
    ensures Sound(Buffer([], map[], []))
  {
  }

  /** How many pointers lead from a placed name to its end. */
  function Hops(st: Buffer, i: nat): nat
    requires i < |st.placed|
  {
    var sp := Spell(st.msg, st.placed[i].at, st.placed[i].at);
    if sp.Spelled? then sp.hops else 0
  }

  /**
    Main result: in a sound buffer, whatever follows it, the unpacker returns a packed name and the packer's end
    offset exactly when its chain has at most ten pointers, and otherwise gives up on the chain.
    */
  lemma ReadBack(st: Buffer, i: nat, more: Bytes)
    requires Sound(st) && i < |st.placed|
    ensures var p := st.placed[i];
            UnpackName(st.msg + more, p.at) ==
            if Hops(st, i) <= 10 then Name(p.name, p.end) else NoName(TooManyPointers)
  {
    hide MapSound, DottedText, ReadLabels;
    var p := st.placed[i];
    assert PlacedSound(st.msg, p);
    SpellMore(st.msg, more, p.at, p.at);
    ReadSpelled(st.msg + more, p.at, p.at, 0);
  }

  // ----- a chain the unpacker gives up on -----

  /** The dotted text of plain labels is a plain name: plain names are exactly these. */
  lemma PlainDotted(ls: seq<Bytes>, s: Bytes)
    requires ls != [] && PlainLabels(ls) && s == DottedText(ls)
    ensures PlainName(s) && LabelsOf(s) == ls
  {
    hide DottedText, LabelText, PlainByte;
    TextRead(ls);
    DottedTextEnd(ls);
    DottedNotRoot(ls);
    DottedCharacters(ls);
  }

  lemma JoinedOne(l: Bytes)
    ensures Joined([l]) == l + [46]
  {
    assert [l][1..] == [] && Joined([]) == [];
  }

  /** Plain labels joined by dots are the name that has these labels. */
  lemma PlainNameIs(ls: seq<Bytes>, s: Bytes)
    requires ls != [] && PlainLabels(ls) && s == Joined(ls)
    ensures PlainName(s) && Fields(Tokens(s), []) == ls
  {
    hide PlainByte, DottedText, Joined;
    PlainLabelsText(ls);
    PlainDotted(ls, s);
  }

  lemma {:induction false} DottedCharacters(ls: seq<Bytes>)
    requires PlainLabels(ls)
    ensures forall i :: 0 <= i < |DottedText(ls)| ==> DottedText(ls)[i] == DOT || PlainByte(DottedText(ls)[i])
  {
    hide PlainByte, LabelText;
    if ls != [] {
      assert PlainLabel(ls[0]);
      PlainLabelText(ls[0]);
      DottedCharacters(ls[1..]);
    }
  }

  /** k labels "a". */
  function Nested(k: nat): (ls: seq<Bytes>)
    ensures |ls| == k
  {
    if k == 0 then [] else [[97]] + Nested(k - 1)
  }

  lemma {:induction false} NestedText(k: nat)
    ensures PlainLabels(Nested(k)) && |DottedText(Nested(k))| == 2 * k
  {
    if k > 0 {
      NestedText(k - 1);
      assert Nested(k)[1..] == Nested(k - 1);
      assert LabelText([97]) == NameEscape(97) + LabelText([]) == [97];
    }
  }

  /** The k names a., a.a., a.a.a. and so on. */
  function NestedOps(k: nat): (ops: seq<Op>) {
    if k == 0 then [] else NestedOps(k - 1) + [Put(DottedText(Nested(k)))]
  }

  lemma {:induction false} RunSnoc(st: Buffer, ops: seq<Op>, op: Op)
    ensures Run(st, ops + [op]) == Do(Run(st, ops), op)
    decreases |ops|
  {
    hide Do;
    if ops == [] {
      assert ops + [op] == [op] && [op][1..] == [];
    } else {
      RunSnoc(Do(st, ops[0]), ops[1..], op);
      assert (ops + [op])[1..] == ops[1..] + [op];
    }
  }

  /** The last of the nested names is recorded, no longer name is, and its chain has k - 1 pointers. */
  ghost predicate NestedState(st: Buffer, k: nat) {
    && Sound(st) && k >= 1 && |st.placed| == k && |st.msg| <= 4 * k
    && DottedText(Nested(k)) in st.cmap
    && st.placed[k - 1].at == st.cmap[DottedText(Nested(k))]
    && Hops(st, k - 1) == k - 1
    && forall key :: key in st.cmap ==> |key| <= 2 * k
  }

  lemma NestedFirst()
    ensures NestedState(Do(Buffer([], map[], []), Put(DottedText(Nested(1)))), 1)
  {
    hide DottedText, PackName, PointerBytes, MapSound, PlacedSound;
    var st := Buffer([], map[], []);
    var fs := Nested(1);
    var s := DottedText(fs);
    NestedText(1);
    PlainDotted(fs, s);
    EmptySound();
    PutSound(st, s);
    PackCompressed(s, 0, |s| + 1, map[]);
    assert fs[1..] == [];
    assert Compress(fs[1..], 2, map[s := 0]) == End([], 0, map[s := 0]);
    var st' := Do(st, Put(s));
    assert Chunk(fs[0]) == [1, 97];
    assert st'.msg == [1, 97, 0];
    assert Spell(st'.msg, 0, 2) == Spelled([], 0, 3);
  }

  lemma NestedNext(st: Buffer, k: nat)
    requires NestedState(st, k) && k < 100
    ensures NestedState(Do(st, Put(DottedText(Nested(k + 1)))), k + 1)
  {
    hide DottedText, PackName, PointerBytes, MapSound, PlacedSound, Spell, PlainName, Chunk, Compress;
    var s, key, off := DottedText(Nested(k + 1)), DottedText(Nested(k)), |st.msg|;
    NestedText(k);
    NestedText(k + 1);
    PlainDotted(Nested(k + 1), s);
    PutSound(st, s);
    PackCompressed(s, off, off + |s| + 1, st.cmap);
    NestedCompress(k, s, key, off, st.cmap);
    SoundEntry(st, key);
    NestedHops(st.msg, key, st.cmap[key], off);
  }

  /** A new label in front of a recorded name is written out, and then the pointer to that name. */
  lemma NestedCompress(k: nat, s: Bytes, key: Bytes, off: nat, cmap: CMap)
    requires 0 < k && PlainLabels(Nested(k)) && PlainLabels(Nested(k + 1)) && s == DottedText(Nested(k + 1)) && key == DottedText(Nested(k)) && s != key
    requires key in cmap && s !in cmap && off < MAX_OFFSET && s != [DOT]
    ensures Compress(Nested(k + 1), off, cmap) == Hit(Chunk([97]), 1, cmap[s := off], cmap[key])
  {
    hide DottedText, Chunk;
    var fs := Nested(k + 1);
    assert fs[1..] == Nested(k) && fs[0] == [97];
    assert Compress(Nested(k), off + 2, cmap[s := off]) == Hit([], 0, cmap[s := off], cmap[key]);
    assert Chunk([97]) + [] == Chunk([97]);
  }

  lemma SoundEntry(st: Buffer, key: Bytes)
    requires Sound(st) && key in st.cmap
    ensures EntrySound(st.msg, key, st.cmap[key])
  {
  }

  /** One more label and a pointer to p make a chain longer by one. */
  lemma NestedHops(msg: Bytes, key: Bytes, p: nat, off: nat)
    requires off == |msg| && EntrySound(msg, key, p)
    ensures var msg' := msg + (Chunk([97]) + PointerBytes(p));
            Spell(msg', off, off).Spelled? && Spell(msg', off, off).hops == Spell(msg, p, p).hops + 1
  {
    hide PointerBytes, Spell;
    var bytes := Chunk([97]) + PointerBytes(p);
    var msg' := msg + bytes;
    SpellMore(msg, bytes, p, p);
    AtAppended(msg, bytes);
    AtSplit(msg', off, Chunk([97]), PointerBytes(p));
    PointerAt(msg', off + 2, p);
    SpellJump(msg', off, off + 2, p);
    assert msg'[off] == 1;
    SpellOne(msg', off);
  }

  lemma SpellOne(msg: Bytes, off: nat)
    requires off + 2 <= |msg| && msg[off] == 1 && Spell(msg, off, off + 2).Spelled?
    ensures Spell(msg, off, off).Spelled? && Spell(msg, off, off).hops == Spell(msg, off, off + 2).hops
  {
  }

  lemma {:induction false} NestedRun(k: nat)
    requires 1 <= k <= 100
    ensures NestedState(Run(Buffer([], map[], []), NestedOps(k)), k)
  {
    hide NestedState, Do;
    var st := Buffer([], map[], []);
    RunSnoc(st, NestedOps(k - 1), Put(DottedText(Nested(k))));
    if k == 1 {
      assert NestedOps(0) == [];
      NestedFirst();
    } else {
      NestedRun(k - 1);
      NestedNext(Run(st, NestedOps(k - 1)), k - 1);
    }
  }

  /**
    The limit is reached by legal input: packed with one map, the names a., a.a. and so on up to twelve labels fit in
    48 bytes, and the last cannot be read back from them.
    */
  lemma ChainTooLong()
    ensures var st := Run(Buffer([], map[], []), NestedOps(12));
            && |st.msg| <= 48 && |st.placed| == 12
            && UnpackName(st.msg, st.placed[11].at) == NoName(TooManyPointers)
  {
    hide Run, NestedOps, Sound, UnpackName;
    NestedRun(12);
    var st := Run(Buffer([], map[], []), NestedOps(12));
    ReadBack(st, 11, []);
    assert st.msg + [] == st.msg;
  }
}
