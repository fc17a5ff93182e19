/**
  What names mean: the labels a presentation-form name stands for, reading names back (UnpackDomainName, msg.go),
  and the round trips between the two forms.
  */
module NameText {
  import Arith
  import opened Bytes
  import opened Names

  // ----- from text to labels -----

  /** The label texts ended by unescaped dots; cur is the label being read. Text behind the last such dot is dropped. */
  function Fields(ts: seq<Tok>, cur: Bytes): (fs: seq<Bytes>)
    decreases |ts|
  {
    if ts == [] then []
    else if IsSep(ts[0]) then [cur] + Fields(ts[1..], [])
    else Fields(ts[1..], cur + [ts[0].b])
  }

  /** Labels are short, and only the first may be empty unless inner says that it is not the first of its name. */
  predicate Legal(fs: seq<Bytes>, inner: bool) {
    forall i :: 0 <= i < |fs| ==> |fs[i]| < 64 && (i > 0 || inner ==> fs[i] != [])
  }

  /** Counted labels. */
  function Wire(fs: seq<Bytes>): (w: Bytes)
    requires forall i :: 0 <= i < |fs| ==> |fs[i]| < 64
  {
    if fs == [] then [] else Chunk(fs[0]) + Wire(fs[1..])
  }

  /** Counted labels can be told apart. */
  lemma {:induction false} WireInjective(fs: seq<Bytes>, gs: seq<Bytes>)
    requires forall i :: 0 <= i < |fs| ==> |fs[i]| < 64
    requires forall i :: 0 <= i < |gs| ==> |gs[i]| < 64
    requires Wire(fs) == Wire(gs)
    ensures fs == gs
    decreases |fs|
  {
    if fs != [] && gs != [] {
      var w, n := Wire(fs), |fs[0]|;
      assert w[0] == n == |gs[0]|;
      assert w[1..1 + n] == fs[0] == gs[0];
      assert w[1 + n..] == Wire(fs[1..]) == Wire(gs[1..]);
      WireInjective(fs[1..], gs[1..]);
      assert fs == [fs[0]] + fs[1..] && gs == [gs[0]] + gs[1..];
    }
  }

  /** The number of separators. */
  function Separators(ts: seq<Tok>): (n: nat) {
    if ts == [] then 0 else (if IsSep(ts[0]) then 1 else 0) + Separators(ts[1..])
  }

  lemma {:induction false} FieldCount(ts: seq<Tok>, cur: Bytes)
    ensures |Fields(ts, cur)| == Separators(ts)
    decreases |ts|
  {
    if ts != [] {
      FieldCount(ts[1..], if IsSep(ts[0]) then [] else cur + [ts[0].b]);
    }
  }

  /** With room for the whole name, the packer's loop emits the counted labels, or rejects an empty or long one. */
  lemma {:induction false} WalkMeaning(s: Bytes, ts: seq<Tok>, k: nat, begin: nat, off: nat, lenmsg: nat, cmap: CMap)
    requires begin <= k <= |ts| <= |s| && off + (|ts| - begin) <= lenmsg
    requires forall i :: begin <= i < k ==> !IsSep(ts[i])
    requires begin > 0 ==> IsSep(ts[begin - 1])
    ensures var fs := Fields(ts[k..], Values(ts[begin..k]));
            Walk(s, ts, k, begin, off, lenmsg, cmap, false) ==
            if Legal(fs, begin > 0) then End(Wire(fs), |fs|, cmap) else Stop(BadRdata)
    decreases |ts| - k
  {
    hide Chunk, Walk, Fields, Wire, Values;
    var cur := Values(ts[begin..k]);
    if k == |ts| {
      assert ts[k..] == [];
      FieldsNil(cur);
      WalkNothing(s, ts, begin, off, lenmsg, cmap);
    } else {
      assert ts[k..] == [ts[k]] + ts[k + 1..];
      FieldsCons(ts[k], ts[k + 1..], cur);
      if IsSep(ts[k]) {
        var fs := Fields(ts[k + 1..], []);
        ValuesLength(ts[begin..k]);
        NoValues(ts, k + 1);
        LegalCons(cur, fs, begin > 0);
        WalkLabel(s, ts, k, begin, off, lenmsg, cmap);
        WalkMeaning(s, ts, k + 1, k + 1, off + 1 + (k - begin), lenmsg, cmap);
        if Legal([cur] + fs, begin > 0) {
          WireCons(cur, fs);
        }
      } else {
        OneValueMore(ts, begin, k);
        WalkCharacter(s, ts, k, begin, off, lenmsg, cmap);
        WalkMeaning(s, ts, k + 1, begin, off, lenmsg, cmap);
      }
    }
  }

  lemma ValuesLength(ts: seq<Tok>)
    ensures |Values(ts)| == |ts|
  {
  }

  lemma NoValues(ts: seq<Tok>, k: nat)
    requires k <= |ts|
    ensures Values(ts[k..k]) == []
  {
  }

  lemma OneValueMore(ts: seq<Tok>, begin: nat, k: nat)
    requires begin <= k < |ts|
    ensures Values(ts[begin..k + 1]) == Values(ts[begin..k]) + [ts[k].b]
  {
  }

  lemma FieldsNil(cur: Bytes)
    ensures Fields([], cur) == []
  {
  }

  lemma WireCons(f: Bytes, fs: seq<Bytes>)
    requires |f| < 64 && forall i :: 0 <= i < |fs| ==> |fs[i]| < 64
    ensures forall i :: 0 <= i < |[f] + fs| ==> |([f] + fs)[i]| < 64
    ensures Wire([f] + fs) == Chunk(f) + Wire(fs)
  {
    hide Chunk;
    assert ([f] + fs)[1..] == fs;
  }

  lemma WalkNothing(s: Bytes, ts: seq<Tok>, begin: nat, off: nat, lenmsg: nat, cmap: CMap)
    requires begin <= |ts| <= |s|
    ensures Walk(s, ts, |ts|, begin, off, lenmsg, cmap, false) == End([], 0, cmap) && Wire([]) == []
  {
  }

  /** The packer's step at a character of a label, with room. */
  lemma WalkCharacter(s: Bytes, ts: seq<Tok>, k: nat, begin: nat, off: nat, lenmsg: nat, cmap: CMap)
    requires begin <= k < |ts| <= |s| && off + (|ts| - begin) <= lenmsg && !IsSep(ts[k])
    ensures Walk(s, ts, k, begin, off, lenmsg, cmap, false) == Walk(s, ts, k + 1, begin, off, lenmsg, cmap, false)
  {
  }

  lemma LegalCons(cur: Bytes, fs: seq<Bytes>, inner: bool)
    ensures Legal([cur] + fs, inner) <==> |cur| < 64 && (inner ==> cur != []) && Legal(fs, true)
  {
    var all := [cur] + fs;
    assert all[0] == cur;
    if Legal(all, inner) {
      assert forall i :: 0 <= i < |fs| ==> fs[i] == all[i + 1];
    }
  }

  /** The packer's step at a separator, without a map and with room. */
  lemma WalkLabel(s: Bytes, ts: seq<Tok>, k: nat, begin: nat, off: nat, lenmsg: nat, cmap: CMap)
    requires begin <= k < |ts| <= |s| && off + (|ts| - begin) <= lenmsg && IsSep(ts[k])
    requires forall i :: begin <= i < k ==> !IsSep(ts[i])
    requires begin > 0 ==> IsSep(ts[begin - 1])
    ensures Walk(s, ts, k, begin, off, lenmsg, cmap, false) ==
            if (begin > 0 && k == begin) || k - begin >= 64 then Stop(BadRdata)
            else Prepend(Chunk(Values(ts[begin..k])), 1, Walk(s, ts, k + 1, k + 1, off + 1 + (k - begin), lenmsg, cmap, false))
  {
    hide Values, Chunk;
    assert k > 0 && IsSep(ts[k - 1]) <==> begin > 0 && k == begin;
  }

  /** Main result of packing without a map: the labels of the text, counted, and a zero byte. */
  lemma PackMeaning(s: Bytes, off: nat, lenmsg: nat, cmap: CMap)
    requires s != [] && s[|s| - 1] == DOT && off + |s| + 1 <= lenmsg
    ensures var fs := Fields(Tokens(s), []);
            PackName(s, off, lenmsg, cmap, false) ==
            if Legal(fs, false) then Packed(Wire(fs) + (if s == [DOT] then [] else [0]), |fs|, cmap) else Failed(BadRdata)
    ensures var fs := Fields(Tokens(s), []);
            Legal(fs, false) ==> |Wire(fs)| <= |s|
  {
    hide Walk, Chunk, Tokens;
    var ts := Tokens(s);
    var fs := Fields(ts, []);
    assert ts[0..] == ts && Values(ts[0..0]) == [];
    WalkMeaning(s, ts, 0, 0, off, lenmsg, cmap);
    if Legal(fs, false) {
      WireLength(ts, []);
    }
  }

  lemma {:induction false} WireLength(ts: seq<Tok>, cur: Bytes)
    requires forall i :: 0 <= i < |Fields(ts, cur)| ==> |Fields(ts, cur)[i]| < 64
    ensures |Wire(Fields(ts, cur))| <= |cur| + |ts|
    decreases |ts|
  {
    if ts != [] {
      if IsSep(ts[0]) {
        var fs := Fields(ts[1..], []);
        assert Fields(ts, cur)[1..] == fs;
        assert forall i :: 0 <= i < |fs| ==> fs[i] == Fields(ts, cur)[i + 1];
        WireLength(ts[1..], []);
      } else {
        assert Fields(ts, cur) == Fields(ts[1..], cur + [ts[0].b]);
        WireLength(ts[1..], cur + [ts[0].b]);
      }
    }
  }

  // ----- from labels to text -----

  /** One byte of a label as the unpacker prints it. */
  function NameEscape(b: byte): (s: Bytes)
    ensures 1 <= |s| <= 4
  {
    if b in [DOT, '(' as int, ')' as int, ';' as int, ' ' as int, '@' as int, QUOTE, SLASH] then [SLASH, b]
    else if b == TAB then [SLASH, 't' as int]
    else if b == CR then [SLASH, 'r' as int]
    else if b < 32 || b >= 127 then [SLASH] + Ddd(b)
    else [b]
  }

  /** Characters of a label that are returned as they are: visible ASCII without " ( ) . ; @ and the backslash. */
  predicate PlainByte(b: byte) {
    33 <= b <= 126 && b !in {34, 40, 41, 46, 59, 64, 92}
  }

  /** The text of every byte of a label: itself, behind a backslash, or by three decimal digits. */
  lemma EscapeIs(b: byte)
    ensures PlainByte(b) <==> NameEscape(b) == [b]
    ensures b in {32, 34, 40, 41, 46, 59, 64, 92} ==> NameEscape(b) == [92, b]
    ensures b == 9 ==> NameEscape(b) == [92, 116]
    ensures b == 13 ==> NameEscape(b) == [92, 114]
    ensures (b < 32 && b != 9 && b != 13) || b >= 127 ==> NameEscape(b) == [92, 48 + b / 100, 48 + b / 10 % 10, 48 + b % 10]
  {
  }

  function LabelText(l: Bytes): (s: Bytes) {
    if l == [] then [] else NameEscape(l[0]) + LabelText(l[1..])
  }

  function DottedText(ls: seq<Bytes>): (s: Bytes) {
    if ls == [] then [] else LabelText(ls[0]) + [DOT] + DottedText(ls[1..])
  }

  /** The canonical text of a list of labels. */
  function NameOf(ls: seq<Bytes>): (s: Bytes)
    ensures s != []
  {
    if ls == [] then [DOT] else DottedText(ls)
  }

  lemma {:induction false} LabelTextAppend(a: Bytes, b: Bytes)
    ensures LabelText(a + b) == LabelText(a) + LabelText(b)
  {
    hide NameEscape;
    if a == [] {
      assert a + b == b;
    } else {
      LabelTextAppend(a[1..], b);
      assert (a + b)[1..] == a[1..] + b;
      assert NameEscape(a[0]) + (LabelText(a[1..]) + LabelText(b)) == (NameEscape(a[0]) + LabelText(a[1..])) + LabelText(b);
    }
  }

  lemma LabelTextSnoc(a: Bytes, b: byte)
    ensures LabelText(a + [b]) == LabelText(a) + NameEscape(b)
  {
    LabelTextAppend(a, [b]);
    assert LabelText([b]) == NameEscape(b) + LabelText([]) == NameEscape(b);
  }

  lemma {:induction false} DottedTextAppend(a: seq<Bytes>, b: seq<Bytes>)
    ensures DottedText(a + b) == DottedText(a) + DottedText(b)
  {
    hide LabelText, DottedText;
    DottedTextNil();
    if a == [] {
      assert a + b == b;
    } else {
      DottedTextAppend(a[1..], b);
      DottedTextCons(a[0], a[1..]);
      DottedTextCons(a[0], a[1..] + b);
      Arith.Reassociate([a[0]], a[1..], b);
      assert [a[0]] + a[1..] == a;
      Arith.Reassociate(LabelText(a[0]) + [DOT], DottedText(a[1..]), DottedText(b));
    }
  }

  lemma DottedTextNil()
    ensures DottedText([]) == []
  {
  }

  lemma DottedTextCons(l: Bytes, ls: seq<Bytes>)
    ensures DottedText([l] + ls) == LabelText(l) + [DOT] + DottedText(ls)
  {
    hide LabelText;
    assert ([l] + ls)[1..] == ls;
  }

  lemma {:induction false} DottedTextEnd(ls: seq<Bytes>)
    requires ls != []
    ensures DottedText(ls) != [] && DottedText(ls)[|DottedText(ls)| - 1] == DOT
  {
    hide LabelText;
    if |ls| > 1 {
      DottedTextEnd(ls[1..]);
    }
  }

  /** A printed byte is read back as that byte, never as a separator. */
  lemma EscapeRead(b: byte, rest: Bytes)
    ensures exists e :: Tokens(NameEscape(b) + rest) == [Tok(b, e)] + Tokens(rest) && !IsSep(Tok(b, e))
  {
    hide Tokens, Ddd;
    if b in [DOT, '(' as int, ')' as int, ';' as int, ' ' as int, '@' as int, QUOTE, SLASH] {
      TokensQuoted(b, rest);
      assert !IsSep(Tok(b, true));
    } else if b == TAB {
      TokensControl('t' as int, rest);
      assert !IsSep(Tok(b, true));
    } else if b == CR {
      TokensControl('r' as int, rest);
      assert !IsSep(Tok(b, true));
    } else if b < 32 || b >= 127 {
      TokensDdd(b, rest);
      assert !IsSep(Tok(b, true));
    } else {
      TokensPlain(b, rest);
      assert !IsSep(Tok(b, false));
    }
  }

  /** A printed label, its dot and the rest of a name are read back as the label and the rest. */
  lemma {:induction false} LabelRead(l: Bytes, cur: Bytes, rest: Bytes)
    ensures Fields(Tokens(LabelText(l) + [DOT] + rest), cur) == [cur + l] + Fields(Tokens(rest), [])
    decreases |l|
  {
    hide Tokens, NameEscape, Fields;
    if l == [] {
      assert LabelText(l) + [DOT] + rest == [DOT] + rest;
      TokensPlain(DOT, rest);
      FieldsCons(Tok(DOT, false), Tokens(rest), cur);
      assert cur + l == cur;
    } else {
      var text, more := LabelText(l[1..]), LabelText(l[1..]) + [DOT] + rest;
      Arith.Reassociate(NameEscape(l[0]), text, [DOT]);
      Arith.Reassociate(NameEscape(l[0]), text + [DOT], rest);
      assert LabelText(l) == NameEscape(l[0]) + text;
      hide LabelText;
      EscapeRead(l[0], more);
      var e :| Tokens(NameEscape(l[0]) + more) == [Tok(l[0], e)] + Tokens(more) && !IsSep(Tok(l[0], e));
      FieldsCons(Tok(l[0], e), Tokens(more), cur);
      LabelRead(l[1..], cur + [l[0]], rest);
      assert cur + [l[0]] + l[1..] == cur + l;
    }
  }

  lemma FieldsCons(t: Tok, ts: seq<Tok>, cur: Bytes)
    ensures Fields([t] + ts, cur) == if IsSep(t) then [cur] + Fields(ts, []) else Fields(ts, cur + [t.b])
  {
    assert ([t] + ts)[1..] == ts;
  }

  /** Labels survive being printed: the text of any labels, whatever bytes they hold, stands for these labels. */
  lemma {:induction false} TextRead(ls: seq<Bytes>)
    ensures Fields(Tokens(DottedText(ls)), []) == ls
  {
    if ls != [] {
      hide Tokens, LabelText;
      var rest := DottedText(ls[1..]);
      LabelRead(ls[0], [], rest);
      TextRead(ls[1..]);
      assert [] + ls[0] == ls[0];
    }
  }
}
