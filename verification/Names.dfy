/**
  Domain names in wire form: packDomainName (msg.go).

  A name is given in presentation form. Tokens (module Bytes) is the simple form of unescaping it; the packer does
  the same by shifting its copy of the name left in place, which PackDomainName models on an array.
  */
module Names {
  import opened Bytes
  import opened Options

  /** Crash is the run-time panic of an index out of range: some writes of the packer are not guarded. */
  datatype PackError = NotFqdn | BadRdata | NoBuffer | Crash

  type CMap = map<Bytes, nat>

  const MAX_OFFSET := 16384

  // ----- specification -----

  predicate IsSep(t: Tok) {
    t == Tok(DOT, false)
  }

  /** The two bytes of a compression pointer: the offset with the top two of its 16 bits flipped. */
  function PointerBytes(p: nat): (s: Bytes)
    ensures |s| == 2
    ensures p < MAX_OFFSET ==> s[0] >= 192 && (s[0] as int - 192) * 256 + s[1] as int == p
  {
    var low := p % 0x1_0000;
    U16((3 - low / 0x4000) * 0x4000 + low % 0x4000)
  }

  datatype Walked =
    | Stop(error: PackError)
    | End(bytes: Bytes, labels: nat, cmap: CMap)
    | Hit(bytes: Bytes, labels: nat, cmap: CMap, pointer: nat)

  /** w with output already produced put in front. */
  function Prepend(bytes: Bytes, n: nat, w: Walked): Walked {
    match w
    case Stop(e) => Stop(e)
    case End(b, m, c) => End(bytes + b, n + m, c)
    case Hit(b, m, c, p) => Hit(bytes + b, n + m, c, p)
  }

  /** The map after a label at off: only offsets a pointer can hold are recorded, and never the root. */
  function Recorded(cmap: CMap, key: Bytes, off: nat, compress: bool): CMap {
    if compress && key != [DOT] && off < MAX_OFFSET then cmap[key := off] else cmap
  }

  function Chunk(text: Bytes): (s: Bytes)
    requires |text| < 64
    ensures |s| == |text| + 1
  {
    [|text|] + text
  }

  /**
    The packer's loop on tokens: k is the next token, begin the first token of the label being read. Compression
    keys are the rest of the name as text, which is what the source uses for names without backslashes.
    */
  function Walk(s: Bytes, ts: seq<Tok>, k: nat, begin: nat, off: nat, lenmsg: nat, cmap: CMap, compress: bool): (w: Walked)
    requires begin <= k <= |ts| <= |s|
    decreases |ts| - k
  {
    if k == |ts| then End([], 0, cmap)
    else if ts[k].escaped && off + 1 > lenmsg then Stop(NoBuffer)
    else if !IsSep(ts[k]) then Walk(s, ts, k + 1, begin, off, lenmsg, cmap, compress)
    else if k > 0 && IsSep(ts[k - 1]) then Stop(BadRdata)
    else if k - begin >= 64 then Stop(BadRdata)
    else if off + 1 + (k - begin) > lenmsg then Stop(NoBuffer)
    else
      var key := s[begin..];
      if compress && key != [DOT] && key in cmap then Hit([], 0, cmap, cmap[key])
      else Prepend(Chunk(Values(ts[begin..k])), 1,
                   Walk(s, ts, k + 1, k + 1, off + 1 + (k - begin), lenmsg, Recorded(cmap, key, off, compress), compress))
  }

  datatype NamePack = Failed(error: PackError) | Packed(bytes: Bytes, labels: nat, cmap: CMap)

  function Finish(s: Bytes, off: nat, lenmsg: nat, w: Walked): (r: NamePack) {
    if w.Stop? then Failed(w.error)
    else if s == [DOT] then Packed(w.bytes, w.labels, w.cmap)
    else if w.Hit? then
      if off + |w.bytes| + 1 >= lenmsg then Failed(Crash)
      else Packed(w.bytes + PointerBytes(w.pointer), w.labels, w.cmap)
    else
      if off + |w.bytes| >= lenmsg then Failed(Crash)
      else Packed(w.bytes + [0], w.labels, w.cmap)
  }

  /** What packing the name s at offset off of a buffer of lenmsg bytes yields. */
  function PackName(s: Bytes, off: nat, lenmsg: nat, cmap: CMap, compress: bool): (r: NamePack) {
    if s == [] then Packed([], 0, cmap)
    else if s[|s| - 1] != DOT then Failed(NotFqdn)
    else Finish(s, off, lenmsg, Walk(s, Tokens(s), 0, 0, off, lenmsg, cmap, compress))
  }

  // ----- the packer as the source runs it -----

  method ShiftLeft(bs: array<byte>, from: nat, ls: nat, step: nat)
    requires from + step <= ls <= bs.Length
    modifies bs
    ensures bs[..from] == old(bs[..from])
    ensures bs[from..ls - step] == old(bs[from + step..ls])
  {
    ghost var was := bs[..];
    for j := from to ls - step
      invariant forall x :: 0 <= x < from || j <= x < bs.Length ==> bs[x] == was[x]
      invariant bs[from..j] == was[from + step..j + step]
    {
      bs[j] := bs[j + step];
      assert bs[from..j + 1] == bs[from..j] + [bs[j]];
      assert was[from + step..j + 1 + step] == was[from + step..j + step] + [was[j + step]];
    }
  }

  /** The escape at i of the first ls0 bytes is resolved: the character stands at i, the text behind it has moved up to it. */
  ghost predicate Resolved(before: Bytes, after: Bytes, i: nat, ls0: nat, ls: nat) {
    && i + 1 < ls0 <= |before| == |after| && before[i] == SLASH && i < ls < ls0
    && after[..i] == before[..i]
    && var (t, n) := Head(before[i..ls0]);
       ls == ls0 - n + 1 && t == Tok(after[i], true) && after[i + 1..ls] == before[i + n..ls0]
  }

  /** The escape at index i is resolved in place; the length in use shrinks. */
  method UnescapeAt(bs: array<byte>, i: nat, ls0: nat) returns (ls: nat)
    requires i + 1 < ls0 <= bs.Length && bs[i] == SLASH
    modifies bs
    ensures Resolved(old(bs[..]), bs[..], i, ls0, ls)
  {
    hide Resolved;
    ghost var before := bs[..];
    ShiftLeft(bs, i, ls0, 1);
    ls := ls0 - 1;
    ghost var shifted := bs[..];
    Dropped(before, shifted, i, ls0);
    if i + 2 < ls && IsDigit(bs[i]) && IsDigit(bs[i + 1]) && IsDigit(bs[i + 2]) {
      bs[i] := DddValue(bs[i], bs[i + 1], bs[i + 2]);
      ghost var valued := bs[..];
      ShiftLeft(bs, i + 1, ls, 2);
      ls := ls - 2;
      ResolvedDdd(before, shifted, valued, bs[..], i, ls0);
    } else {
      bs[i] := Unquote(bs[i]);
      ResolvedQuoted(before, shifted, bs[..], i, ls0);
    }
  }

  /** The backslash at i has been shifted away. */
  ghost predicate SlashGone(before: Bytes, after: Bytes, i: nat, ls0: nat) {
    && i + 1 < ls0 <= |before| == |after| && before[i] == SLASH
    && after[..i] == before[..i] && after[i..ls0 - 1] == before[i + 1..ls0]
  }

  lemma Dropped(before: Bytes, after: Bytes, i: nat, ls0: nat)
    requires i + 1 < ls0 <= |before| == |after| && before[i] == SLASH
    requires after[..i] == before[..i] && after[i..ls0 - 1] == before[i + 1..ls0]
    ensures SlashGone(before, after, i, ls0)
    ensures forall x :: i <= x < ls0 - 1 ==> after[x] == before[i..ls0][x + 1 - i]
  {
    forall x | i <= x < ls0 - 1
      ensures after[x] == before[i..ls0][x + 1 - i]
    {
      assert after[i..ls0 - 1][x - i] == before[i + 1..ls0][x - i];
    }
  }

  lemma ResolvedDdd(before: Bytes, shifted: Bytes, valued: Bytes, after: Bytes, i: nat, ls0: nat)
    requires SlashGone(before, shifted, i, ls0) && i + 3 < ls0 && |after| == |before|
    requires IsDigit(shifted[i]) && IsDigit(shifted[i + 1]) && IsDigit(shifted[i + 2])
    requires valued == shifted[i := DddValue(shifted[i], shifted[i + 1], shifted[i + 2])]
    requires after[..i + 1] == valued[..i + 1] && after[i + 1..ls0 - 3] == valued[i + 3..ls0 - 1]
    ensures Resolved(before, after, i, ls0, ls0 - 3)
  {
    hide Head, DddValue, IsDigit;
    Dropped(before, shifted, i, ls0);
    HeadEscape(before[i..ls0]);
    assert after[..i] == after[..i + 1][..i];
    assert after[i] == after[..i + 1][i];
    assert valued[i + 3..ls0 - 1] == shifted[i..ls0 - 1][3..];
    assert before[i + 4..ls0] == before[i + 1..ls0][3..];
  }

  lemma ResolvedQuoted(before: Bytes, shifted: Bytes, after: Bytes, i: nat, ls0: nat)
    requires SlashGone(before, shifted, i, ls0)
    requires !(i + 3 < ls0 && IsDigit(shifted[i]) && IsDigit(shifted[i + 1]) && IsDigit(shifted[i + 2]))
    requires after == shifted[i := Unquote(shifted[i])]
    ensures Resolved(before, after, i, ls0, ls0 - 1)
  {
    hide Head, Unquote, IsDigit;
    Dropped(before, shifted, i, ls0);
    HeadEscape(before[i..ls0]);
    assert after[i + 1..ls0 - 1] == shifted[i..ls0 - 1][1..];
    assert before[i + 2..ls0] == before[i + 1..ls0][1..];
  }

  /** Writes one counted label, each byte behind its own bounds check. */
  method EmitLabel(bs: array<byte>, begin: nat, i: nat, msg: array<byte>, off0: nat) returns (ok: bool, off: nat)
    requires begin <= i <= bs.Length && i - begin < 64 && off0 <= msg.Length && bs != msg
    modifies msg
    ensures ok <==> off0 + 1 + (i - begin) <= msg.Length
    ensures ok ==> off == off0 + 1 + (i - begin)
    ensures Wrote(old(msg[..]), msg[..], off0, if ok then Chunk(bs[begin..i]) else [])
  {
    off := off0;
    ghost var m := msg[..];
    if off + 1 > msg.Length {
      WroteNothing(m, off0);
      return false, off;
    }
    msg[off] := i - begin;
    off := off + 1;
    for j := begin to i
      invariant off == off0 + 1 + (j - begin) <= msg.Length
      invariant forall x :: 0 <= x < off0 ==> msg[x] == m[x]
      invariant msg[off0] == i - begin
      invariant forall x :: begin <= x < j ==> msg[off0 + 1 + (x - begin)] == bs[x]
    {
      if off + 1 > msg.Length {
        WroteSome(m, msg[..], off0, []);
        return false, off;
      }
      msg[off] := bs[j];
      off := off + 1;
    }
    ok := true;
    WroteSome(m, msg[..], off0, Chunk(bs[begin..i])) by {
      var c := Chunk(bs[begin..i]);
      forall x | 0 <= x < |c|
        ensures msg[off0 + x] == c[x]
      {
        assert x > 0 ==> msg[off0 + 1 + (begin + x - 1 - begin)] == bs[begin + x - 1];
      }
    }
  }

  /** The text in use, from index i on, still stands for the tokens not yet handled; what is before i is handled. */
  ghost predicate InStep(s: Bytes, bs: seq<byte>, i: nat, ls: nat) {
    && i <= ls <= |bs| == |s|
    && i <= |Tokens(s)|
    && bs[..i] == Values(Tokens(s)[..i])
    && Tokens(bs[i..ls]) == Tokens(s)[i..]
    && (i < ls ==> bs[ls - 1] == DOT)
  }

  /** Only a backslash in the name makes an escaped token. */
  lemma {:induction false} EscapedHasSlash(s: Bytes, i: nat)
    requires i < |Tokens(s)| && Tokens(s)[i].escaped
    ensures SLASH in s
    decreases |s|
  {
    var rest := s[Head(s).1..];
    if i > 0 {
      EscapedHasSlash(rest, i - 1);
      assert forall x :: x in rest ==> x in s;
    }
  }

  lemma StepPlain(s: Bytes, bs: seq<byte>, i: nat, ls: nat)
    requires InStep(s, bs, i, ls) && i < ls && bs[i] != SLASH
    ensures i < |Tokens(s)| && Tokens(s)[i] == Tok(bs[i], false)
    ensures InStep(s, bs, i + 1, ls)
  {
    var rest := bs[i..ls];
    assert rest[0] == bs[i] && rest[1..] == bs[i + 1..ls];
    assert Tokens(rest) == [Tok(bs[i], false)] + Tokens(bs[i + 1..ls]);
    NextToken(Tokens(s), i, Tok(bs[i], false), Tokens(bs[i + 1..ls]));
    assert bs[..i + 1] == bs[..i] + [bs[i]];
  }

  lemma StepEscape(s: Bytes, bs: seq<byte>, i: nat, ls: nat, bs': seq<byte>, ls': nat)
    requires InStep(s, bs, i, ls) && Resolved(bs, bs', i, ls, ls')
    ensures i < |Tokens(s)| && Tokens(s)[i] == Tok(bs'[i], true)
    ensures InStep(s, bs', i + 1, ls')
  {
    hide Head, Tokens;
    var rest := bs[i..ls];
    var n := Head(rest).1;
    FirstToken(rest);
    assert rest[n..] == bs[i + n..ls] == bs'[i + 1..ls'];
    NextToken(Tokens(s), i, Tok(bs'[i], true), Tokens(bs'[i + 1..ls']));
    assert bs'[..i + 1] == bs'[..i] + [bs'[i]];
  }

  lemma FirstToken(rest: Bytes)
    requires |rest| >= 2
    ensures Tokens(rest) == [Head(rest).0] + Tokens(rest[Head(rest).1..])
  {
    hide Head;
  }

  lemma NextToken(ts: seq<Tok>, i: nat, t: Tok, more: seq<Tok>)
    requires i <= |ts| && ts[i..] == [t] + more
    ensures i < |ts| && ts[i] == t && ts[i + 1..] == more
    ensures Values(ts[..i + 1]) == Values(ts[..i]) + [t.b]
  {
    assert ts[i] == ts[i..][0] && ts[i + 1..] == ts[i..][1..];
  }

  /** The specification describes the packer's output: compression keys of names with backslashes are not modelled. */
  ghost predicate Exact(s: Bytes, compress: bool) {
    compress ==> SLASH !in s
  }

  /** The loop state against the specification: emitted so far, then Walk from token i. */
  ghost predicate Tracks(s: Bytes, off0: nat, lenmsg: nat, cmap0: CMap, compress: bool,
                         i: nat, begin: nat, done: Bytes, labels: nat, cmap: CMap) {
    && s != [] && s[|s| - 1] == DOT
    && begin <= i <= |Tokens(s)|
    && |done| == begin
    && (Exact(s, compress) ==>
          Walk(s, Tokens(s), 0, 0, off0, lenmsg, cmap0, compress) ==
          Prepend(done, labels, Walk(s, Tokens(s), i, begin, off0 + begin, lenmsg, cmap, compress)))
  }

  lemma PrependTwice(a: Bytes, m: nat, b: Bytes, n: nat, w: Walked)
    ensures Prepend(a, m, Prepend(b, n, w)) == Prepend(a + b, m + n, w)
  {
    match w
    case Stop(_) =>
    case End(c, _, _) => assert a + (b + c) == (a + b) + c;
    case Hit(c, _, _, _) => assert a + (b + c) == (a + b) + c;
  }

  lemma PrependNothing(w: Walked)
    ensures Prepend([], 0, w) == w
  {
  }

  lemma TrackStart(s: Bytes, off0: nat, lenmsg: nat, cmap0: CMap, compress: bool)
    requires s != [] && s[|s| - 1] == DOT
    ensures Tracks(s, off0, lenmsg, cmap0, compress, 0, 0, [], 0, cmap0)
    ensures InStep(s, s, 0, |s|)
  {
    PrependNothing(Walk(s, Tokens(s), 0, 0, off0, lenmsg, cmap0, compress));
    assert s[0..|s|] == s && s[..0] == [] && Values(Tokens(s)[..0]) == [];
  }

  lemma TrackEnd(s: Bytes, off0: nat, lenmsg: nat, cmap0: CMap, compress: bool, bs: seq<byte>,
                 i: nat, begin: nat, done: Bytes, labels: nat, cmap: CMap)
    requires Tracks(s, off0, lenmsg, cmap0, compress, i, begin, done, labels, cmap)
    requires InStep(s, bs, i, i)
    ensures Exact(s, compress) ==> PackName(s, off0, lenmsg, cmap0, compress) == Finish(s, off0, lenmsg, End(done, labels, cmap))
  {
    assert bs[i..i] == [];
    assert Tokens(s)[i..] == [] && i == |Tokens(s)|;
    assert done + [] == done;
  }

  lemma TrackSkip(s: Bytes, off0: nat, lenmsg: nat, cmap0: CMap, compress: bool,
                  i: nat, begin: nat, done: Bytes, labels: nat, cmap: CMap)
    requires Tracks(s, off0, lenmsg, cmap0, compress, i, begin, done, labels, cmap) && i < |Tokens(s)|
    requires !IsSep(Tokens(s)[i])
    ensures Tokens(s)[i].escaped && off0 + begin + 1 > lenmsg && Exact(s, compress) ==>
              PackName(s, off0, lenmsg, cmap0, compress) == Failed(NoBuffer)
    ensures !(Tokens(s)[i].escaped && off0 + begin + 1 > lenmsg) ==>
              Tracks(s, off0, lenmsg, cmap0, compress, i + 1, begin, done, labels, cmap)
  {
    hide Tokens;
  }

  lemma TrackStop(s: Bytes, off0: nat, lenmsg: nat, cmap0: CMap, compress: bool,
                  i: nat, begin: nat, done: Bytes, labels: nat, cmap: CMap)
    requires Tracks(s, off0, lenmsg, cmap0, compress, i, begin, done, labels, cmap) && i < |Tokens(s)|
    requires IsSep(Tokens(s)[i])
    ensures (i > 0 && IsSep(Tokens(s)[i - 1])) || i - begin >= 64 ==> Exact(s, compress) ==>
              PackName(s, off0, lenmsg, cmap0, compress) == Failed(BadRdata)
    ensures !(i > 0 && IsSep(Tokens(s)[i - 1])) && i - begin < 64 && off0 + i + 1 > lenmsg && Exact(s, compress) ==>
              PackName(s, off0, lenmsg, cmap0, compress) == Failed(NoBuffer)
  {
    hide Tokens;
  }

  lemma TrackLabel(s: Bytes, off0: nat, lenmsg: nat, cmap0: CMap, compress: bool,
                   i: nat, begin: nat, done: Bytes, labels: nat, cmap: CMap, roBs: Bytes, cmap': CMap)
    requires Tracks(s, off0, lenmsg, cmap0, compress, i, begin, done, labels, cmap) && i < |Tokens(s)|
    requires IsSep(Tokens(s)[i]) && !(i > 0 && IsSep(Tokens(s)[i - 1])) && i - begin < 64 && off0 + i + 1 <= lenmsg
    requires |roBs| == |s| && (SLASH !in s ==> roBs == s)
    ensures begin <= |s|
    ensures var key := roBs[begin..];
            if compress && key != [DOT] && key in cmap then
              Exact(s, compress) ==> PackName(s, off0, lenmsg, cmap0, compress) == Finish(s, off0, lenmsg, Hit(done, labels, cmap, cmap[key]))
            else
              cmap' == Recorded(cmap, key, off0 + begin, compress) ==>
                Tracks(s, off0, lenmsg, cmap0, compress, i + 1, i + 1, done + Chunk(Values(Tokens(s)[begin..i])), labels + 1, cmap')
  {
    hide Tokens, Chunk, IsSep, Walk, Recorded;
    var key := s[begin..];
    var more := Recorded(cmap, key, off0 + begin, compress);
    var text := Values(Tokens(s)[begin..i]);
    ChunkSize(text);
    NotRecorded(cmap, key, off0 + begin);
    NotRecorded(cmap, roBs[begin..], off0 + begin);
    WalkAtSep(s, Tokens(s), i, begin, off0 + begin, lenmsg, cmap, compress);
    if Exact(s, compress) && !(compress && key != [DOT] && key in cmap) {
      PrependTwice(done, labels, Chunk(text), 1, Walk(s, Tokens(s), i + 1, i + 1, off0 + i + 1, lenmsg, more, compress));
    } else if Exact(s, compress) {
      PrependHit(done, labels, cmap, cmap[key]);
    }
  }

  lemma ChunkSize(text: Bytes)
    requires |text| < 64
    ensures |Chunk(text)| == |text| + 1
  {
  }

  lemma NotRecorded(cmap: CMap, key: Bytes, off: nat)
    ensures Recorded(cmap, key, off, false) == cmap
  {
  }

  lemma PrependHit(done: Bytes, labels: nat, cmap: CMap, p: nat)
    ensures Prepend(done, labels, Hit([], 0, cmap, p)) == Hit(done, labels, cmap, p)
  {
    assert done + [] == done;
  }

  /** The packer's loop at a separator that ends a label, with room for it. */
  lemma WalkAtSep(s: Bytes, ts: seq<Tok>, k: nat, begin: nat, off: nat, lenmsg: nat, cmap: CMap, compress: bool)
    requires begin <= k < |ts| <= |s| && IsSep(ts[k]) && !(k > 0 && IsSep(ts[k - 1])) && k - begin < 64
    requires off + 1 + (k - begin) <= lenmsg
    ensures var key := s[begin..];
            Walk(s, ts, k, begin, off, lenmsg, cmap, compress) ==
            if compress && key != [DOT] && key in cmap then Hit([], 0, cmap, cmap[key])
            else Prepend(Chunk(Values(ts[begin..k])), 1,
                         Walk(s, ts, k + 1, k + 1, off + 1 + (k - begin), lenmsg, Recorded(cmap, key, off, compress), compress))
  {
    hide Chunk, Values, Recorded;
  }

  lemma HandledLabel(s: Bytes, bs: seq<byte>, begin: nat, i: nat, ls: nat)
    requires InStep(s, bs, i, ls) && begin <= i
    ensures bs[begin..i] == Values(Tokens(s)[begin..i])
  {
    assert bs[begin..i] == bs[..i][begin..];
    assert Values(Tokens(s)[..i])[begin..] == Values(Tokens(s)[begin..i]);
  }

  lemma SlashNotLast(s: Bytes, bs: seq<byte>, i: nat, ls: nat)
    requires InStep(s, bs, i, ls) && i < ls && bs[i] == SLASH
    ensures i + 1 < ls
  {
  }

  /** The packer's test for two separators in a row, on bytes and on tokens. */
  lemma PreviousDot(s: Bytes, bs: seq<byte>, i: nat, ls: nat)
    requires InStep(s, bs, i, ls) && 0 < i
    ensures IsSep(Tokens(s)[i - 1]) <==> bs[i - 1] == DOT && Tokens(s)[i - 1] != Tok(DOT, true)
  {
    assert bs[i - 1] == bs[..i][i - 1] == Values(Tokens(s)[..i])[i - 1];
  }

  /** A label has ended at index i: write it, then look its name up in the map or record it there. */
  method PackLabel(bs: array<byte>, begin: nat, i: nat, roBs: Bytes, msg: array<byte>, off0: nat, cmap0: CMap, compress: bool)
    returns (ok: bool, off: nat, pointer: Option<nat>, cmap: CMap)
    requires begin <= i <= bs.Length && i - begin < 64 && begin <= |roBs| && off0 <= msg.Length && bs != msg
    modifies msg
    ensures ok <==> off0 + 1 + (i - begin) <= msg.Length
    ensures ok ==> off == off0 + 1 + (i - begin)
    ensures Wrote(old(msg[..]), msg[..], off0, if ok then Chunk(bs[begin..i]) else [])
    ensures !ok ==> pointer == None
    ensures ok ==> if compress && roBs[begin..] != [DOT] && roBs[begin..] in cmap0
                   then pointer == Some(cmap0[roBs[begin..]]) && cmap == cmap0
                   else pointer == None && cmap == Recorded(cmap0, roBs[begin..], off0, compress)
  {
    hide Wrote, Chunk;
    pointer, cmap := None, cmap0;
    ok, off := EmitLabel(bs, begin, i, msg, off0);
    if ok && compress && roBs[begin..] != [DOT] {
      var key := roBs[begin..];
      if key !in cmap {
        // Only offsets a 14-bit pointer can hold are recorded.
        if off0 < MAX_OFFSET {
          cmap := cmap[key := off0];
        }
      } else {
        pointer := Some(cmap[key]);
      }
    }
  }

  /** What the packer's loop leaves behind, for names handled exactly. */
  ghost predicate LoopResult(s: Bytes, off0: nat, lenmsg: nat, cmap0: CMap, compress: bool,
                             done: Bytes, labels: nat, cmap: CMap, pointer: Option<nat>, err: Option<PackError>) {
    Exact(s, compress) ==>
      PackName(s, off0, lenmsg, cmap0, compress) ==
      match err
      case Some(e) => Failed(e)
      case None => Finish(s, off0, lenmsg, if pointer.None? then End(done, labels, cmap) else Hit(done, labels, cmap, pointer.value))
  }

  /** The loop invariant of the packer, over the values of its variables: m is the buffer the packer was given. */
  ghost predicate LoopState(s: Bytes, bs: Bytes, m: Bytes, msg: Bytes, off0: nat, cmap0: CMap, compress: bool,
                            i: nat, begin: nat, ls: nat, off: nat, done: Bytes, labels: nat, cmap: CMap,
                            roBs: Bytes, bsFresh: bool, escapedDot: bool) {
    && begin <= i <= ls <= |s| && i <= |Tokens(s)|
    && InStep(s, bs, i, ls)
    && |done| == begin && off == off0 + begin <= |msg|
    && |roBs| == |s| && (SLASH !in s ==> bsFresh && roBs == s)
    && (escapedDot <==> i > 0 && Tokens(s)[i - 1] == Tok(DOT, true))
    && Wrote(m, msg, off0, done)
    && Tracks(s, off0, |msg|, cmap0, compress, i, begin, done, labels, cmap)
  }

  /** The branch of the packer's loop for a backslash at index i. */
  method AtBackslash(s: Bytes, bs: array<byte>, i: nat, ls0: nat, msg: array<byte>, off: nat,
                     ghost off0: nat, ghost cmap0: CMap, ghost compress: bool, ghost m: Bytes, ghost begin: nat, ghost done: Bytes,
                     ghost labels: nat, ghost cmap: CMap, ghost roBs: Bytes, ghost bsFresh: bool, ghost escapedDot0: bool)
    returns (ls: nat, escapedDot: bool, ok: bool)
    requires LoopState(s, bs[..], m, msg[..], off0, cmap0, compress, i, begin, ls0, off, done, labels, cmap, roBs, bsFresh, escapedDot0)
    requires i < ls0 && bs.Length == |s| && bs[i] == SLASH && bs != msg
    modifies bs
    ensures ok ==> i < ls < ls0
    ensures ok ==>
              LoopState(s, bs[..], m, msg[..], off0, cmap0, compress, i + 1, begin, ls, off, done, labels, cmap, roBs, false, escapedDot)
    ensures !ok ==> off0 + |s| > msg.Length && (Exact(s, compress) ==> PackName(s, off0, msg.Length, cmap0, compress) == Failed(NoBuffer))
  {
    hide InStep, Tracks, Wrote, PackName, Tokens, Exact;
    ghost var before := bs[..];
    SlashNotLast(s, before, i, ls0);
    assert bs[i..ls0] == before[i..ls0];
    ls := UnescapeAt(bs, i, ls0);
    StepEscape(s, before, i, ls0, bs[..], ls);
    EscapedHasSlash(s, i);
    TrackSkip(s, off0, msg.Length, cmap0, compress, i, begin, done, labels, cmap);
    ok := off + 1 <= msg.Length;
    escapedDot := bs[i] == DOT;
  }

  lemma AtPlain(s: Bytes, bs: Bytes, m: Bytes, msg: Bytes, off0: nat, cmap0: CMap, compress: bool,
                i: nat, begin: nat, ls: nat, off: nat, done: Bytes, labels: nat, cmap: CMap,
                roBs: Bytes, bsFresh: bool, escapedDot: bool)
    requires LoopState(s, bs, m, msg, off0, cmap0, compress, i, begin, ls, off, done, labels, cmap, roBs, bsFresh, escapedDot)
    requires i < ls && |bs| == |s| && bs[i] != SLASH && bs[i] != DOT
    ensures LoopState(s, bs, m, msg, off0, cmap0, compress, i + 1, begin, ls, off, done, labels, cmap, roBs, bsFresh, false)
  {
    hide InStep, Tracks, Wrote, PackName, Tokens, Exact;
    StepPlain(s, bs, i, ls);
    TrackSkip(s, off0, |msg|, cmap0, compress, i, begin, done, labels, cmap);
  }

  /** The branch of the packer's loop for a dot at index i. */
  method AtDot(s: Bytes, bs: array<byte>, i: nat, begin: nat, escapedDot: bool, roBs: Bytes, bsFresh: bool, msg: array<byte>, off0: nat,
               cmap0: CMap, compress: bool,
               ghost ls: nat, ghost start: nat, ghost startmap: CMap, ghost labels: nat, ghost m: Bytes, ghost done: Bytes)
    returns (off: nat, pointer: Option<nat>, cmap: CMap, err: Option<PackError>, ghost done': Bytes)
    requires LoopState(s, bs[..], m, msg[..], start, startmap, compress, i, begin, ls, off0, done, labels, cmap0, roBs, bsFresh, escapedDot)
    requires i < ls && bs.Length == |s| && bs[i] == DOT && bs != msg
    modifies msg
    ensures Wrote(m, msg[..], start, done')
    ensures err.Some? ==> pointer.None?
    ensures err == None || err == Some(BadRdata) || (err == Some(NoBuffer) && start + |s| > msg.Length)
    ensures pointer.Some? ==> s != [DOT]
    ensures err.Some? || pointer.Some? ==> done' == done && LoopResult(s, start, msg.Length, startmap, compress, done, labels, cmap, pointer, err)
    ensures err.None? && pointer.None? ==>
              LoopState(s, bs[..], m, msg[..], start, startmap, compress, i + 1, i + 1, ls, off, done', labels + 1, cmap, roBs, bsFresh, false)
  {
    hide InStep, Walk, Tokens, Values, Prepend, Recorded, PackName, Chunk, Finish, Wrote;
    off, pointer, cmap, err, done' := off0, None, cmap0, None, done;
    StepPlain(s, bs[..], i, ls);
    if i > 0 {
      PreviousDot(s, bs[..], i, ls);
    }
    TrackStop(s, start, msg.Length, startmap, compress, i, begin, done, labels, cmap0);
    if (i > 0 && bs[i - 1] == DOT && !escapedDot) || i - begin >= 64 {
      err := Some(BadRdata);
      return;
    }
    HandledLabel(s, bs[..], begin, i, ls);
    assert bs[begin..i] == bs[..][begin..i];
    var ok;
    ghost var m1, chunk := msg[..], Chunk(bs[begin..i]);
    ok, off, pointer, cmap := PackLabel(bs, begin, i, roBs, msg, off0, cmap0, compress);
    WroteMore(m, m1, msg[..], start, done, if ok then chunk else []);
    assert done + [] == done;
    if !ok {
      err := Some(NoBuffer);
      return;
    }
    TrackLabel(s, start, msg.Length, startmap, compress, i, begin, done, labels, cmap0, roBs, cmap);
    if pointer.None? {
      done' := done + chunk;
    } else {
      WroteLess(m, msg[..], start, done, chunk);
    }
  }

  lemma WroteLess(m: Bytes, m': Bytes, off: nat, a: Bytes, b: Bytes)
    requires Wrote(m, m', off, a + b)
    ensures Wrote(m, m', off, a)
  {
    assert m'[off..off + |a|] == m'[off..off + |a + b|][..|a|];
  }

  /** The packer's loop. */
  method PackLabels(s: Bytes, bs: array<byte>, msg: array<byte>, off0: nat, cmap0: CMap, compress: bool)
    returns (off: nat, labels: nat, cmap: CMap, nameoffset: nat, pointer: Option<nat>, err: Option<PackError>, ghost done: Bytes)
    requires s != [] && s[|s| - 1] == DOT && bs[..] == s && off0 <= msg.Length && bs != msg
    modifies msg, bs
    ensures Wrote(old(msg[..]), msg[..], off0, done)
    ensures err.None? ==> |done| <= |s| - (if pointer.None? then 0 else 1)
    ensures err.None? ==> off0 + |done| == (if pointer.None? then off else nameoffset)
    ensures off0 + |s| <= msg.Length ==> err != Some(NoBuffer) && err != Some(Crash)
    ensures s == [DOT] ==> pointer.None?
    ensures LoopResult(s, off0, msg.Length, cmap0, compress, done, labels, cmap, pointer, err)
  {
    hide InStep, Tracks, Tokens, PackName, Finish, Wrote, Exact;
    off, labels, cmap, nameoffset, pointer, err, done := off0, 0, cmap0, off0, None, None, [];
    var ls: nat := |s|;
    ghost var m := msg[..];
    var begin, i := 0, 0;
    var roBs, bsFresh, escapedDot := s, true, false;
    LoopStart(s, m, off0, cmap0, compress);
    while i < ls
      invariant bs.Length == |s| && pointer == None && err == None && i <= ls <= |s|
      invariant LoopState(s, bs[..], m, msg[..], off0, cmap0, compress, i, begin, ls, off, done, labels, cmap, roBs, bsFresh, escapedDot)
      decreases ls - i
    {
      if bs[i] == SLASH {
        var ok;
        ls, escapedDot, ok := AtBackslash(s, bs, i, ls, msg, off, off0, cmap0, compress, m, begin, done, labels, cmap, roBs, bsFresh, escapedDot);
        if !ok {
          err := Some(NoBuffer);
          NoRoomResult(s, off0, msg.Length, cmap0, compress, done, labels, cmap);
          return;
        }
        bsFresh := false;
      } else if bs[i] == DOT {
        if compress && !bsFresh {
          roBs := bs[..];
          bsFresh := true;
        }
        nameoffset := off;
        off, pointer, cmap, err, done := AtDot(s, bs, i, begin, escapedDot, roBs, bsFresh, msg, off, cmap, compress,
                                               ls, off0, cmap0, labels, m, done);
        if err.Some? || pointer.Some? {
          return;
        }
        escapedDot, labels, begin := false, labels + 1, i + 1;
      } else {
        AtPlain(s, bs[..], m, msg[..], off0, cmap0, compress, i, begin, ls, off, done, labels, cmap, roBs, bsFresh, escapedDot);
        escapedDot := false;
      }
      i := i + 1;
    }
    LoopEnd(s, bs[..], m, msg[..], off0, cmap0, compress, i, begin, off, done, labels, cmap, roBs, bsFresh, escapedDot);
  }

  lemma LoopStart(s: Bytes, m: Bytes, off0: nat, cmap0: CMap, compress: bool)
    requires s != [] && s[|s| - 1] == DOT && off0 <= |m|
    ensures LoopState(s, s, m, m, off0, cmap0, compress, 0, 0, |s|, off0, [], 0, cmap0, s, true, false)
  {
    hide InStep, Tracks, Tokens, Wrote;
    TrackStart(s, off0, |m|, cmap0, compress);
    WroteNothing(m, off0);
  }

  lemma NoRoomResult(s: Bytes, off0: nat, lenmsg: nat, cmap0: CMap, compress: bool, done: Bytes, labels: nat, cmap: CMap)
    requires Exact(s, compress) ==> PackName(s, off0, lenmsg, cmap0, compress) == Failed(NoBuffer)
    ensures LoopResult(s, off0, lenmsg, cmap0, compress, done, labels, cmap, None, Some(NoBuffer))
  {
    hide PackName, Exact;
  }

  lemma LoopEnd(s: Bytes, bs: Bytes, m: Bytes, msg: Bytes, off0: nat, cmap0: CMap, compress: bool,
                i: nat, begin: nat, off: nat, done: Bytes, labels: nat, cmap: CMap, roBs: Bytes, bsFresh: bool, escapedDot: bool)
    requires LoopState(s, bs, m, msg, off0, cmap0, compress, i, begin, i, off, done, labels, cmap, roBs, bsFresh, escapedDot)
    ensures LoopResult(s, off0, |msg|, cmap0, compress, done, labels, cmap, None, None)
    ensures Wrote(m, msg, off0, done) && |done| <= |s| && off == off0 + |done|
  {
    hide InStep, Tracks, PackName, Finish, Wrote, Exact, Tokens;
    TrackEnd(s, off0, |msg|, cmap0, compress, bs, i, begin, done, labels, cmap);
  }

  method PackDomainName(s: Bytes, msg: array<byte>, off0: nat, cmap0: CMap, compress: bool)
    returns (off: nat, labels: nat, cmap: CMap, err: Option<PackError>, ghost bytes: Bytes)
    requires off0 <= msg.Length
    modifies msg
    ensures Wrote(old(msg[..]), msg[..], off0, bytes)
    ensures err.None? ==> off == off0 + |bytes| && |bytes| <= |s| + 1
    ensures err.Some? ==> off == msg.Length
    ensures off0 + |s| + 1 <= msg.Length ==> err != Some(NoBuffer) && err != Some(Crash)
    ensures Exact(s, compress) ==>
              PackName(s, off0, msg.Length, cmap0, compress) ==
              match err case None => Packed(bytes, labels, cmap) case Some(e) => Failed(e)
  {
    off, labels, cmap, err, bytes := off0, 0, cmap0, None, [];
    WroteNothing(msg[..], off0);
    if |s| == 0 {
      return;
    }
    if s[|s| - 1] != DOT {
      return msg.Length, 0, cmap0, Some(NotFqdn), [];
    }
    off, labels, cmap, err, bytes := PackFqdn(s, msg, off0, cmap0, compress);
  }

  /** The packer on a name with its closing dot. */
  method PackFqdn(s: Bytes, msg: array<byte>, off0: nat, cmap0: CMap, compress: bool)
    returns (off: nat, labels: nat, cmap: CMap, err: Option<PackError>, ghost bytes: Bytes)
    requires off0 <= msg.Length && s != [] && s[|s| - 1] == DOT
    modifies msg
    ensures Wrote(old(msg[..]), msg[..], off0, bytes)
    ensures err.None? ==> off == off0 + |bytes| && |bytes| <= |s| + 1
    ensures err.Some? ==> off == msg.Length
    ensures off0 + |s| + 1 <= msg.Length ==> err != Some(NoBuffer) && err != Some(Crash)
    ensures Exact(s, compress) ==>
              PackName(s, off0, msg.Length, cmap0, compress) ==
              match err case None => Packed(bytes, labels, cmap) case Some(e) => Failed(e)
  {
    var bs := Copied(s);
    hide PackName, PointerBytes, Finish, Wrote, Exact;
    var nameoffset, pointer;
    ghost var m := msg[..];
    off, labels, cmap, nameoffset, pointer, err, bytes := PackLabels(s, bs, msg, off0, cmap0, compress);
    if err.Some? {
      off := msg.Length;
      return;
    }
    FinishIs(s, off0, msg.Length, bytes, labels, cmap, pointer);
    if s == [DOT] {
      return; // Root label is special.
    }
    // The pointer goes where the label it replaces was written; these writes are not guarded in the source.
    ghost var m1 := msg[..];
    assert off0 + |bytes| <= |m1| by { WroteFits(m, m1, off0, bytes); }
    var word := if pointer.Some? then PointerBytes(pointer.value) else [0];
    var at := if pointer.Some? then nameoffset else off;
    var fits := PutWord(msg, at, word);
    WroteMore(m, m1, msg[..], off0, bytes, if fits then word else []);
    assert bytes + [] == bytes;
    if fits {
      off, bytes := at + |word|, bytes + word;
    } else {
      off, err := msg.Length, Some(Crash);
    }
  }

  method Copied(s: Bytes) returns (bs: array<byte>)
    ensures fresh(bs) && bs[..] == s
  {
    bs := new byte[|s|](x requires 0 <= x < |s| => s[x]);
    assert bs[..] == s;
  }

  /** Stores one or two bytes at off, unless that is out of range. */
  method PutWord(msg: array<byte>, off: nat, word: Bytes) returns (fits: bool)
    requires 1 <= |word| <= 2 && off <= msg.Length
    modifies msg
    ensures fits <==> off + |word| <= msg.Length
    ensures Wrote(old(msg[..]), msg[..], off, if fits then word else [])
  {
    ghost var m := msg[..];
    fits := off + |word| <= msg.Length;
    if fits {
      msg[off] := word[0];
      if |word| == 2 {
        msg[off + 1] := word[1];
      }
    }
    WroteSome(m, msg[..], off, if fits then word else []);
  }

  lemma FinishIs(s: Bytes, off: nat, lenmsg: nat, done: Bytes, labels: nat, cmap: CMap, pointer: Option<nat>)
    ensures Finish(s, off, lenmsg, if pointer.None? then End(done, labels, cmap) else Hit(done, labels, cmap, pointer.value)) ==
            if s == [DOT] then Packed(done, labels, cmap)
            else if pointer.Some? then
              if off + |done| + 1 >= lenmsg then Failed(Crash) else Packed(done + PointerBytes(pointer.value), labels, cmap)
            else
              if off + |done| >= lenmsg then Failed(Crash) else Packed(done + [0], labels, cmap)
  {
    hide PointerBytes;
  }
}
