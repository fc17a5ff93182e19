/** The type bitmap of an NSEC record: the nsec cases of packStructValue and unpackStructValue (msg.go), after section 4.1.2 of RFC 4034. */
module NsecBitmap {
  import Arith
  import opened Bytes
  import W = WireFields

  // ----- bits of a byte -----

  /** 1 << (7 - k) */
  function Weight(k: nat): (w: nat)
    requires k < 8
    ensures w > 0
  {
    [128, 64, 32, 16, 8, 4, 2, 1][k]
  }

  predicate BitOf(b: byte, k: nat)
    requires k < 8
  {
    b / Weight(k) % 2 == 1
  }

  /** b with bit k set. */
  function SetBit(b: byte, k: nat): (r: byte)
    requires k < 8
  {
    OrNeverOverflows(b, k);
    if BitOf(b, k) then b else b + Weight(k)
  }

  /** The byte with the given bits. */
  function FromBits(ds: seq<nat>): (n: nat)
    requires |ds| == 8
  {
    ds[0] * 128 + ds[1] * 64 + ds[2] * 32 + ds[3] * 16 + ds[4] * 8 + ds[5] * 4 + ds[6] * 2 + ds[7]
  }

  function ToBits(b: byte): (ds: seq<nat>)
    ensures |ds| == 8 && forall k :: 0 <= k < 8 ==> ds[k] < 2 && (ds[k] == 1 <==> BitOf(b, k))
  {
    seq(8, k requires 0 <= k < 8 => b / Weight(k) % 2)
  }

  /** Dividing by two again and again. */
  lemma Halves(b: nat)
    ensures b / 4 == b / 2 / 2 && b / 8 == b / 4 / 2 && b / 16 == b / 8 / 2 && b / 32 == b / 16 / 2
    ensures b / 64 == b / 32 / 2 && b / 128 == b / 64 / 2
  {
  }

  lemma Horner(b: nat, q1: nat, q2: nat, q3: nat, q4: nat, q5: nat, q6: nat, q7: nat)
    requires q1 == b / 2 && q2 == q1 / 2 && q3 == q2 / 2 && q4 == q3 / 2 && q5 == q4 / 2 && q6 == q5 / 2 && q7 == q6 / 2
    requires b < 256
    ensures q7 % 2 * 128 + q6 % 2 * 64 + q5 % 2 * 32 + q4 % 2 * 16 + q3 % 2 * 8 + q2 % 2 * 4 + q1 % 2 * 2 + b % 2 == b
  {
  }

  lemma BitsMakeByte(b: byte)
    ensures FromBits(ToBits(b)) == b
  {
    Halves(b);
    BitsAre(b);
    hide ToBits;
    Horner(b, b / 2, b / 4, b / 8, b / 16, b / 32, b / 64, b / 128);
  }

  lemma BitsAre(b: byte)
    ensures var ds := ToBits(b);
            && ds[0] == b / 128 % 2 && ds[1] == b / 64 % 2 && ds[2] == b / 32 % 2 && ds[3] == b / 16 % 2
            && ds[4] == b / 8 % 2 && ds[5] == b / 4 % 2 && ds[6] == b / 2 % 2 && ds[7] == b % 2
  {
  }

  lemma BitsOfValue(ds: seq<nat>, k: nat)
    requires |ds| == 8 && k < 8 && forall i :: 0 <= i < 8 ==> ds[i] < 2
    ensures 0 <= FromBits(ds) < 256
    ensures FromBits(ds) / Weight(k) % 2 == ds[k]
  {
    var n := FromBits(ds);
    if k == 0 {
      Arith.Digit(n, 128, 2, 0, ds[0], ds[1] * 64 + ds[2] * 32 + ds[3] * 16 + ds[4] * 8 + ds[5] * 4 + ds[6] * 2 + ds[7]);
    } else if k == 1 {
      Arith.Digit(n, 64, 2, ds[0], ds[1], ds[2] * 32 + ds[3] * 16 + ds[4] * 8 + ds[5] * 4 + ds[6] * 2 + ds[7]);
    } else if k == 2 {
      Arith.Digit(n, 32, 2, ds[0] * 2 + ds[1], ds[2], ds[3] * 16 + ds[4] * 8 + ds[5] * 4 + ds[6] * 2 + ds[7]);
    } else if k == 3 {
      Arith.Digit(n, 16, 2, ds[0] * 4 + ds[1] * 2 + ds[2], ds[3], ds[4] * 8 + ds[5] * 4 + ds[6] * 2 + ds[7]);
    } else if k == 4 {
      Arith.Digit(n, 8, 2, ds[0] * 8 + ds[1] * 4 + ds[2] * 2 + ds[3], ds[4], ds[5] * 4 + ds[6] * 2 + ds[7]);
    } else if k == 5 {
      Arith.Digit(n, 4, 2, ds[0] * 16 + ds[1] * 8 + ds[2] * 4 + ds[3] * 2 + ds[4], ds[5], ds[6] * 2 + ds[7]);
    } else if k == 6 {
      Arith.Digit(n, 2, 2, ds[0] * 32 + ds[1] * 16 + ds[2] * 8 + ds[3] * 4 + ds[4] * 2 + ds[5], ds[6], ds[7]);
    } else {
      Arith.Digit(n, 1, 2, ds[0] * 64 + ds[1] * 32 + ds[2] * 16 + ds[3] * 8 + ds[4] * 4 + ds[5] * 2 + ds[6], ds[7], 0);
    }
  }

  /** Setting a bit that is not set adds its weight to the value and nothing else. */
  lemma AddWeight(ds: seq<nat>, k: nat)
    requires |ds| == 8 && k < 8 && ds[k] == 0
    ensures FromBits(ds[k := 1]) == FromBits(ds) + Weight(k)
  {
  }

  lemma OrNeverOverflows(b: byte, k: nat)
    requires k < 8
    ensures !BitOf(b, k) ==> b + Weight(k) < 256
  {
    hide FromBits, BitOf, Weight;
    BitsMakeByte(b);
    if !BitOf(b, k) {
      var ds := ToBits(b);
      AddWeight(ds, k);
      BitsOfValue(ds[k := 1], k);
    }
  }

  /** The bits of SetBit: the new one and the old ones. */
  lemma SetBitIs(b: byte, k: nat, j: nat)
    requires k < 8 && j < 8
    ensures BitOf(SetBit(b, k), j) <==> j == k || BitOf(b, j)
  {
    hide FromBits, Weight;
    BitsMakeByte(b);
    var ds := ToBits(b);
    if !BitOf(b, k) {
      AddWeight(ds, k);
      BitsOfValue(ds[k := 1], j);
    }
  }

  lemma NoBitsInZero(k: nat)
    requires k < 8
    ensures !BitOf(0, k)
  {
  }

  // ----- reading -----

  /** The types whose bits are set in b from bit k on; base is the type of bit 0. */
  function ByteTypes(b: byte, base: nat, k: nat): (ts: seq<nat>)
    requires k <= 8
    decreases 8 - k
  {
    if k == 8 then [] else (if BitOf(b, k) then [base + k] else []) + ByteTypes(b, base, k + 1)
  }

  function BlockTypes(bytes: Bytes, base: nat): (ts: seq<nat>) {
    if bytes == [] then [] else ByteTypes(bytes[0], base, 0) + BlockTypes(bytes[1..], base + 8)
  }

  /** OutOfRange is the run-time panic of an index out of range: the loop trusts the record's length. */
  datatype BitmapRead = BadBitmap | OutOfRange | Bitmap(types: seq<nat>, next: nat)

  /** The unpacker's loop over blocks: a window number, a count of octets, and the octets. */
  function ReadBlocks(msg: Bytes, off: nat, lenrd: nat): (r: BitmapRead)
    decreases lenrd - off
  {
    if off + 2 >= lenrd then Bitmap([], off)
    else if off + 2 > |msg| then OutOfRange
    else
      var length := msg[off + 1];
      if length == 0 || length > 32 || off + 2 + length > |msg| then BadBitmap
      else
        match ReadBlocks(msg, off + 2 + length, lenrd)
        case BadBitmap => BadBitmap
        case OutOfRange => OutOfRange
        case Bitmap(ts, next) => Bitmap(BlockTypes(msg[off + 2..off + 2 + length], msg[off] as int * 256) + ts, next)
  }

  function ReadBitmap(msg: Bytes, off: nat, lenrd: nat): (r: BitmapRead) {
    if off == lenrd then Bitmap([], off)
    else if off + 2 > lenrd || off + 2 > |msg| then BadBitmap
    else ReadBlocks(msg, off, lenrd)
  }

  // ----- packing -----

  datatype BitmapPack = Overflow | Panic | Packed(msg: Bytes, next: nat)

  /**
    The packer's loop: window and length are those of the type before, off the start of its block. A new window goes
    behind that block. The last octet of a block that ends where the buffer ends is written out of range.
    */
  function PackTypes(msg: Bytes, off: nat, window: nat, length: nat, ts: seq<W.u16>): (r: BitmapPack)
    decreases |ts|
  {
    if ts == [] then if off + length + 3 > |msg| then Overflow else Packed(msg, off + length + 3)
    else
      var w, l, bit := ts[0] / 256, ts[0] % 256 / 8, ts[0] % 8;
      var at := if window != w then off + length + 3 else off;
      if at > |msg| || at + 2 + l > |msg| then Overflow
      else if at + 2 + l == |msg| then Panic
      else PackTypes(WithType(msg, at, ts[0]), at, w, l, ts[1..])
  }

  /** The block at `at` with one type added: window, count of octets, and the type's bit. */
  function WithType(msg: Bytes, at: nat, t: W.u16): (r: Bytes)
    requires at + 2 + t % 256 / 8 < |msg|
    ensures |r| == |msg|
  {
    var l := t % 256 / 8;
    var m := msg[at := t / 256][at + 1 := l + 1];
    m[at + 2 + l := SetBit(m[at + 2 + l], t % 8)]
  }

  function PackBitmap(msg: Bytes, off: nat, ts: seq<W.u16>): (r: BitmapPack) {
    if ts == [] then Packed(msg, off)
    else if off + 2 > |msg| then Overflow
    else PackTypes(msg, off, 0, 0, ts)
  }

  method PackNsec(ts: seq<W.u16>, msg: array<byte>, off0: nat) returns (r: BitmapPack)
    modifies msg
    ensures r == PackBitmap(old(msg[..]), off0, ts)
    ensures r.Packed? ==> r.msg == msg[..]
    ensures forall x :: 0 <= x < off0 && x < msg.Length ==> msg[x] == old(msg[x])
  {
    hide SetBit, WithType;
    if |ts| == 0 {
      return Packed(msg[..], off0);
    }
    var off: nat := off0;
    if off + 2 > msg.Length {
      return Overflow;
    }
    var lastwindow, length := 0, 0;
    assert ts[0..] == ts;
    for j := 0 to |ts|
      invariant off0 <= off
      invariant PackTypes(old(msg[..]), off0, 0, 0, ts) == PackTypes(msg[..], off, lastwindow, length, ts[j..])
      invariant forall x :: 0 <= x < off0 && x < msg.Length ==> msg[x] == old(msg[x])
    {
      assert ts[j..][0] == ts[j] && ts[j..][1..] == ts[j + 1..];
      var t := ts[j];
      var window := t / 256;
      if lastwindow != window {
        off := off + length + 3;
        if off > msg.Length {
          return Overflow;
        }
      }
      length := (t - window * 256) / 8;
      var bit := t - window * 256 - length * 8;
      LowBits(t);
      if off + 2 + length > msg.Length {
        return Overflow;
      }
      if off + 2 + length == msg.Length {
        return Panic;
      }
      PutType(msg, off, window, length, bit, t);
      lastwindow := window;
    }
    assert ts[|ts|..] == [];
    off := off + 2 + length;
    off := off + 1;
    if off > msg.Length {
      return Overflow;
    }
    r := Packed(msg[..], off);
  }

  method PutType(msg: array<byte>, off: nat, window: nat, length: nat, bit: nat, ghost t: W.u16)
    requires off + 2 + length < msg.Length && window == t / 256 && length == t % 256 / 8 && bit == t % 8
    modifies msg
    ensures msg[..] == WithType(old(msg[..]), off, t)
    ensures forall x :: 0 <= x < off ==> msg[x] == old(msg[x])
  {
    hide SetBit;
    msg[off] := window;
    msg[off + 1] := length + 1;
    msg[off + 2 + length] := SetBit(msg[off + 2 + length], bit);
  }

  lemma LowBits(t: W.u16)
    ensures t - t / 256 * 256 == t % 256 && t / 256 < 256 && t % 256 / 8 < 32
    ensures t % 256 - t % 256 / 8 * 8 == t % 8
  {
  }

  // ----- the unpacker as the source runs it -----

  /** The eight bit tests of one octet. */
  method UnpackOctet(b: byte, base: nat, ts0: seq<nat>) returns (ts: seq<nat>)
    ensures ts == ts0 + ByteTypes(b, base, 0)
  {
    hide BitOf;
    ts := ts0;
    assert ts0 + ByteTypes(b, base, 0) == ts + ByteTypes(b, base, 0);
    for k := 0 to 8
      invariant ts0 + ByteTypes(b, base, 0) == ts + ByteTypes(b, base, k)
    {
      if BitOf(b, k) {
        assert ts + ([base + k] + ByteTypes(b, base, k + 1)) == ts + [base + k] + ByteTypes(b, base, k + 1);
        ts := ts + [base + k];
      } else {
        assert [] + ByteTypes(b, base, k + 1) == ByteTypes(b, base, k + 1);
      }
    }
    assert ts + [] == ts;
  }

  method UnpackOctets(bytes: Bytes, window: nat, ts0: seq<nat>) returns (ts: seq<nat>)
    ensures ts == ts0 + BlockTypes(bytes, window * 256)
  {
    hide ByteTypes;
    ts := ts0;
    assert bytes[0..] == bytes;
    for j := 0 to |bytes|
      invariant ts0 + BlockTypes(bytes, window * 256) == ts + BlockTypes(bytes[j..], window * 256 + j * 8)
    {
      assert bytes[j..][0] == bytes[j] && bytes[j..][1..] == bytes[j + 1..];
      ghost var one, rest := ByteTypes(bytes[j], window * 256 + j * 8, 0), BlockTypes(bytes[j + 1..], window * 256 + (j + 1) * 8);
      assert ts + (one + rest) == ts + one + rest;
      ts := UnpackOctet(bytes[j], window * 256 + j * 8, ts);
    }
    assert bytes[|bytes|..] == [] && ts + [] == ts;
  }

  method UnpackNsec(msg: Bytes, off0: nat, lenrd: nat) returns (r: BitmapRead)
    ensures r == ReadBitmap(msg, off0, lenrd)
  {
    hide BlockTypes;
    var off: nat := off0;
    if off == lenrd {
      return Bitmap([], off);
    }
    if off + 2 > lenrd || off + 2 > |msg| {
      return BadBitmap;
    }
    var nsec: seq<nat> := [];
    while off + 2 < lenrd
      invariant ReadBitmap(msg, off0, lenrd) ==
                match ReadBlocks(msg, off, lenrd)
                case BadBitmap => BadBitmap
                case OutOfRange => OutOfRange
                case Bitmap(more, next) => Bitmap(nsec + more, next)
      decreases lenrd - off
    {
      if off + 2 > |msg| {
        return OutOfRange;
      }
      var window, length := msg[off] as int, msg[off + 1] as int;
      if length == 0 || length > 32 {
        return BadBitmap;
      }
      off := off + 2;
      if off + length > |msg| {
        return BadBitmap;
      }
      ghost var rest := ReadBlocks(msg, off + length, lenrd);
      ghost var one := BlockTypes(msg[off..off + length], window * 256);
      assert rest.Bitmap? ==> nsec + (one + rest.types) == nsec + one + rest.types;
      nsec := UnpackOctets(msg[off..off + length], window, nsec);
      off := off + length;
    }
    assert nsec + [] == nsec;
    r := Bitmap(nsec, off);
  }

  // ----- adding one type to a block -----

  predicate Ascending(ts: seq<nat>) {
    forall i, j :: 0 <= i < j < |ts| ==> ts[i] < ts[j]
  }

  lemma {:induction false} ZeroTypes(base: nat, k: nat)
    requires k <= 8
    ensures ByteTypes(0, base, k) == []
    decreases 8 - k
  {
    hide BitOf;
    if k < 8 {
      NoBitsInZero(k);
      ZeroTypes(base, k + 1);
    }
  }

  lemma {:induction false} ZeroBlock(bytes: Bytes, base: nat)
    requires forall i :: 0 <= i < |bytes| ==> bytes[i] == 0
    ensures BlockTypes(bytes, base) == []
  {
    hide ByteTypes;
    if bytes != [] {
      ZeroTypes(base, 0);
      ZeroBlock(bytes[1..], base + 8);
    }
  }

  /** Every bit that is set is read. */
  lemma {:induction false} BitIsRead(b: byte, base: nat, k: nat, j: nat)
    requires k <= j < 8 && BitOf(b, j)
    ensures base + j in ByteTypes(b, base, k)
    decreases j - k
  {
    hide BitOf;
    if k < j {
      BitIsRead(b, base, k + 1, j);
    }
  }

  /** No bit from k on is set: nothing is read there. */
  lemma {:induction false} NothingRead(b: byte, base: nat, k: nat)
    requires k <= 8 && forall j :: k <= j < 8 ==> !BitOf(b, j)
    ensures ByteTypes(b, base, k) == []
    decreases 8 - k
  {
    hide BitOf;
    if k < 8 {
      NothingRead(b, base, k + 1);
    }
  }

  /** Setting a bit above all others adds its type at the end. */
  lemma {:induction false} SetBitAdds(b: byte, base: nat, k: nat, from: nat)
    requires from <= k < 8 && forall j :: k <= j < 8 ==> !BitOf(b, j)
    ensures ByteTypes(SetBit(b, k), base, from) == ByteTypes(b, base, from) + [base + k]
    decreases k - from
  {
    hide BitOf, SetBit, ByteTypes;
    SetBitIs(b, k, from);
    ByteTypesStep(b, base, from);
    ByteTypesStep(SetBit(b, k), base, from);
    if from == k {
      NothingRead(b, base, k);
      forall j | k < j < 8 ensures !BitOf(SetBit(b, k), j) {
        SetBitIs(b, k, j);
      }
      NothingRead(SetBit(b, k), base, k + 1);
    } else {
      SetBitAdds(b, base, k, from + 1);
      Arith.Reassociate(if BitOf(b, from) then [base + from] else [], ByteTypes(b, base, from + 1), [base + k]);
    }
  }

  lemma ByteTypesStep(b: byte, base: nat, from: nat)
    requires from < 8
    ensures ByteTypes(b, base, from) == (if BitOf(b, from) then [base + from] else []) + ByteTypes(b, base, from + 1)
  {
    hide BitOf;
  }

  /** The types of an octet: its most significant bit stands for the first. */
  lemma ByteTypesAre(b: byte, base: nat)
    ensures ByteTypes(b, base, 0) ==
            (if b / 128 % 2 == 1 then [base] else []) + ((if b / 64 % 2 == 1 then [base + 1] else [])
            + ((if b / 32 % 2 == 1 then [base + 2] else []) + ((if b / 16 % 2 == 1 then [base + 3] else [])
            + ((if b / 8 % 2 == 1 then [base + 4] else []) + ((if b / 4 % 2 == 1 then [base + 5] else [])
            + ((if b / 2 % 2 == 1 then [base + 6] else []) + ((if b % 2 == 1 then [base + 7] else []) + [])))))))
  {
    hide ByteTypes;
    BitsAre(b);
    ByteTypesStep(b, base, 0);
    ByteTypesStep(b, base, 1);
    ByteTypesStep(b, base, 2);
    ByteTypesStep(b, base, 3);
    ByteTypesStep(b, base, 4);
    ByteTypesStep(b, base, 5);
    ByteTypesStep(b, base, 6);
    ByteTypesStep(b, base, 7);
    ByteTypesEnd(b, base);
  }

  lemma ByteTypesEnd(b: byte, base: nat)
    ensures ByteTypes(b, base, 8) == []
  {
  }

  lemma {:induction false} BlockAppend(a: Bytes, b: Bytes, base: nat)
    ensures BlockTypes(a + b, base) == BlockTypes(a, base) + BlockTypes(b, base + 8 * |a|)
  {
    hide ByteTypes;
    if a == [] {
      assert a + b == b;
    } else {
      BlockAppend(a[1..], b, base + 8);
      assert (a + b)[1..] == a[1..] + b;
      Arith.Reassociate(ByteTypes(a[0], base, 0), BlockTypes(a[1..], base + 8), BlockTypes(b, base + 8 * |a|));
    }
  }

  /** Octets with a new last bit: the octets before it are read as before, then the new type. */
  lemma LastBitAdds(octets: Bytes, last: byte, base: nat, k: nat)
    requires k < 8 && forall t :: t in BlockTypes(octets + [last], base) ==> t < base + 8 * |octets| + k
    ensures BlockTypes(octets + [SetBit(last, k)], base) == BlockTypes(octets + [last], base) + [base + 8 * |octets| + k]
  {
    hide ByteTypes, SetBit, BitOf;
    var top := base + 8 * |octets|;
    BlockAppend(octets, [last], base);
    BlockAppend(octets, [SetBit(last, k)], base);
    OneOctet(last, top);
    OneOctet(SetBit(last, k), top);
    forall j | 0 <= j < 8 && BitOf(last, j) ensures j < k {
      BitIsRead(last, top, 0, j);
      assert top + j in BlockTypes(octets + [last], base);
    }
    SetBitAdds(last, top, k, 0);
  }

  lemma OneOctet(b: byte, base: nat)
    ensures BlockTypes([b], base) == ByteTypes(b, base, 0)
  {
    hide ByteTypes;
    assert [b][1..] == [] && BlockTypes([], base + 8) == [];
  }

  // ----- whole bitmaps -----

  /** From s to e, blocks of 1 to 32 octets one behind the other. */
  ghost predicate Tiled(msg: Bytes, s: nat, e: nat)
    decreases e - s
  {
    && s <= e
    && (s == e || (s + 2 < e <= |msg| && 1 <= msg[s + 1] <= 32 && Tiled(msg, s + 2 + msg[s + 1], e)))
  }

  ghost function TypesIn(msg: Bytes, s: nat, e: nat): (ts: seq<nat>)
    requires Tiled(msg, s, e)
    decreases e - s
  {
    if s == e then []
    else
      TiledFits(msg, s + 2 + msg[s + 1], e);
      BlockTypes(msg[s + 2..s + 2 + msg[s + 1]], msg[s] as int * 256) + TypesIn(msg, s + 2 + msg[s + 1], e)
  }

  ghost function Windows(msg: Bytes, s: nat, e: nat): (ws: seq<nat>)
    requires Tiled(msg, s, e)
    decreases e - s
  {
    if s == e then [] else [msg[s] as int] + Windows(msg, s + 2 + msg[s + 1], e)
  }

  lemma TiledFits(msg: Bytes, s: nat, e: nat)
    requires Tiled(msg, s, e)
    ensures s <= e
  {
  }

  lemma TiledStep(msg: Bytes, s: nat, e: nat)
    requires s + 2 < e <= |msg| && 1 <= msg[s + 1] <= 32 && Tiled(msg, s + 2 + msg[s + 1], e)
    ensures Tiled(msg, s, e)
    ensures var next := s + 2 + msg[s + 1];
            && next <= e
            && TypesIn(msg, s, e) == BlockTypes(msg[s + 2..next], msg[s] as int * 256) + TypesIn(msg, next, e)
            && Windows(msg, s, e) == [msg[s] as int] + Windows(msg, next, e)
  {
    hide BlockTypes;
    TiledFits(msg, s + 2 + msg[s + 1], e);
  }

  lemma {:induction false} TiledReads(msg: Bytes, s: nat, e: nat)
    requires Tiled(msg, s, e) && e <= |msg|
    ensures ReadBlocks(msg, s, e) == Bitmap(TypesIn(msg, s, e), e)
    decreases e - s
  {
    hide BlockTypes;
    if s < e {
      var next := s + 2 + msg[s + 1];
      TiledFits(msg, next, e);
      TiledReads(msg, next, e);
    }
  }

  lemma {:induction false} TiledFrame(msg: Bytes, msg': Bytes, s: nat, e: nat)
    requires Tiled(msg, s, e) && |msg'| == |msg| && forall x :: s <= x < e && x < |msg| ==> msg'[x] == msg[x]
    ensures Tiled(msg', s, e) && TypesIn(msg', s, e) == TypesIn(msg, s, e) && Windows(msg', s, e) == Windows(msg, s, e)
    decreases e - s
  {
    hide BlockTypes;
    if s < e {
      assert msg'[s] == msg[s] && msg'[s + 1] == msg[s + 1];
      var next := s + 2 + msg[s + 1];
      TiledFits(msg, next, e);
      TiledFrame(msg, msg', next, e);
      assert msg'[s + 2..next] == msg[s + 2..next];
      TiledStep(msg, s, e);
      TiledStep(msg', s, e);
    }
  }

  /** One more block. */
  lemma {:induction false} TiledAppend(msg: Bytes, s: nat, m: nat, e: nat)
    requires Tiled(msg, s, m) && m + 2 < e <= |msg| && 1 <= msg[m + 1] <= 32 && e == m + 2 + msg[m + 1]
    ensures Tiled(msg, s, e)
    ensures TypesIn(msg, s, e) == TypesIn(msg, s, m) + BlockTypes(msg[m + 2..e], msg[m] as int * 256)
    ensures Windows(msg, s, e) == Windows(msg, s, m) + [msg[m] as int]
    decreases m - s
  {
    hide BlockTypes;
    var last := BlockTypes(msg[m + 2..e], msg[m] as int * 256);
    if s == m {
      assert Tiled(msg, e, e) && TypesIn(msg, e, e) == [] && Windows(msg, e, e) == [];
      assert last + [] == last && [] + last == last;
    } else {
      var next := s + 2 + msg[s + 1];
      TiledFits(msg, next, m);
      TiledAppend(msg, next, m, e);
      var first := BlockTypes(msg[s + 2..next], msg[s] as int * 256);
      assert first + (TypesIn(msg, next, m) + last) == first + TypesIn(msg, next, m) + last;
      assert [msg[s] as int] + (Windows(msg, next, m) + [msg[m] as int]) == [msg[s] as int] + Windows(msg, next, m) + [msg[m] as int];
    }
  }

  /** A bitmap like that of section 4.3 of RFC 4034, octet by octet: A, MX, RRSIG, NSEC and a type of window 4. */
  lemma BitmapExample()
    ensures ReadBlocks([0, 6, 64, 1, 0, 0, 0, 3, 4, 1, 32], 0, 11) == Bitmap([1, 15, 46, 47, 1026], 11)
  {
    hide ReadBlocks, BlockTypes, ByteTypes, Tiled, TypesIn;
    var msg: Bytes := [0, 6, 64, 1, 0, 0, 0, 3, 4, 1, 32];
    assert msg[2..8] == [64, 1, 0, 0, 0, 3] && msg[10..11] == [32];
    TiledNothing(msg, 11);
    TiledStep(msg, 8, 11);
    TiledStep(msg, 0, 11);
    TiledReads(msg, 0, 11);
    ExampleBlocks();
    assert [1, 15, 46, 47] + ([1026] + []) == [1, 15, 46, 47, 1026];
  }

  lemma TiledNothing(msg: Bytes, e: nat)
    ensures Tiled(msg, e, e) && TypesIn(msg, e, e) == []
  {
  }

  lemma ExampleOctets()
    ensures ByteTypes(64, 0, 0) == [1] && ByteTypes(1, 8, 0) == [15] && ByteTypes(3, 40, 0) == [46, 47] && ByteTypes(32, 1024, 0) == [1026]
  {
    hide ByteTypes;
    ByteTypesAre(64, 0);
    ByteTypesAre(1, 8);
    ByteTypesAre(3, 40);
    ByteTypesAre(32, 1024);
  }

  lemma ExampleBlocks()
    ensures BlockTypes([64, 1, 0, 0, 0, 3], 0) == [1, 15, 46, 47] && BlockTypes([32], 1024) == [1026]
  {
    hide ByteTypes, BlockTypes;
    ExampleOctets();
    ZeroTypes(16, 0);
    ZeroTypes(24, 0);
    ZeroTypes(32, 0);
    OneOctet(32, 1024);
    OneOctet(3, 40);
    BlockCons(0, [3], 32);
    BlockCons(0, [0, 3], 24);
    BlockCons(0, [0, 0, 3], 16);
    BlockCons(1, [0, 0, 0, 3], 8);
    BlockCons(64, [1, 0, 0, 0, 3], 0);
    assert [64] + [1, 0, 0, 0, 3] == [64, 1, 0, 0, 0, 3] && [1] + [0, 0, 0, 3] == [1, 0, 0, 0, 3];
    assert [0] + [0, 0, 3] == [0, 0, 0, 3] && [0] + [0, 3] == [0, 0, 3] && [0] + [3] == [0, 3];
    assert [1] + ([15] + ([] + ([] + ([] + [46, 47])))) == [1, 15, 46, 47];
  }

  lemma BlockCons(b: byte, bytes: Bytes, base: nat)
    ensures BlockTypes([b] + bytes, base) == ByteTypes(b, base, 0) + BlockTypes(bytes, base + 8)
  {
    hide ByteTypes;
    assert ([b] + bytes)[1..] == bytes;
  }

  ghost predicate ZeroFrom(msg: Bytes, at: nat) {
    forall x :: at <= x < |msg| ==> msg[x] == 0
  }

  /** Where the packer stands: finished blocks from start to off, and the block at off, whose last octet has index l. */
  ghost predicate Standing(msg: Bytes, start: nat, off: nat, w: nat, l: nat, done: seq<nat>) {
    && start <= off && off + 3 + l <= |msg| && l < 32
    && Tiled(msg, start, off) && msg[off] == w && msg[off + 1] == l + 1
    && done == TypesIn(msg, start, off) + BlockTypes(msg[off + 2..off + 3 + l], w * 256)
    && done != [] && done[|done| - 1] / 256 == w && done[|done| - 1] % 256 / 8 == l
    && ZeroFrom(msg, off + 3 + l)
    && Ascending(Windows(msg, start, off) + [w])
  }

  /** Zero octets behind a block add nothing to it. */
  lemma ZerosBehind(msg: Bytes, from: nat, to: nat, to': nat, base: nat)
    requires from <= to <= to' <= |msg| && ZeroFrom(msg, to)
    ensures BlockTypes(msg[from..to'], base) == BlockTypes(msg[from..to], base)
  {
    hide BlockTypes;
    assert msg[from..to'] == msg[from..to] + msg[to..to'];
    BlockAppend(msg[from..to], msg[to..to'], base);
    ZeroBlock(msg[to..to'], base + 8 * (to - from));
    assert BlockTypes(msg[from..to], base) + [] == BlockTypes(msg[from..to], base);
  }

  /** The block at `at`, with zeros behind it, once a type above all of its own is added. */
  lemma TypeAdded(msg: Bytes, at: nat, t: W.u16, block: seq<nat>)
    requires at + 2 + t % 256 / 8 < |msg|
    requires var l := t % 256 / 8;
             block == BlockTypes(msg[at + 2..at + 3 + l], t / 256 * 256) && forall x :: x in block ==> x < t
    ensures var l := t % 256 / 8;
            BlockTypes(WithType(msg, at, t)[at + 2..at + 3 + l], t / 256 * 256) == block + [t]
  {
    hide BlockTypes, SetBit;
    var l, base := t % 256 / 8, t / 256 * 256;
    var octets, last := msg[at + 2..at + 2 + l], msg[at + 2 + l];
    assert msg[at + 2..at + 3 + l] == octets + [last];
    LowBits(t);
    LastBitAdds(octets, last, base, t % 8);
    assert WithType(msg, at, t)[at + 2..at + 3 + l] == octets + [SetBit(last, t % 8)];
  }

  lemma WithTypeFrame(msg: Bytes, at: nat, t: W.u16)
    requires at + 2 + t % 256 / 8 < |msg|
    ensures var l, msg' := t % 256 / 8, WithType(msg, at, t);
            && msg'[at] == t / 256 && msg'[at + 1] == l + 1
            && (forall x :: 0 <= x < at ==> msg'[x] == msg[x])
            && (forall x :: at + 3 + l <= x < |msg| ==> msg'[x] == msg[x])
  {
    hide SetBit;
  }

  /** The next type falls into the same window. */
  lemma SameWindow(msg: Bytes, start: nat, off: nat, w: nat, l: nat, done: seq<nat>, t: W.u16)
    requires Standing(msg, start, off, w, l, done) && t / 256 == w && Ascending(done + [t])
    requires off + 2 + t % 256 / 8 < |msg|
    ensures Standing(WithType(msg, off, t), start, off, w, t % 256 / 8, done + [t])
  {
    hide BlockTypes, WithType, Tiled, TypesIn, Windows;
    var l', msg' := t % 256 / 8, WithType(msg, off, t);
    var block := BlockTypes(msg[off + 2..off + 3 + l], w * 256);
    LastBelow(done, t);
    LaterOctet(done[|done| - 1], t);
    ZerosBehind(msg, off + 2, off + 3 + l, off + 3 + l', w * 256);
    forall x | x in block ensures x < t {
      assert x in done;
      InBelow(done, t, x);
    }
    TypeAdded(msg, off, t, block);
    WithTypeFrame(msg, off, t);
    TiledFrame(msg, msg', start, off);
    assert TypesIn(msg, start, off) + (block + [t]) == done + [t];
  }

  lemma LaterOctet(a: nat, t: nat)
    requires a < t && a / 256 == t / 256
    ensures a % 256 / 8 <= t % 256 / 8
  {
  }

  lemma LastBelow(done: seq<nat>, t: nat)
    requires done != [] && Ascending(done + [t])
    ensures done[|done| - 1] < t
  {
    assert (done + [t])[|done| - 1] < (done + [t])[|done|];
  }

  lemma InBelow(done: seq<nat>, t: nat, x: nat)
    requires Ascending(done + [t]) && x in done
    ensures x < t
  {
    var i :| 0 <= i < |done| && done[i] == x;
    assert (done + [t])[i] < (done + [t])[|done|];
  }

  /** The next type starts a new window. */
  lemma NewWindow(msg: Bytes, start: nat, off: nat, w: nat, l: nat, done: seq<nat>, t: W.u16)
    requires Standing(msg, start, off, w, l, done) && t / 256 != w && Ascending(done + [t])
    requires off + l + 3 + 2 + t % 256 / 8 < |msg|
    ensures Standing(WithType(msg, off + l + 3, t), start, off + l + 3, t / 256, t % 256 / 8, done + [t])
  {
    hide BlockTypes, WithType, Tiled, TypesIn, Windows;
    var at, l', w' := off + l + 3, t % 256 / 8, t / 256;
    var msg' := WithType(msg, at, t);
    LastBelow(done, t);
    TiledAppend(msg, start, off, at);
    WithTypeFrame(msg, at, t);
    TiledFrame(msg, msg', start, at);
    ZeroBlock(msg[at + 2..at + 3 + l'], w' * 256);
    TypeAdded(msg, at, t, []);
    assert [] + [t] == [t];
    AscendingMore(Windows(msg, start, off), w, w');
  }

  lemma AscendingMore(ws: seq<nat>, w: nat, w': nat)
    requires Ascending(ws + [w]) && w < w'
    ensures Ascending((ws + [w]) + [w'])
  {
    var a := ws + [w];
    forall i | 0 <= i < |a| ensures a[i] < w' {
      assert i < |a| - 1 ==> a[i] < a[|a| - 1];
    }
  }

  lemma FirstWindow(msg: Bytes, start: nat, t: W.u16)
    requires ZeroFrom(msg, start) && t < 256 && start + 2 + t % 256 / 8 < |msg|
    ensures Standing(WithType(msg, start, t), start, start, 0, t % 256 / 8, [t])
  {
    hide BlockTypes, WithType;
    var l := t % 256 / 8;
    WithTypeFrame(msg, start, t);
    ZeroBlock(msg[start + 2..start + 3 + l], 0);
    TypeAdded(msg, start, t, []);
    assert [] + [t] == [t];
  }

  /** What the packer leaves, when it gets through: blocks that hold exactly the types. */
  ghost predicate Holds(msg: Bytes, start: nat, next: nat, ts: seq<nat>) {
    && start <= next <= |msg| && Tiled(msg, start, next)
    && TypesIn(msg, start, next) == ts && Ascending(Windows(msg, start, next))
  }

  lemma AscendingPart(done: seq<nat>, t: nat, rest: seq<nat>)
    requires Ascending(done + ([t] + rest))
    ensures Ascending(done + [t]) && Ascending((done + [t]) + rest)
  {
    var all := done + ([t] + rest);
    assert (done + [t]) + rest == all;
    assert forall i :: 0 <= i <= |done| ==> (done + [t])[i] == all[i];
  }

  lemma {:induction false} PackHolds(msg: Bytes, start: nat, off: nat, w: nat, l: nat, done: seq<nat>, rest: seq<W.u16>)
    requires Standing(msg, start, off, w, l, done) && Ascending(done + rest)
    requires PackTypes(msg, off, w, l, rest).Packed?
    ensures var r := PackTypes(msg, off, w, l, rest); Holds(r.msg, start, r.next, done + rest)
    decreases |rest|
  {
    hide BlockTypes, WithType, Tiled, TypesIn, Windows, Ascending;
    if rest == [] {
      TiledAppend(msg, start, off, off + l + 3);
      assert done + rest == done;
    } else {
      var t := rest[0];
      assert rest == [t] + rest[1..];
      AscendingPart(done, t, rest[1..]);
      assert done + rest == (done + [t]) + rest[1..];
      if t / 256 == w {
        SameWindow(msg, start, off, w, l, done, t);
        PackHolds(WithType(msg, off, t), start, off, w, t % 256 / 8, done + [t], rest[1..]);
      } else {
        NewWindow(msg, start, off, w, l, done, t);
        PackHolds(WithType(msg, off + l + 3, t), start, off + l + 3, t / 256, t % 256 / 8, done + [t], rest[1..]);
      }
    }
  }

  /** The packer never writes before the block it is in. */
  lemma {:induction false} PackKeeps(msg: Bytes, off: nat, w: nat, l: nat, ts: seq<W.u16>, x: nat)
    requires PackTypes(msg, off, w, l, ts).Packed? && x < off && x < |msg|
    ensures var r := PackTypes(msg, off, w, l, ts); |r.msg| == |msg| && r.msg[x] == msg[x] && r.next >= off + 3
    decreases |ts|
  {
    hide WithType;
    if ts != [] {
      var at := if w != ts[0] / 256 then off + l + 3 else off;
      WithTypeFrame(msg, at, ts[0]);
      PackKeeps(WithType(msg, at, ts[0]), at, ts[0] / 256, ts[0] % 256 / 8, ts[1..], x);
    }
  }

  /**
    Main result: strictly ascending types packed into zeroed space are read back, ending where the packer ended,
    exactly when the list is empty or its first type is below 256. Then the blocks have 1 to 32 octets each and their
    windows strictly ascend. Otherwise the packer skips three bytes for an empty first block, and reading fails on it.
    */
  lemma BitmapRoundTrip(msg: Bytes, off: nat, ts: seq<W.u16>)
    requires ZeroFrom(msg, off) && Ascending(ts) && PackBitmap(msg, off, ts).Packed?
    ensures var r := PackBitmap(msg, off, ts);
            && (ReadBitmap(r.msg, off, r.next) == Bitmap(ts, r.next) <==> ts == [] || ts[0] < 256)
            && (ts != [] && ts[0] < 256 ==> Holds(r.msg, off, r.next, ts))
            && (ts != [] && ts[0] >= 256 ==> ReadBitmap(r.msg, off, r.next) == BadBitmap)
  {
    hide BlockTypes, WithType, Tiled, TypesIn, Windows, Ascending;
    if ts != [] {
      var r := PackBitmap(msg, off, ts);
      var l := ts[0] % 256 / 8;
      if ts[0] < 256 {
        FirstWindow(msg, off, ts[0]);
        assert [] + ([ts[0]] + ts[1..]) == ts && [ts[0]] + ts[1..] == ts;
        PackHolds(WithType(msg, off, ts[0]), off, off, 0, l, [ts[0]], ts[1..]);
        TiledReads(r.msg, off, r.next);
        NotEmpty(r.msg, off, r.next, ts);
      } else {
        WithTypeFrame(msg, off + 3, ts[0]);
        PackKeeps(WithType(msg, off + 3, ts[0]), off + 3, ts[0] / 256, l, ts[1..], off + 1);
      }
    }
  }

  /** A bitmap that holds a type is at least three bytes long. */
  lemma NotEmpty(msg: Bytes, off: nat, next: nat, ts: seq<nat>)
    requires Holds(msg, off, next, ts) && ts != []
    ensures off + 2 < next
  {
    hide BlockTypes;
  }

  // ----- room -----

  /** Where the packer ends, given the room. */
  function BitmapEnd(off: nat, window: nat, length: nat, ts: seq<W.u16>): (end: nat)
    decreases |ts|
  {
    if ts == [] then off + length + 3
    else BitmapEnd(if window != ts[0] / 256 then off + length + 3 else off, ts[0] / 256, ts[0] % 256 / 8, ts[1..])
  }

  /** Ascending types fit exactly when the end does. */
  lemma {:induction false} PackFits(msg: Bytes, off: nat, window: nat, length: nat, ts: seq<W.u16>)
    requires Ascending(ts) && (ts != [] && ts[0] / 256 == window ==> length <= ts[0] % 256 / 8)
    ensures BitmapEnd(off, window, length, ts) >= off + length + 3
    ensures var r := PackTypes(msg, off, window, length, ts);
            if BitmapEnd(off, window, length, ts) <= |msg| then r.Packed? && r.next == BitmapEnd(off, window, length, ts)
            else !r.Packed?
    decreases |ts|
  {
    hide WithType;
    if ts != [] {
      var t, rest := ts[0], ts[1..];
      var at := if window != t / 256 then off + length + 3 else off;
      assert forall i :: 0 <= i < |rest| ==> rest[i] == ts[i + 1];
      if rest != [] {
        assert t < rest[0];
        if rest[0] / 256 == t / 256 {
          LaterOctet(t, rest[0]);
        }
      }
      var msg' := if at + 2 + t % 256 / 8 < |msg| then WithType(msg, at, t) else msg;
      PackFits(msg', at, t / 256, t % 256 / 8, rest);
    }
  }
}
