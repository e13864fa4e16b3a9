/** What tuples and pages are byte by byte, and what is read from any bytes: the file format. */
module Layouts {
  import opened Options
  import opened Bytes
  import opened Buffers
  import opened Schema
  import opened TupleCodec
  import F = Fields
  import N = NodeCodec
  import H = HeapPage

  // ---------------------------------------------------------------- integers in a buffer

  lemma {:induction false} SignedAt(buf: seq<byte>, at: nat, w: nat, v: int)
    requires Fits(v, Pow256(w))
    ensures F.Holds(buf, at, Signed(v, w)) <==> BigEndian(buf, at, w, v)
  {
    SignedDigits(v, w);
    var s := Signed(v, w);
    assert forall i :: 0 <= i < w ==> s[i] == Digit(v, w, i);
    hide Signed, Digit;
    if at + w <= |buf| {
      var x := buf[at..at + w];
      assert forall i :: 0 <= i < w ==> x[i] == buf[at + i];
      assert BigEndian(buf, at, w, v) ==> x == s;
    }
  }

  lemma {:induction false} NaturalAt(buf: seq<byte>, at: nat, w: nat, v: nat)
    ensures F.Holds(buf, at, ToBE(v, w)) <==> BigEndian(buf, at, w, v)
  {
    var s := ToBE(v, w);
    forall i | 0 <= i < w ensures s[i] == Digit(v, w, i) {
      BEDigit(v, w, i);
    }
    hide ToBE, Digit;
    if at + w <= |buf| {
      var x := buf[at..at + w];
      assert forall i :: 0 <= i < w ==> x[i] == buf[at + i];
      assert BigEndian(buf, at, w, v) ==> x == s;
    }
  }

  /** The bytes of a two's-complement integer are those of the integer they are read as. */
  lemma {:induction false} UnsignedIs(s: seq<byte>, v: int)
    ensures Fits(Unsigned(s), Pow256(|s|))
    ensures Unsigned(s) == v <==> Fits(v, Pow256(|s|)) && s == Signed(v, |s|)
  {
    ToFrom(s);
    if Fits(v, Pow256(|s|)) {
      SignedRoundTrip(v, |s|);
    }
  }

  // ---------------------------------------------------------------- tuples

  /** Bytes a value takes in the fixed part, and behind it. */
  function Space(v: Value): nat {
    match v
    case TinyIntV(_) => 1
    case BoolV(_) => 1
    case IntV(_) => 4
    case BigIntV(_) => 8
    case VarcharV(_) => 4
  }

  function StringSpace(v: Value): nat {
    if v.VarcharV? then |v.s| else 0
  }

  function FixedSize(vs: seq<Value>): nat {
    if |vs| == 0 then 0 else Space(vs[0]) + FixedSize(vs[1..])
  }

  function StringSize(vs: seq<Value>): nat {
    if |vs| == 0 then 0 else StringSpace(vs[0]) + StringSize(vs[1..])
  }

  /** The value at offset `at`: an integer, 0 or 1 for a bool, or the offset and length of a string, which lies at `data`. */
  ghost predicate Laid(buf: seq<byte>, at: nat, v: Value, data: nat) {
    match v
    case TinyIntV(i) => BigEndian(buf, at, 1, i)
    case BoolV(b) => BigEndian(buf, at, 1, if b then 1 else 0)
    case IntV(i) => BigEndian(buf, at, 4, i)
    case BigIntV(i) => BigEndian(buf, at, 8, i)
    case VarcharV(s) => BigEndian(buf, at, 2, data) && BigEndian(buf, at + 2, 2, |s|) && F.Holds(buf, data, s)
  }

  lemma {:induction false} FieldSizes(v: Value)
    requires Proper(v)
    ensures F.Width(FieldOf(v)) == Space(v) && |F.DataOf(FieldOf(v))| == StringSpace(v)
  {
  }

  lemma {:induction false} SizesMatch(fs: seq<F.Field>, vs: seq<Value>)
    requires |fs| == |vs|
    requires forall i :: 0 <= i < |fs| ==> F.Width(fs[i]) == Space(vs[i]) && |F.DataOf(fs[i])| == StringSpace(vs[i])
    ensures F.WidthOf(fs) == FixedSize(vs) && |F.AllData(fs)| == StringSize(vs)
  {
    hide F.Width, F.DataOf, Space, StringSpace;
    if |fs| > 0 {
      SizesMatch(fs[1..], vs[1..]);
    }
  }

  lemma {:induction false} SizesAgree(vs: seq<Value>, i: nat)
    requires AllValid(vs) && i <= |vs|
    ensures F.WidthOf(FieldsOf(vs)[..i]) == FixedSize(vs[..i]) && |F.AllData(FieldsOf(vs)[..i])| == StringSize(vs[..i])
  {
    var fs := FieldsOf(vs);
    forall k | 0 <= k < i ensures F.Width(fs[k]) == Space(vs[k]) && |F.DataOf(fs[k])| == StringSpace(vs[k]) {
      FieldSizes(vs[k]);
    }
    hide *;
    SizesMatch(fs[..i], vs[..i]);
  }

  lemma {:induction false} Pieces(buf: seq<byte>, at: nat, x: seq<byte>, y: seq<byte>)
    requires F.Holds(buf, at, x + y)
    ensures F.Holds(buf, at, x) && F.Holds(buf, at + |x|, y)
  {
    assert (x + y)[..|x|] == x && (x + y)[|x|..] == y;
    var s := buf[at..at + |x + y|];
    assert s[..|x|] == buf[at..at + |x|] && s[|x|..] == buf[at + |x|..at + |x| + |y|];
  }

  lemma {:induction false} FieldLaid(buf: seq<byte>, at: nat, v: Value, data: nat)
    requires Proper(v) && data < U16 && StringSpace(v) < U16
    requires F.Holds(buf, at, F.BytesOf(FieldOf(v), data)) && F.Holds(buf, data, F.DataOf(FieldOf(v)))
    ensures Laid(buf, at, v, data)
  {
    FieldBytes(v, data);
    hide F.BytesOf, F.DataOf, F.Holds, F.BE16, BigEndian;
    if v.VarcharV? {
      StringLaid(buf, at, v.s, data);
    } else {
      PlainLaid(buf, at, v, data);
    }
  }

  lemma {:induction false} PlainLaid(buf: seq<byte>, at: nat, v: Value, data: nat)
    requires Proper(v) && !v.VarcharV? && F.Holds(buf, at, FieldOf(v).bytes)
    ensures Laid(buf, at, v, data)
  {
    match v
    case TinyIntV(i) => SignedAt(buf, at, 1, i);
    case BoolV(b) => ByteAt(buf, at, if b then 1 else 0);
    case IntV(i) => SignedAt(buf, at, 4, i);
    case BigIntV(i) => SignedAt(buf, at, 8, i);
  }

  lemma {:induction false} ByteAt(buf: seq<byte>, at: nat, b: byte)
    ensures F.Holds(buf, at, [b]) <==> BigEndian(buf, at, 1, b)
    ensures BigEndian(buf, at, 1, b) <==> at < |buf| && buf[at] == b
  {
    assert Digit(b, 1, 0) == b;
    assert at < |buf| ==> buf[at..at + 1] == [buf[at]];
  }

  lemma {:induction false} BE16Is(n: nat)
    requires n < U16
    ensures F.BE16(n) == ToBE(n, 2)
  {
    hide ToBE;
  }

  lemma {:induction false} StringLaid(buf: seq<byte>, at: nat, s: seq<byte>, data: nat)
    requires data < U16 && |s| < U16
    requires F.Holds(buf, at, F.BE16(data) + F.BE16(|s|)) && F.Holds(buf, data, s)
    ensures Laid(buf, at, VarcharV(s), data)
  {
    hide F.Holds, F.BE16, BigEndian, ToBE;
    Pieces(buf, at, F.BE16(data), F.BE16(|s|));
    BE16Is(data);
    BE16Is(|s|);
    NaturalAt(buf, at, 2, data);
    NaturalAt(buf, at + 2, 2, |s|);
  }

  lemma {:induction false} TupleSize(vs: seq<Value>)
    requires AllValid(vs)
    ensures |Encode(vs)| == FixedSize(vs) + StringSize(vs)
  {
    var fs := FieldsOf(vs);
    assert fs[..|vs|] == fs && vs[..|vs|] == vs;
    assert |Encode(vs)| == |F.Fixed(fs, F.WidthOf(fs))| + |F.AllData(fs)|;
    hide *;
    SizesAgree(vs, |vs|);
    F.FixedSize(fs, F.WidthOf(fs));
  }

  lemma {:induction false} DataAtIs(vs: seq<Value>, i: nat)
    requires AllValid(vs) && i < |vs|
    ensures var fs := FieldsOf(vs);
            && fs[i] == FieldOf(vs[i]) && |F.DataOf(fs[i])| == StringSpace(vs[i]) && Proper(vs[i])
            && F.DataAt(fs, i) == FixedSize(vs) + StringSize(vs[..i])
  {
    var fs := FieldsOf(vs);
    assert fs[..|vs|] == fs && vs[..|vs|] == vs;
    assert F.DataAt(fs, i) == F.WidthOf(fs) + |F.AllData(fs[..i])|;
    hide F.WidthOf, F.AllData, FixedSize, StringSize, F.DataAt;
    SizesAgree(vs, i);
    SizesAgree(vs, |vs|);
  }

  /**
   * A tuple: the values in order, back to back, then the strings in order; each string's place holds its offset and its
   * length in two bytes each.
   */
  lemma {:induction false} TupleLayout(vs: seq<Value>, i: nat)
    requires AllValid(vs) && i < |vs| && |Encode(vs)| < U16
    ensures |Encode(vs)| == FixedSize(vs) + StringSize(vs)
    ensures Laid(Encode(vs), FixedSize(vs[..i]), vs[i], FixedSize(vs) + StringSize(vs[..i]))
  {
    var fs := FieldsOf(vs);
    assert Encode(vs) + [] == Encode(vs) == F.Assemble(fs);
    hide *;
    TupleSize(vs);
    SizesAgree(vs, i);
    DataAtIs(vs, i);
    F.FieldAt(fs, i, []);
    F.FieldDataAt(fs, i, []);
    FieldLaid(Encode(vs), FixedSize(vs[..i]), vs[i], F.DataAt(fs, i));
  }

  /** What the types hold: one, four and eight bytes in two's complement. */
  lemma {:induction false} Ranges(v: Value)
    ensures Proper(v) <==>
            match v
            case TinyIntV(i) => -0x80 <= i <= 0x7f
            case IntV(i) => -0x8000_0000 <= i <= 0x7fff_ffff
            case BigIntV(i) => -0x8000_0000_0000_0000 <= i <= 0x7fff_ffff_ffff_ffff
            case _ => true
  {
    Widths();
  }

  /** What reading a column of any buffer gives: an integer by its bytes, `false` for a zero byte only, a string by its place. */
  ghost predicate Reads(data: seq<byte>, at: nat, ty: Type, v: Value) {
    match v
    case TinyIntV(i) => ty == TinyInt && -0x80 <= i <= 0x7f && BigEndian(data, at, 1, i)
    case BoolV(b) => ty == Bool && at < |data| && (b <==> data[at] != 0)
    case IntV(i) => ty == Int && -0x8000_0000 <= i <= 0x7fff_ffff && BigEndian(data, at, 4, i)
    case BigIntV(i) => ty == BigInt && -0x8000_0000_0000_0000 <= i <= 0x7fff_ffff_ffff_ffff && BigEndian(data, at, 8, i)
    case VarcharV(s) => ty == Varchar && exists off: nat :: StringAt(data, at, off, s)
  }

  ghost predicate StringAt(data: seq<byte>, at: nat, off: nat, s: seq<byte>) {
    && off < U16 && |s| < U16
    && BigEndian(data, at, 2, off) && BigEndian(data, at + 2, 2, |s|) && F.Holds(data, off, s)
  }

  lemma {:induction false} ReadsPlain(data: seq<byte>, at: nat, w: nat, v: int)
    ensures at + w <= |data| && Unsigned(data[at..at + w]) == v <==> Fits(v, Pow256(w)) && BigEndian(data, at, w, v)
  {
    if at + w <= |data| {
      UnsignedIs(data[at..at + w], v);
      if Fits(v, Pow256(w)) {
        SignedAt(data, at, w, v);
      }
    }
  }

  lemma {:induction false} ReadsNatural(data: seq<byte>, at: nat, w: nat, v: nat)
    ensures at + w <= |data| && FromBE(data[at..at + w]) == v <==> v < Pow256(w) && BigEndian(data, at, w, v)
  {
    if at + w <= |data| {
      var s := data[at..at + w];
      ToFrom(s);
      if v < Pow256(w) {
        FromTo(v, w);
      }
      NaturalAt(data, at, w, v);
      hide BigEndian, ToBE, FromBE;
      assert |s| == w && (F.Holds(data, at, ToBE(v, w)) <==> s == ToBE(v, w));
    }
  }

  /** A column reads as a value exactly if it has the value's bytes; otherwise reading it would run past the buffer. */
  lemma {:induction false} GetExact(col: Column, data: seq<byte>, v: Value)
    ensures GetValue(col, data) == Some(v) <==> Reads(data, col.offset, col.ty, v)
  {
    Widths();
    if col.ty == Varchar {
      GetString(col, data, v);
    } else {
      GetPlain(col, data, v);
    }
  }

  lemma {:induction false} GetPlain(col: Column, data: seq<byte>, v: Value)
    requires col.ty != Varchar
    ensures GetValue(col, data) == Some(v) <==> Reads(data, col.offset, col.ty, v)
  {
    Widths();
    hide BigEndian, Unsigned;
    match v
    case TinyIntV(i) => ReadsPlain(data, col.offset, 1, i);
    case BoolV(b) =>
    case IntV(i) => ReadsPlain(data, col.offset, 4, i);
    case BigIntV(i) => ReadsPlain(data, col.offset, 8, i);
    case VarcharV(_) =>
  }

  lemma {:induction false} GetString(col: Column, data: seq<byte>, v: Value)
    requires col.ty == Varchar
    ensures GetValue(col, data) == Some(v) <==> Reads(data, col.offset, col.ty, v)
  {
    if GetValue(col, data) == Some(v) {
      StringHolds(col, data, v);
    }
    if v.VarcharV? {
      forall o: nat | StringAt(data, col.offset, o, v.s) ensures GetValue(col, data) == Some(v) {
        StringGot(col, data, o, v.s);
      }
    }
  }

  lemma {:induction false} StringHolds(col: Column, data: seq<byte>, v: Value)
    requires col.ty == Varchar && GetValue(col, data) == Some(v)
    ensures v.VarcharV? && exists off: nat :: StringAt(data, col.offset, off, v.s)
  {
    Widths();
    var at := col.offset;
    var b := data[at..at + 4];
    assert b[..2] == data[at..at + 2] && b[2..] == data[at + 2..at + 4];
    hide BigEndian, FromBE, Pow256;
    var off, n := FromBE(b[..2]), FromBE(b[2..]);
    ReadsNatural(data, at, 2, off);
    ReadsNatural(data, at + 2, 2, n);
    assert StringAt(data, at, off, v.s);
  }

  lemma {:induction false} StringGot(col: Column, data: seq<byte>, off: nat, s: seq<byte>)
    requires col.ty == Varchar && StringAt(data, col.offset, off, s)
    ensures GetValue(col, data) == Some(VarcharV(s))
  {
    var at := col.offset;
    assert at + 4 <= |data|;
    var b := data[at..at + 4];
    assert b[..2] == data[at..at + 2] && b[2..] == data[at + 2..at + 4];
    hide BigEndian, FromBE, Pow256;
    ReadsNatural(data, at, 2, off);
    ReadsNatural(data, at + 2, 2, |s|);
  }

  // ---------------------------------------------------------------- pages of B+ tree nodes

  /** Where slot `i` starts: slots lie back to back behind fourteen bytes of header. */
  function SlotStart(ss: seq<N.Slot>, i: nat, w: nat): nat
    requires i <= |ss|
  {
    if i == 0 then 14 else SlotStart(ss, i - 1, w) + |ss[i - 1].key| + 1 + w
  }

  /** A slot: the key tuple, a flag, and a value's bytes or a page id and zeros. */
  ghost predicate SlotLaid(p: seq<byte>, at: nat, s: N.Slot, w: nat) {
    var e := at + |s.key|;
    && F.Holds(p, at, s.key) && e + 1 + w <= |p|
    && match s.val
       case Val(b) => p[e] == 0 && F.Holds(p, e + 1, b)
       case Pointer(q) => p[e] == 1 && BigEndian(p, e + 1, 4, q) && forall k :: e + 5 <= k < e + 1 + w ==> p[k] == 0
  }

  lemma {:induction false} StartIs(ss: seq<N.Slot>, i: nat, w: nat)
    requires N.SlotsOk(ss, w) && i <= |ss|
    ensures N.SlotsOk(ss[..i], w) && SlotStart(ss, i, w) == 14 + |N.SlotsBytes(ss[..i], w)|
  {
    hide N.SlotsBytes, N.SlotBytes, N.SlotsOk, N.EitherOk;
    if i > 0 {
      assert SlotStart(ss, i, w) == SlotStart(ss, i - 1, w) + |ss[i - 1].key| + 1 + w;
      hide SlotStart;
      StartIs(ss, i - 1, w);
      N.NextSlot(ss, i - 1, w);
    } else {
      N.SlotsNone(ss, w);
    }
  }

  lemma {:induction false} SlotsHead(ss: seq<N.Slot>, i: nat, w: nat)
    requires N.SlotsOk(ss, w) && i < |ss|
    ensures N.SlotsOk(ss[i..], w) && N.SlotsOk(ss[i + 1..], w) && N.EitherOk(ss[i].val, w)
    ensures N.SlotsBytes(ss[i..], w) == N.SlotBytes(ss[i], w) + N.SlotsBytes(ss[i + 1..], w)
  {
    assert ss[i..][0] == ss[i] && ss[i..][1..] == ss[i + 1..];
    hide N.EitherOk, N.SlotBytes;
  }

  lemma {:induction false} SlotsParts(ss: seq<N.Slot>, i: nat, w: nat)
    requires N.SlotsOk(ss, w) && i <= |ss|
    ensures N.SlotsOk(ss[..i], w) && N.SlotsOk(ss[i..], w)
    ensures N.SlotsBytes(ss, w) == N.SlotsBytes(ss[..i], w) + N.SlotsBytes(ss[i..], w)
  {
    if i == 0 {
      N.SlotsNone(ss, w);
      assert ss[0..] == ss;
    } else {
      hide *;
      SlotsParts(ss, i - 1, w);
      SlotsHead(ss, i - 1, w);
      N.NextSlot(ss, i - 1, w);
      F.Assoc(N.SlotsBytes(ss[..i - 1], w), N.SlotBytes(ss[i - 1], w), N.SlotsBytes(ss[i..], w));
    }
  }

  lemma {:induction false} SlotsAt(ss: seq<N.Slot>, i: nat, w: nat, x: seq<byte>, z: seq<byte>)
    requires N.SlotsOk(ss, w) && i < |ss| && |x| == 14
    ensures N.EitherOk(ss[i].val, w)
    ensures F.Holds(x + (N.SlotsBytes(ss, w) + z), SlotStart(ss, i, w), N.SlotBytes(ss[i], w))
  {
    hide *;
    StartIs(ss, i, w);
    SlotsParts(ss, i, w);
    SlotsHead(ss, i, w);
    Inside(x, N.SlotsBytes(ss[..i], w), N.SlotBytes(ss[i], w), N.SlotsBytes(ss[i + 1..], w), z);
  }

  lemma {:induction false} Inside(x: seq<byte>, a: seq<byte>, b: seq<byte>, c: seq<byte>, z: seq<byte>)
    ensures F.Holds(x + ((a + (b + c)) + z), |x| + |a|, b)
  {
    assert x + ((a + (b + c)) + z) == (x + a) + b + (c + z);
  }

  lemma {:induction false} SlotIs(p: seq<byte>, at: nat, s: N.Slot, w: nat)
    requires N.EitherOk(s.val, w) && F.Holds(p, at, N.SlotBytes(s, w))
    ensures SlotLaid(p, at, s, w)
  {
    var e := N.EitherBytes(s.val, w);
    assert N.SlotBytes(s, w) == s.key + e;
    EitherIs(p, at + |s.key|, s.val, w) by {
      Pieces(p, at, s.key, e);
    }
    Pieces(p, at, s.key, e);
  }

  lemma {:induction false} EitherIs(p: seq<byte>, at: nat, e: N.Either, w: nat)
    requires N.EitherOk(e, w) && F.Holds(p, at, N.EitherBytes(e, w))
    ensures match e
            case Val(b) => at < |p| && p[at] == 0 && F.Holds(p, at + 1, b)
            case Pointer(q) => at + 1 + w <= |p| && p[at] == 1 && BigEndian(p, at + 1, 4, q)
                               && forall k :: at + 5 <= k < at + 1 + w ==> p[k] == 0
  {
    match e
    case Val(b) =>
      Pieces(p, at, [0], b);
      ByteAt(p, at, 0);
    case Pointer(q) =>
      var s := Signed(q, 4);
      F.Assoc([1], s, Zeros(w - 4));
      Pieces(p, at, [1], s + Zeros(w - 4));
      Pieces(p, at + 1, s, Zeros(w - 4));
      ByteAt(p, at, 1);
      SignedAt(p, at + 1, 4, q);
      var z := p[at + 5..at + 1 + w];
      assert forall k :: at + 5 <= k < at + 1 + w ==> p[k] == z[k - at - 5];
  }

  /** A node's page: type, root flag, number of slots, next page and id in the header; then the slots; then zeros. */
  lemma {:induction false} NodeLayout(n: N.Node, w: nat)
    requires N.NodeOk(n, w) && N.FitsPage(n, w)
    ensures var p := N.PageBytes(n, w);
            && p[0] == (if n.t.InternalNode? then 1 else 2) && p[1] == (if n.isRoot then 1 else 0)
            && BigEndian(p, 2, 4, |n.values|) && BigEndian(p, 6, 4, n.next) && BigEndian(p, 10, 4, n.id)
            && (forall i :: 0 <= i < |n.values| ==> SlotLaid(p, SlotStart(n.values, i, w), n.values[i], w))
            && (forall k :: SlotStart(n.values, |n.values|, w) <= k < PAGE_SIZE ==> p[k] == 0)
  {
    var p, ss := N.PageBytes(n, w), n.values;
    var z := Zeros(PAGE_SIZE - 14 - |N.SlotsBytes(ss, w)|);
    assert p == N.Header(n) + N.SlotsBytes(ss, w) + z;
    NodeHeader(n, N.SlotsBytes(ss, w) + z);
    F.Assoc(N.Header(n), N.SlotsBytes(ss, w), z);
    StartIs(ss, |ss|, w);
    assert ss[..|ss|] == ss && |N.Header(n)| == 14 && N.SlotsOk(ss, w);
    assert forall k :: SlotStart(ss, |ss|, w) <= k < PAGE_SIZE ==> p[k] == 0;
    hide *;
    forall i | 0 <= i < |ss| ensures SlotLaid(p, SlotStart(ss, i, w), ss[i], w) {
      SlotsAt(ss, i, w, N.Header(n), z);
      SlotIs(p, SlotStart(ss, i, w), ss[i], w);
    }
  }

  lemma {:induction false} NodeHeader(n: N.Node, rest: seq<byte>)
    requires Fits(n.next, Pow256(4)) && Fits(n.id, Pow256(4))
    ensures var p := N.Header(n) + rest;
            && p[0] == (if n.t.InternalNode? then 1 else 2) && p[1] == (if n.isRoot then 1 else 0)
            && BigEndian(p, 2, 4, |n.values|) && BigEndian(p, 6, 4, n.next) && BigEndian(p, 10, 4, n.id)
  {
    var p := N.Header(n) + rest;
    var l, x, i := ToBE(|n.values|, 4), Signed(n.next, 4), Signed(n.id, 4);
    N.HeaderParts([N.TypeByte(n.t)] + [if n.isRoot then 1 else 0], l, x, i, rest);
    NaturalAt(p, 2, 4, |n.values|);
    SignedAt(p, 6, 4, n.next);
    SignedAt(p, 10, 4, n.id);
  }

  /** What is read at the start of a buffer as a slot: the key tuple there, then by the flag a value or a page id. */
  ghost predicate SlotReads(left: seq<byte>, cols: seq<Column>, w: nat, s: N.Slot) {
    var e := |s.key|;
    && N.TupleIn(left, cols) == Some(s.key) && e + 1 + w <= |left|
    && match s.val
       case Val(b) => left[e] == 0 && b == left[e + 1..e + 1 + w]
       case Pointer(q) => left[e] == 1 && w == 4 && Fits(q, Pow256(4)) && BigEndian(left, e + 1, 4, q)
  }

  ghost predicate SlotsRead(left: seq<byte>, cols: seq<Column>, w: nat, ss: seq<N.Slot>)
    decreases |ss|
  {
    |ss| > 0 ==> SlotReads(left, cols, w, ss[0]) && SlotsRead(left[|ss[0].key| + 1 + w..], cols, w, ss[1..])
  }

  lemma {:induction false} EitherExact(b: seq<byte>, w: nat, e: N.Either)
    requires |b| == 1 + w
    ensures N.ReadEither(b, w) == Some(e) <==>
            match e
            case Val(x) => b[0] == 0 && x == b[1..]
            case Pointer(q) => b[0] == 1 && w == 4 && Fits(q, Pow256(4)) && BigEndian(b, 1, 4, q)
  {
    if e.Pointer? && w == 4 {
      ReadsPlain(b, 1, 4, e.ptr);
      assert b[1..1 + 4] == b[1..];
    }
  }

  lemma {:induction false} Shifted(left: seq<byte>, e: nat, n: nat, at: nat, w: nat, v: int)
    requires e + n <= |left| && at + w <= n
    ensures BigEndian(left[e..e + n], at, w, v) <==> BigEndian(left, e + at, w, v)
  {
    var b := left[e..e + n];
    hide Digit;
    if BigEndian(b, at, w, v) {
      forall i | 0 <= i < w ensures left[e + at + i] == Digit(v, w, i) {
        assert left[e + at + i] == b[at + i] == Digit(v, w, i);
      }
    }
    if BigEndian(left, e + at, w, v) {
      forall i | 0 <= i < w ensures b[at + i] == Digit(v, w, i) {
        assert b[at + i] == left[e + at + i] == Digit(v, w, i);
      }
    }
  }

  lemma {:induction false} FirstExact(left: seq<byte>, cols: seq<Column>, w: nat, s: N.Slot)
    ensures SlotReads(left, cols, w, s) <==>
            && N.TupleIn(left, cols) == Some(s.key) && |s.key| + 1 + w <= |left|
            && N.ReadEither(left[|s.key|..|s.key| + 1 + w], w) == Some(s.val)
  {
    hide N.TupleIn, N.ReadEither, BigEndian, Fits, Pow256;
    var e := |s.key|;
    if e + 1 + w <= |left| {
      var b := left[e..e + 1 + w];
      EitherExact(b, w, s.val);
      assert b[0] == left[e] && b[1..] == left[e + 1..e + 1 + w];
      if s.val.Pointer? && w == 4 {
        Shifted(left, e, 1 + w, 1, 4, s.val.ptr);
      }
    }
  }

  /** The slot that comes first, if the buffer starts with one. */
  ghost function FirstSlot(left: seq<byte>, cols: seq<Column>, w: nat): Option<N.Slot> {
    match N.TupleIn(left, cols)
    case None => None
    case Some(key) =>
      if |key| + 1 + w > |left| then None
      else match N.ReadEither(left[|key|..|key| + 1 + w], w)
        case None => None
        case Some(e) => Some(N.Slot(key, e))
  }

  lemma {:induction false} FirstIs(left: seq<byte>, cols: seq<Column>, w: nat, s: N.Slot)
    ensures FirstSlot(left, cols, w) == Some(s) <==> SlotReads(left, cols, w, s)
  {
    FirstExact(left, cols, w, s);
    hide N.TupleIn, N.ReadEither, SlotReads;
  }

  lemma {:induction false} ReadsFirst(left: seq<byte>, cols: seq<Column>, w: nat, n: nat)
    requires n > 0
    ensures var f := FirstSlot(left, cols, w);
            && (f.None? ==> N.ReadSlots(left, cols, w, n) == None)
            && (f.Some? ==> |f.value.key| + 1 + w <= |left|
                            && N.ReadSlots(left, cols, w, n)
                               == N.Prepend([f.value], N.ReadSlots(left[|f.value.key| + 1 + w..], cols, w, n - 1)))
  {
    hide N.TupleIn, N.ReadEither, N.Prepend;
  }

  lemma {:induction false} PrependIs<T>(x: T, r: Option<seq<T>>, s: seq<T>)
    ensures N.Prepend([x], r) == Some(s) <==> |s| > 0 && s[0] == x && r == Some(s[1..])
  {
    if |s| > 0 {
      assert s == [s[0]] + s[1..];
    }
  }

  lemma {:induction false} ReadsNone(left: seq<byte>, cols: seq<Column>, w: nat, ss: seq<N.Slot>)
    ensures N.ReadSlots(left, cols, w, 0) == Some([]) && (|ss| == 0 ==> SlotsRead(left, cols, w, ss))
  {
  }

  lemma {:induction false} ReadsMore(left: seq<byte>, cols: seq<Column>, w: nat, ss: seq<N.Slot>)
    requires |ss| > 0
    ensures SlotsRead(left, cols, w, ss) <==>
            FirstSlot(left, cols, w) == Some(ss[0]) && SlotsRead(left[|ss[0].key| + 1 + w..], cols, w, ss[1..])
  {
    FirstIs(left, cols, w, ss[0]);
    hide FirstSlot, N.TupleIn, BigEndian, Fits;
  }

  lemma {:induction false} SlotsExact(left: seq<byte>, cols: seq<Column>, w: nat, n: nat, ss: seq<N.Slot>)
    ensures N.ReadSlots(left, cols, w, n) == Some(ss) <==> n == |ss| && SlotsRead(left, cols, w, ss)
    decreases n
  {
    hide *;
    if n == 0 {
      ReadsNone(left, cols, w, ss);
    } else {
      ReadsFirst(left, cols, w, n);
      if |ss| > 0 {
        ReadsMore(left, cols, w, ss);
      }
      var f := FirstSlot(left, cols, w);
      if f.Some? {
        var rest := left[|f.value.key| + 1 + w..];
        PrependIs(f.value, N.ReadSlots(rest, cols, w, n - 1), ss);
        if |ss| > 0 {
          SlotsExact(rest, cols, w, n - 1, ss[1..]);
        }
      }
    }
  }

  lemma {:induction false} NodeFields(buf: seq<byte>, cols: seq<Column>, w: nat, n: N.Node)
    requires |buf| == PAGE_SIZE
    ensures N.ReadNode(buf, cols, w) == Some(n) <==>
            && buf[0] == (if n.t.InternalNode? then 1 else 2) && (n.isRoot <==> buf[1] != 0)
            && Unsigned(buf[6..10]) == n.next && Unsigned(buf[10..14]) == n.id
            && N.ReadSlots(buf[14..], cols, w, FromBE(buf[2..6])) == Some(n.values)
  {
    hide N.ReadSlots, FromBE, Unsigned;
  }

  /** A buffer reads as a node exactly if its bytes say so: other types and flags, and keys past the end, are not read. */
  lemma {:induction false} NodeExact(buf: seq<byte>, cols: seq<Column>, w: nat, n: N.Node)
    requires |buf| == PAGE_SIZE
    ensures N.ReadNode(buf, cols, w) == Some(n) <==>
            && buf[0] == (if n.t.InternalNode? then 1 else 2) && (n.isRoot <==> buf[1] != 0)
            && |n.values| < I32 && BigEndian(buf, 2, 4, |n.values|)
            && Fits(n.next, I32) && BigEndian(buf, 6, 4, n.next) && Fits(n.id, I32) && BigEndian(buf, 10, 4, n.id)
            && SlotsRead(buf[14..], cols, w, n.values)
  {
    Widths();
    hide N.ReadNode, N.ReadSlots, SlotsRead, BigEndian, FromBE, Unsigned, Fits, Pow256;
    NodeFields(buf, cols, w, n);
    ReadsNatural(buf, 2, 4, |n.values|);
    ReadsPlain(buf, 6, 4, n.next);
    ReadsPlain(buf, 10, 4, n.id);
    SlotsExact(buf[14..], cols, w, FromBE(buf[2..6]), n.values);
  }

  // ---------------------------------------------------------------- pages of a heap table

  /** The slot of row `i` holds its offset and length and a zero byte; the rows lie against the page's end, the first one last. */
  ghost predicate RowLaid(p: seq<byte>, at: nat, rows: seq<H.Row>, i: nat)
    requires i < |rows|
  {
    var offset := PAGE_SIZE - H.Total(rows[..i + 1]);
    && 0 <= offset && BigEndian(p, at, 4, offset) && BigEndian(p, at + 4, 4, |rows[i]|) && at + 8 < |p| && p[at + 8] == 0
    && F.Holds(p, offset, rows[i])
  }

  lemma {:induction false} SlotPieces(p: seq<byte>, at: nat, s: H.Slot)
    requires F.Holds(p, at, H.SlotBytes(s))
    ensures BigEndian(p, at, 4, s.offset) && BigEndian(p, at + 4, 4, s.len) && at + 8 < |p| && p[at + 8] == 0
  {
    var a, b := ToBE(s.offset, 4), ToBE(s.len, 4);
    assert H.SlotBytes(s) == a + b + [0];
    Pieces(p, at, a + b, [0]);
    Pieces(p, at, a, b);
    NaturalAt(p, at, 4, s.offset);
    NaturalAt(p, at + 4, 4, s.len);
    ByteAt(p, at + 8, 0);
  }

  lemma {:induction false} RowThere(p: seq<byte>, rows: seq<H.Row>, i: nat)
    requires i < |rows| && |p| == PAGE_SIZE && 12 + 9 * |rows| + H.Total(rows) <= PAGE_SIZE
    requires p[12..12 + 9 * |rows|] == H.SlotsBytes(H.Slots(rows)) && p[PAGE_SIZE - H.Total(rows)..] == H.Tuples(rows)
    ensures RowLaid(p, 12 + 9 * i, rows, i)
  {
    hide H.Slots, H.SlotsBytes, H.Tuples, H.Total, H.SlotBytes, BigEndian, F.Holds, RowLaid;
    var ss, total, part := H.Slots(rows), H.Total(rows), H.Total(rows[..i + 1]);
    H.SlotHolds(rows, i);
    SlotAt(p, ss, i);
    RowAt(p, rows[i], total, total - part);
    RowParts(p, 12 + 9 * i, rows, i, ss[i]);
  }

  lemma {:induction false} RowParts(p: seq<byte>, at: nat, rows: seq<H.Row>, i: nat, s: H.Slot)
    requires i < |rows| && s.offset == PAGE_SIZE - H.Total(rows[..i + 1]) && s.len == |rows[i]|
    requires F.Holds(p, at, H.SlotBytes(s)) && F.Holds(p, s.offset, rows[i])
    ensures RowLaid(p, at, rows, i)
  {
    hide BigEndian, F.Holds, H.SlotBytes, H.Total;
    SlotPieces(p, at, s);
  }

  lemma {:induction false} SlotAt(p: seq<byte>, ss: seq<H.Slot>, i: nat)
    requires i < |ss| && 12 + 9 * |ss| <= |p| && p[12..12 + 9 * |ss|] == H.SlotsBytes(ss)
    ensures F.Holds(p, 12 + 9 * i, H.SlotBytes(ss[i]))
  {
    H.SlotsBytesAt(ss, i);
    Inner(p, 12, 9 * |ss|, 9 * i, 9);
    hide H.SlotsBytes, H.SlotBytes;
  }

  lemma {:induction false} RowAt(p: seq<byte>, row: seq<byte>, total: nat, at: nat)
    requires |p| == PAGE_SIZE && total <= PAGE_SIZE && at + |row| <= total
    requires p[PAGE_SIZE - total..][at..at + |row|] == row
    ensures F.Holds(p, PAGE_SIZE - total + at, row)
  {
    Inner(p, PAGE_SIZE - total, total, at, |row|);
    assert p[PAGE_SIZE - total..] == p[PAGE_SIZE - total..PAGE_SIZE - total + total];
  }

  lemma {:induction false} Inner(p: seq<byte>, at: nat, n: nat, i: nat, m: nat)
    requires at + n <= |p| && i + m <= n
    ensures p[at..at + n][i..i + m] == p[at + i..at + i + m]
  {
    var x, y := p[at..at + n][i..i + m], p[at + i..at + i + m];
    assert |x| == |y|;
    forall k | 0 <= k < m ensures x[k] == y[k] {
      assert x[k] == p[at..at + n][i + k] == p[at + (i + k)];
    }
  }

  /** A page of rows: next page, number of rows and a zero in the header; a slot of nine bytes for each row; zeros; the rows. */
  lemma {:induction false} HeapLayout(next: int, rows: seq<H.Row>)
    requires Fits(next, Pow256(4)) && H.FitsPage(rows)
    ensures var p := H.PageOf(next, rows);
            && BigEndian(p, 0, 4, next) && BigEndian(p, 4, 4, |rows|) && BigEndian(p, 8, 4, 0)
            && (forall i :: 0 <= i < |rows| ==> RowLaid(p, 12 + 9 * i, rows, i))
            && (forall k :: 12 + 9 * |rows| <= k < PAGE_SIZE - H.Total(rows) ==> p[k] == 0)
  {
    var p := H.PageOf(next, rows);
    H.PageParts(next, rows);
    assert 12 + 9 * |rows| + H.Total(rows) <= PAGE_SIZE;
    BetweenZero(H.Header(next, |rows|), H.SlotsBytes(H.Slots(rows)), PAGE_SIZE - 12 - 9 * |rows| - H.Total(rows), H.Tuples(rows));
    hide H.PageOf, H.SlotsBytes, H.Slots, H.Tuples, H.Total, RowLaid, BigEndian, FromBE, Unsigned, H.Header;
    ReadsPlain(p, 0, 4, next);
    ReadsNatural(p, 4, 4, |rows|);
    ReadsNatural(p, 8, 4, 0);
    forall i | 0 <= i < |rows| ensures RowLaid(p, 12 + 9 * i, rows, i) {
      RowThere(p, rows, i);
    }
  }

  lemma {:induction false} BetweenZero(h: seq<byte>, s: seq<byte>, n: nat, t: seq<byte>)
    ensures var p := h + s + Zeros(n) + t; forall k :: |h| + |s| <= k < |h| + |s| + n ==> p[k] == 0
  {
    var p := h + s + Zeros(n) + t;
    forall k | |h| + |s| <= k < |h| + |s| + n ensures p[k] == 0 {
      assert p[k] == Zeros(n)[k - |h| - |s|];
    }
  }
}
