/** B+ tree nodes as 4096-byte pages: a header, then slots back to back, each a key tuple, a flag and a value. */
module NodeCodec {
  import opened Options
  import opened Bytes
  import opened Buffers
  import opened Schema
  import opened TupleCodec
  import opened Projection
  import F = Fields

  const VALUES_START: nat := 14

  datatype NodeType = InternalNode | LeafNode

  /** A stored value is kept as its bytes. */
  datatype Either = Val(bytes: seq<byte>) | Pointer(ptr: int)

  datatype Slot = Slot(key: seq<byte>, val: Either)

  datatype Node = Node(t: NodeType, isRoot: bool, next: int, id: int, values: seq<Slot>)

  // ---------------------------------------------------------------- writing

  /** A value of the width `w`, or a page id that four bytes of it can hold. */
  predicate EitherOk(e: Either, w: nat) {
    match e
    case Val(b) => |b| == w
    case Pointer(p) => w >= 4 && Fits(p, Pow256(4))
  }

  /** The flag, then the value or the pointer; a pointer takes four bytes, the rest stays zero. */
  function EitherBytes(e: Either, w: nat): (s: seq<byte>)
    requires EitherOk(e, w)
    ensures |s| == 1 + w
  {
    match e
    case Val(b) => [0] + b
    case Pointer(p) => [1] + Signed(p, 4) + Zeros(w - 4)
  }

  ghost predicate SlotsOk(ss: seq<Slot>, w: nat) {
    forall i :: 0 <= i < |ss| ==> EitherOk(ss[i].val, w)
  }

  function SlotBytes(s: Slot, w: nat): (b: seq<byte>)
    requires EitherOk(s.val, w)
    ensures |b| == |s.key| + 1 + w
  {
    s.key + EitherBytes(s.val, w)
  }

  ghost function SlotsBytes(ss: seq<Slot>, w: nat): (b: seq<byte>)
    requires SlotsOk(ss, w)
    ensures |b| >= |ss|
  {
    if |ss| == 0 then [] else SlotBytes(ss[0], w) + SlotsBytes(ss[1..], w)
  }

  lemma {:induction false} SlotsSnoc(ss: seq<Slot>, s: Slot, w: nat)
    requires SlotsOk(ss, w) && EitherOk(s.val, w)
    ensures SlotsOk(ss + [s], w) && SlotsBytes(ss + [s], w) == SlotsBytes(ss, w) + SlotBytes(s, w)
    decreases |ss|
  {
    hide SlotBytes, EitherOk;
    if |ss| == 0 {
      assert ss + [s] == [s] && [s][1..] == [];
    } else {
      SlotsSnoc(ss[1..], s, w);
      F.ConsConcat(ss, [s]);
      F.Assoc(SlotBytes(ss[0], w), SlotsBytes(ss[1..], w), SlotBytes(s, w));
    }
  }

  lemma {:induction false} SlotsPrefix(ss: seq<Slot>, i: nat, w: nat)
    requires SlotsOk(ss, w) && i <= |ss|
    ensures |SlotsBytes(ss[..i], w)| <= |SlotsBytes(ss, w)|
    decreases |ss| - i
  {
    if i == |ss| {
      assert ss[..i] == ss;
    } else {
      assert ss[..i + 1] == ss[..i] + [ss[i]];
      SlotsSnoc(ss[..i], ss[i], w);
      SlotsPrefix(ss, i + 1, w);
    }
  }

  /** Page ids fit their type and every slot fits the value's width. */
  ghost predicate NodeOk(n: Node, w: nat) {
    Fits(n.next, Pow256(4)) && Fits(n.id, Pow256(4)) && SlotsOk(n.values, w)
  }

  ghost predicate FitsPage(n: Node, w: nat)
    requires NodeOk(n, w)
  {
    VALUES_START + |SlotsBytes(n.values, w)| <= PAGE_SIZE
  }

  function TypeByte(t: NodeType): byte {
    match t case InternalNode => 1 case LeafNode => 2
  }

  function Header(n: Node): (h: seq<byte>)
    requires Fits(n.next, Pow256(4)) && Fits(n.id, Pow256(4))
    ensures |h| == VALUES_START
  {
    [TypeByte(n.t)] + [if n.isRoot then 1 else 0] + ToBE(|n.values|, 4) + Signed(n.next, 4) + Signed(n.id, 4)
  }

  /** The page of a node. */
  ghost function PageBytes(n: Node, w: nat): (p: seq<byte>)
    requires NodeOk(n, w) && FitsPage(n, w)
    ensures |p| == PAGE_SIZE
  {
    Header(n) + SlotsBytes(n.values, w) + Zeros(PAGE_SIZE - VALUES_START - |SlotsBytes(n.values, w)|)
  }

  method WriteHeader(a: array<byte>, n: Node, w: nat)
    requires a.Length == PAGE_SIZE && a[..] == Zeros(PAGE_SIZE) && NodeOk(n, w)
    modifies a
    ensures a[..] == Header(n) + Zeros(PAGE_SIZE - VALUES_START)
  {
    assert a[..] == [] + Zeros(PAGE_SIZE);
    var t, r, l, x, i: seq<byte> := [TypeByte(n.t)], [if n.isRoot then 1 else 0], ToBE(|n.values|, 4), Signed(n.next, 4), Signed(n.id, 4);
    assert Header(n) == t + r + l + x + i;
    hide Header, NodeOk;
    Fill(a, [], 0, t);
    assert [] + t == t;
    Fill(a, t, 1, r);
    Fill(a, t + r, 2, l);
    Fill(a, t + r + l, 6, x);
    Fill(a, t + r + l + x, 10, i);
  }

  lemma {:induction false} NextSlot(ss: seq<Slot>, i: nat, w: nat)
    requires SlotsOk(ss, w) && i < |ss|
    ensures SlotsOk(ss[..i], w) && SlotsOk(ss[..i + 1], w) && EitherOk(ss[i].val, w)
    ensures SlotsBytes(ss[..i + 1], w) == SlotsBytes(ss[..i], w) + SlotBytes(ss[i], w)
    ensures |SlotsBytes(ss[..i + 1], w)| <= |SlotsBytes(ss, w)|
  {
    assert ss[..i + 1] == ss[..i] + [ss[i]];
    SlotsSnoc(ss[..i], ss[i], w);
    SlotsPrefix(ss, i + 1, w);
  }

  /** Write a node to a page; none where its slots run past the page. */
  method Write(n: Node, w: nat) returns (r: Option<seq<byte>>)
    requires NodeOk(n, w)
    ensures r == if FitsPage(n, w) then Some(PageBytes(n, w)) else None
  {
    var a := BlankBuffer();
    WriteHeader(a, n, w);
    hide EitherOk, Header, SlotsBytes, SlotsOk, SlotBytes;
    var values := n.values;
    var from, i := VALUES_START, 0;
    assert SlotsBytes(values[..0], w) == [] by { SlotsNone(values, w); }
    assert Header(n) + [] == Header(n);
    while i < |values|
      invariant 0 <= i <= |values|
      invariant from == VALUES_START + |SlotsBytes(values[..i], w)| <= PAGE_SIZE
      invariant a[..] == Header(n) + SlotsBytes(values[..i], w) + Zeros(PAGE_SIZE - from)
    {
      NextSlot(values, i, w);
      var slot := SlotBytes(values[i], w);
      if from + |slot| > PAGE_SIZE {
        return None;
      }
      Fill(a, Header(n) + SlotsBytes(values[..i], w), from, slot);
      F.Assoc(Header(n), SlotsBytes(values[..i], w), slot);
      from := from + |slot|;
      i := i + 1;
    }
    assert values[..i] == values;
    r := Some(a[..]);
  }

  lemma {:induction false} SlotsNone(ss: seq<Slot>, w: nat)
    ensures SlotsOk(ss[..0], w) && SlotsBytes(ss[..0], w) == []
  {
  }

  // ---------------------------------------------------------------- reading

  /** A pointer is only read from exactly four bytes. */
  function ReadEither(b: seq<byte>, w: nat): Option<Either>
    requires |b| == 1 + w
  {
    if b[0] == 0 then Some(Val(b[1..]))
    else if b[0] == 1 && w == 4 then Some(Pointer(Unsigned(b[1..])))
    else None
  }

  /** The key tuple at the start of a buffer. */
  ghost function TupleIn(buf: seq<byte>, cols: seq<Column>): Option<seq<byte>> {
    if Readable(buf, cols) then Some(F.Assemble(FieldsIn(buf, cols))) else None
  }

  ghost function ReadSlots(left: seq<byte>, cols: seq<Column>, w: nat, n: nat): Option<seq<Slot>>
    decreases n
  {
    if n == 0 then Some([])
    else match TupleIn(left, cols)
      case None => None
      case Some(key) =>
        var size := |key| + 1 + w;
        if size > |left| then None
        else match ReadEither(left[|key|..size], w)
          case None => None
          case Some(e) => Prepend([Slot(key, e)], ReadSlots(left[size..], cols, w, n - 1))
  }

  ghost function Prepend<T>(a: seq<T>, b: Option<seq<T>>): Option<seq<T>> {
    match b case None => None case Some(s) => Some(a + s)
  }

  function ReadType(b: byte): Option<NodeType> {
    if b == 1 then Some(InternalNode) else if b == 2 then Some(LeafNode) else None
  }

  /** The node on a page; none where decoding would stop with a panic. */
  ghost function ReadNode(buf: seq<byte>, cols: seq<Column>, w: nat): Option<Node>
    requires |buf| == PAGE_SIZE
  {
    match ReadType(buf[0])
    case None => None
    case Some(t) =>
      match ReadSlots(buf[VALUES_START..], cols, w, FromBE(buf[2..6]))
      case None => None
      case Some(values) => Some(Node(t, buf[1] > 0, Unsigned(buf[6..10]), Unsigned(buf[10..14]), values))
  }

  method Read(buf: seq<byte>, cols: seq<Column>, w: nat) returns (r: Option<Node>)
    requires |buf| == PAGE_SIZE
    ensures r == ReadNode(buf, cols, w)
  {
    hide ReadEither, Readable, FieldsIn, F.Assemble;
    var t := ReadType(buf[0]);
    if t.None? {
      return None;
    }
    var values: seq<Slot>, left, rem := [], buf[VALUES_START..], FromBE(buf[2..6]);
    PrependNone(ReadSlots(left, cols, w, rem));
    while rem > 0
      invariant 0 <= rem
      invariant ReadSlots(buf[VALUES_START..], cols, w, FromBE(buf[2..6])) == Prepend(values, ReadSlots(left, cols, w, rem))
    {
      var key := TupleFrom(left, cols);
      assert key == TupleIn(left, cols);
      if key.None? || |key.value| + 1 + w > |left| {
        return None;
      }
      var size := |key.value| + 1 + w;
      var either := ReadEither(left[|key.value|..size], w);
      if either.None? {
        return None;
      }
      PrependTwice(values, [Slot(key.value, either.value)], ReadSlots(left[size..], cols, w, rem - 1));
      values := values + [Slot(key.value, either.value)];
      left := left[size..];
      rem := rem - 1;
    }
    assert values + [] == values;
    r := Some(Node(t.value, buf[1] > 0, Unsigned(buf[6..10]), Unsigned(buf[10..14]), values));
  }

  lemma {:induction false} PrependNone<T>(b: Option<seq<T>>)
    ensures Prepend([], b) == b
  {
    if b.Some? {
      assert [] + b.value == b.value;
    }
  }

  lemma {:induction false} PrependTwice<T>(a: seq<T>, b: seq<T>, c: Option<seq<T>>)
    ensures Prepend(a, Prepend(b, c)) == Prepend(a + b, c)
  {
    if c.Some? {
      F.Assoc(a, b, c.value);
    }
  }

  // ---------------------------------------------------------------- round trip

  /** The key is a tuple of the schema's columns. */
  ghost predicate KeyOk(key: seq<byte>, cols: seq<Column>) {
    exists vs :: Describes(cols, vs) && key == Encode(vs)
  }

  ghost predicate KeysOk(ss: seq<Slot>, cols: seq<Column>) {
    forall i :: 0 <= i < |ss| ==> KeyOk(ss[i].key, cols)
  }

  lemma {:induction false} KeyFound(key: seq<byte>, cols: seq<Column>, junk: seq<byte>)
    requires KeyOk(key, cols)
    ensures TupleIn(key + junk, cols) == Some(key)
  {
    var vs :| Describes(cols, vs) && key == Encode(vs);
    CopyAll(cols, vs, junk);
  }

  lemma {:induction false} EitherRoundTrip(e: Either, w: nat)
    requires EitherOk(e, w)
    ensures ReadEither(EitherBytes(e, w), w) == if e.Pointer? && w != 4 then None else Some(e)
  {
    if e.Pointer? {
      SignedRoundTrip(e.ptr, 4);
      assert w == 4 ==> EitherBytes(e, w)[1..] == Signed(e.ptr, 4);
    }
  }

  /** The slots include no pointer, or values are as wide as a pointer. */
  ghost predicate PointersReadable(ss: seq<Slot>, w: nat) {
    w == 4 || forall i :: 0 <= i < |ss| ==> ss[i].val.Val?
  }

  /** The slots read from their bytes are the slots written. */
  ghost predicate ReadsBack(ss: seq<Slot>, cols: seq<Column>, w: nat, junk: seq<byte>) {
    && SlotsOk(ss, w)
    && ReadSlots(SlotsBytes(ss, w) + junk, cols, w, |ss|) == if PointersReadable(ss, w) then Some(ss) else None
  }

  lemma {:induction false} SlotsRead(ss: seq<Slot>, cols: seq<Column>, w: nat, junk: seq<byte>)
    requires SlotsOk(ss, w) && KeysOk(ss, cols)
    ensures ReadsBack(ss, cols, w, junk)
    decreases |ss|
  {
    if |ss| > 0 {
      SlotsTail(ss, cols, w);
      hide *;
      SlotsRead(ss[1..], cols, w, junk);
      SlotsReadStep(ss, cols, w, junk);
    }
  }

  lemma {:induction false} SlotsReadStep(ss: seq<Slot>, cols: seq<Column>, w: nat, junk: seq<byte>)
    requires |ss| > 0 && SlotsOk(ss, w) && KeysOk(ss, cols) && ReadsBack(ss[1..], cols, w, junk)
    ensures ReadsBack(ss, cols, w, junk)
  {
    hide ReadSlots, SlotsBytes, EitherBytes, TupleIn, ReadEither, EitherOk, KeyOk, PointersReadable, KeysOk, SlotsOk;
    SlotsTail(ss, cols, w);
    SlotsBytesCons(ss, w, junk);
    var s, rest := ss[0], SlotsBytes(ss[1..], w) + junk;
    var e := EitherBytes(s.val, w);
    EitherRoundTrip(s.val, w);
    KeyFound(s.key, cols, e + rest);
    ReadFirst(SlotsBytes(ss, w) + junk, s.key, e, rest, cols, w, |ss|);
    PrependFirst(ss);
  }

  lemma {:induction false} PrependFirst<T>(s: seq<T>)
    requires |s| > 0
    ensures Prepend([s[0]], Some(s[1..])) == Some(s) && Prepend([s[0]], None) == None
  {
    assert s == [s[0]] + s[1..];
  }

  lemma {:induction false} SlotsTail(ss: seq<Slot>, cols: seq<Column>, w: nat)
    requires |ss| > 0 && SlotsOk(ss, w) && KeysOk(ss, cols)
    ensures EitherOk(ss[0].val, w) && KeyOk(ss[0].key, cols) && SlotsOk(ss[1..], w) && KeysOk(ss[1..], cols)
    ensures PointersReadable(ss, w) <==> !(ss[0].val.Pointer? && w != 4) && PointersReadable(ss[1..], w)
  {
    hide KeyOk, EitherOk;
    if PointersReadable(ss[1..], w) && ss[0].val.Val? {
      forall i | 0 <= i < |ss| ensures w == 4 || ss[i].val.Val? {
        assert i > 0 ==> ss[i] == ss[1..][i - 1];
      }
    }
  }

  /** Reading slots when a key tuple and the bytes of a value come first. */
  lemma {:induction false} ReadFirst(left: seq<byte>, key: seq<byte>, e: seq<byte>, rest: seq<byte>, cols: seq<Column>,
                                     w: nat, n: nat)
    requires left == key + (e + rest) && |e| == 1 + w && n > 0
    requires TupleIn(left, cols) == Some(key)
    ensures ReadSlots(left, cols, w, n)
            == match ReadEither(e, w) case None => None case Some(v) => Prepend([Slot(key, v)], ReadSlots(rest, cols, w, n - 1))
  {
    hide *;
    Cut(left, key, e, rest);
    ReadAfterKey(left, key, cols, w, n);
  }

  lemma {:induction false} ReadAfterKey(left: seq<byte>, key: seq<byte>, cols: seq<Column>, w: nat, n: nat)
    requires n > 0 && |key| + 1 + w <= |left| && TupleIn(left, cols) == Some(key)
    ensures var size := |key| + (1 + w);
            ReadSlots(left, cols, w, n)
            == match ReadEither(left[|key|..size], w)
               case None => None
               case Some(v) => Prepend([Slot(key, v)], ReadSlots(left[size..], cols, w, n - 1))
  {
    hide TupleIn, ReadEither, Prepend;
  }

  lemma {:induction false} SlotsBytesCons(ss: seq<Slot>, w: nat, junk: seq<byte>)
    requires SlotsOk(ss, w) && |ss| > 0
    ensures SlotsBytes(ss, w) + junk == ss[0].key + (EitherBytes(ss[0].val, w) + (SlotsBytes(ss[1..], w) + junk))
  {
  }

  lemma {:induction false} Cut(left: seq<byte>, a: seq<byte>, b: seq<byte>, c: seq<byte>)
    requires left == a + (b + c)
    ensures |left| == |a| + |b| + |c| && left[|a|..|a| + |b|] == b && left[|a| + |b|..] == c
  {
  }

  /** A node that fits its page is read back exactly: unless values are not four bytes wide and there is a pointer,
      whose page cannot be read at all. */
  lemma {:induction false} NodeRoundTrip(n: Node, cols: seq<Column>, w: nat)
    requires NodeOk(n, w) && FitsPage(n, w) && KeysOk(n.values, cols)
    ensures ReadNode(PageBytes(n, w), cols, w) == if PointersReadable(n.values, w) then Some(n) else None
  {
    var p, junk := PageBytes(n, w), Zeros(PAGE_SIZE - VALUES_START - |SlotsBytes(n.values, w)|);
    var body := SlotsBytes(n.values, w) + junk;
    SlotsRead(n.values, cols, w, junk);
    F.Assoc(Header(n), SlotsBytes(n.values, w), junk);
    assert p == Header(n) + body;
    HeaderRead(n, body);
    hide Header, PageBytes, ReadSlots, SlotsBytes;
  }

  lemma {:induction false} HeaderRead(n: Node, body: seq<byte>)
    requires Fits(n.next, Pow256(4)) && Fits(n.id, Pow256(4)) && |n.values| < PAGE_SIZE
    ensures var p := Header(n) + body;
            && ReadType(p[0]) == Some(n.t) && (p[1] > 0 <==> n.isRoot)
            && FromBE(p[2..6]) == |n.values| && Unsigned(p[6..10]) == n.next && Unsigned(p[10..14]) == n.id
            && p[VALUES_START..] == body
  {
    var l, x, i := ToBE(|n.values|, 4), Signed(n.next, 4), Signed(n.id, 4);
    Widths();
    FromTo(|n.values|, 4);
    SignedRoundTrip(n.next, 4);
    SignedRoundTrip(n.id, 4);
    hide ToBE, Signed, Unsigned, FromBE, Pow256, Fits;
    HeaderParts([TypeByte(n.t)] + [if n.isRoot then 1 else 0], l, x, i, body);
  }

  lemma {:induction false} HeaderParts(a: seq<byte>, l: seq<byte>, x: seq<byte>, i: seq<byte>, body: seq<byte>)
    requires |a| == 2 && |l| == 4 && |x| == 4 && |i| == 4
    ensures var p := a + l + x + i + body;
            && p[0] == a[0] && p[1] == a[1] && p[2..6] == l && p[6..10] == x && p[10..14] == i && p[14..] == body
  {
  }

  // ---------------------------------------------------------------- which nodes fit

  ghost predicate KeyWidth(ss: seq<Slot>, k: nat) {
    forall i :: 0 <= i < |ss| ==> |ss[i].key| == k
  }

  /** Slots with keys of one width take that width, a flag and a value each. */
  lemma {:induction false} SlotsFit(ss: seq<Slot>, w: nat, k: nat)
    requires SlotsOk(ss, w) && KeyWidth(ss, k)
    ensures |SlotsBytes(ss, w)| == |ss| * (k + 1 + w)
  {
    if |ss| > 0 {
      assert KeyWidth(ss[1..], k) && SlotsOk(ss[1..], w) && |ss[0].key| == k;
      SlotsFit(ss[1..], w, k);
      assert |SlotsBytes(ss, w)| == |SlotBytes(ss[0], w)| + |SlotsBytes(ss[1..], w)|;
      hide SlotsBytes, KeyWidth, SlotsOk;
      Times(|ss|, k + 1 + w);
    }
  }

  lemma {:induction false} Times(m: nat, n: nat)
    requires m > 0
    ensures m * n == n + (m - 1) * n
  {
  }

  /** The bytes of a page with `m` slots of keys `k` bytes wide and values `w` bytes wide. */
  function Needed(m: nat, k: nat, w: nat): nat {
    VALUES_START + m * (k + 1 + w)
  }

  lemma {:induction false} FitsIff(n: Node, k: nat, w: nat)
    requires NodeOk(n, w) && KeyWidth(n.values, k)
    ensures FitsPage(n, w) <==> Needed(|n.values|, k, w) <= PAGE_SIZE
  {
    SlotsFit(n.values, w, k);
  }

  /** The slot count at which a node is cut: half a page of keys, rounded up. */
  function Cap(k: nat): nat
    requires k > 0
  {
    (PAGE_SIZE / 2 + k - 1) / k
  }

  /** A node is cut before anything is added below it exactly when it has reached that count. */
  lemma {:induction false} CutAt(m: nat, k: nat)
    requires k > 0
    ensures m * k >= PAGE_SIZE / 2 <==> m >= Cap(k)
  {
    var c, x := Cap(k), PAGE_SIZE / 2 + k - 1;
    Quotient(x, k);
    if m >= c {
      Monotone(c, m, k);
    } else {
      Monotone(m + 1, c, k);
      assert (m + 1) * k == m * k + k;
    }
  }

  lemma {:induction false} Quotient(x: nat, k: nat)
    requires k > 0
    ensures (x / k) * k <= x < (x / k) * k + k
  {
  }

  lemma {:induction false} Monotone(a: nat, b: nat, n: nat)
    requires a <= b
    ensures a * n <= b * n
  {
    assert b * n == a * n + (b - a) * n;
  }

  /** Every node of up to that many slots fits its page if and only if a node of exactly that many does. */
  lemma {:induction false} AllFit(k: nat, w: nat)
    requires k > 0
    ensures (forall n :: NodeOk(n, w) && KeyWidth(n.values, k) && |n.values| <= Cap(k) ==> FitsPage(n, w))
            <==> Needed(Cap(k), k, w) <= PAGE_SIZE
  {
    forall n | NodeOk(n, w) && KeyWidth(n.values, k) && |n.values| <= Cap(k)
      ensures Needed(Cap(k), k, w) <= PAGE_SIZE ==> FitsPage(n, w)
    {
      FitsIff(n, k, w);
      Monotone(|n.values|, Cap(k), k + 1 + w);
    }
    var full := FullNode(k, w);
    FitsIff(full, k, w);
  }

  /** A node due to be cut. */
  ghost function FullNode(k: nat, w: nat): (n: Node)
    requires k > 0
    ensures NodeOk(n, w) && KeyWidth(n.values, k) && |n.values| == Cap(k)
  {
    Node(LeafNode, false, 0, 0, seq(Cap(k), _ => Slot(Zeros(k), Val(Zeros(w)))))
  }

  /**
   * Which widths are safe. Eight-byte keys with four-byte values are, and so are twelve-byte keys with record ids. Four-byte
   * keys with four-byte values overflow at slot 454, before the cut at 512; eight-byte keys with record ids at slot 241,
   * before the cut at 256.
   */
  lemma {:induction false} SafeWidths()
    ensures Cap(8) == 256 && Needed(Cap(8), 8, 4) <= PAGE_SIZE
    ensures Cap(12) == 171 && Needed(Cap(12), 12, 8) <= PAGE_SIZE
    ensures Cap(4) == 512 && Needed(453, 4, 4) <= PAGE_SIZE < Needed(454, 4, 4)
    ensures Needed(240, 8, 8) <= PAGE_SIZE < Needed(241, 8, 8)
  {
  }
}
