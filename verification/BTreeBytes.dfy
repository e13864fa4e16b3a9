/** The pages of a B+ tree over one big-integer key column and four-byte values, as bytes. */
module BTreeBytes {
  import opened Options
  import opened Entries
  import opened BTreeShape
  import opened BTreeSafety
  import opened BTreeNode
  import opened BTreePages
  import opened BTreeIds
  import opened BTreeStep
  import B = Bytes
  import S = Schema
  import T = TupleCodec
  import O = TupleOrder
  import C = NodeCodec
  import F = Fields
  import L = Layouts

  /** Width of a stored value and of a page id. */
  const WORD: nat := 4

  const KEY_COLUMNS := [S.Column("key", S.BigInt, 0)]

  ghost predicate IsKey(k: int) {
    B.Fits(k, B.Pow256(8))
  }

  ghost predicate IsWord(v: int) {
    B.Fits(v, B.Pow256(4))
  }

  /** Page ids and values are four-byte integers, keys eight-byte ones, and there are no more slots than `CAP`. */
  ghost predicate Encodable(p: Page) {
    && IsWord(p.next) && IsWord(p.id) && |p.values| <= CAP
    && forall i :: 0 <= i < |p.values| ==>
         IsKey(p.values[i].key) && match p.values[i].val case Val(v) => IsWord(v) case Pointer(q) => IsWord(q)
  }

  ghost function SlotOf(s: Slot): C.Slot
    requires IsKey(s.key) && match s.val case Val(v) => IsWord(v) case Pointer(_) => true
  {
    C.Slot(T.Encode([T.BigIntV(s.key)]), match s.val case Val(v) => C.Val(B.Signed(v, 4)) case Pointer(q) => C.Pointer(q))
  }

  ghost function NodeOf(p: Page): (n: C.Node)
    requires Encodable(p)
    ensures |n.values| == |p.values| && forall i :: 0 <= i < |p.values| ==> n.values[i] == SlotOf(p.values[i])
  {
    C.Node(if p.t.LeafNode? then C.LeafNode else C.InternalNode, p.isRoot, p.next, p.id,
           seq(|p.values|, i requires 0 <= i < |p.values| => SlotOf(p.values[i])))
  }

  lemma {:induction false} SlotFacts(s: Slot)
    requires IsKey(s.key) && match s.val case Val(v) => IsWord(v) case Pointer(q) => IsWord(q)
    ensures C.EitherOk(SlotOf(s).val, WORD) && C.KeyOk(SlotOf(s).key, KEY_COLUMNS) && |SlotOf(s).key| == KEY_SIZE
  {
    O.BigIntKey("key", s.key);
  }

  lemma {:induction false} SlotsDiffer(s: Slot, u: Slot)
    requires IsKey(s.key) && match s.val case Val(v) => IsWord(v) case Pointer(q) => IsWord(q)
    requires IsKey(u.key) && match u.val case Val(v) => IsWord(v) case Pointer(q) => IsWord(q)
    ensures SlotOf(s) == SlotOf(u) <==> s == u
  {
    O.IntegerKeys("key", s.key, u.key);
    if s.val.Val? && u.val.Val? {
      B.SignedRoundTrip(s.val.v, 4);
      B.SignedRoundTrip(u.val.v, 4);
    }
    hide T.Encode;
  }

  lemma {:induction false} NodeFacts(p: Page)
    requires Encodable(p)
    ensures C.NodeOk(NodeOf(p), WORD) && C.FitsPage(NodeOf(p), WORD) && C.KeysOk(NodeOf(p).values, KEY_COLUMNS)
  {
    var ss := NodeOf(p).values;
    forall i | 0 <= i < |ss|
      ensures C.EitherOk(ss[i].val, WORD) && C.KeyOk(ss[i].key, KEY_COLUMNS) && |ss[i].key| == KEY_SIZE
    {
      SlotFacts(p.values[i]);
    }
    hide C.EitherOk, C.KeyOk;
    C.SlotsFit(ss, WORD, KEY_SIZE);
  }

  /** Such a page fits 4096 bytes and is read back exactly. */
  lemma {:induction false} PageRoundTrip(p: Page)
    requires Encodable(p)
    ensures C.NodeOk(NodeOf(p), WORD) && C.FitsPage(NodeOf(p), WORD)
    ensures C.ReadNode(C.PageBytes(NodeOf(p), WORD), KEY_COLUMNS, WORD) == Some(NodeOf(p))
  {
    NodeFacts(p);
    C.NodeRoundTrip(NodeOf(p), KEY_COLUMNS, WORD);
  }

  /** Different pages have different bytes. */
  lemma {:induction false} PagesDiffer(p: Page, q: Page)
    requires Encodable(p) && Encodable(q)
    ensures C.NodeOk(NodeOf(p), WORD) && C.FitsPage(NodeOf(p), WORD) && C.NodeOk(NodeOf(q), WORD) && C.FitsPage(NodeOf(q), WORD)
    ensures C.PageBytes(NodeOf(p), WORD) == C.PageBytes(NodeOf(q), WORD) <==> p == q
  {
    PageRoundTrip(p);
    PageRoundTrip(q);
    if NodeOf(p) == NodeOf(q) {
      forall i | 0 <= i < |p.values| ensures p.values[i] == q.values[i] {
        SlotsDiffer(p.values[i], q.values[i]);
      }
    }
    hide C.PageBytes, C.ReadNode;
  }

  // ---------------------------------------------------------------- the bytes

  function WordOf(s: Slot): int {
    match s.val case Val(v) => v case Pointer(q) => q
  }

  /** A slot of thirteen bytes: the key in eight, 0 before a value or 1 before a page id, then that in four. */
  ghost predicate SlotLaid(b: seq<B.byte>, at: nat, s: Slot) {
    && B.BigEndian(b, at, 8, s.key)
    && at + 8 < |b| && b[at + 8] == (if s.val.Val? then 0 else 1)
    && B.BigEndian(b, at + 9, 4, WordOf(s))
  }

  lemma {:induction false} KeyBytes(k: int)
    requires IsKey(k)
    ensures |T.Encode([T.BigIntV(k)])| == 8 && B.BigEndian(T.Encode([T.BigIntV(k)]), 0, 8, k)
  {
    var vs := [T.BigIntV(k)];
    assert vs[..0] == [] && vs[1..] == [];
    assert L.FixedSize(vs) == 8 + L.FixedSize([]) && L.StringSize(vs) == L.StringSize([]);
    hide T.Encode;
    L.TupleSize(vs);
    L.TupleLayout(vs, 0);
  }

  lemma {:induction false} Starts(p: Page, i: nat)
    requires Encodable(p) && i <= |p.values|
    ensures L.SlotStart(NodeOf(p).values, i, WORD) == 14 + 13 * i
  {
    if i > 0 {
      Starts(p, i - 1);
      assert IsKey(p.values[i - 1].key);
      KeyBytes(p.values[i - 1].key);
    }
  }

  lemma {:induction false} SlotIs(b: seq<B.byte>, at: nat, s: Slot)
    requires IsKey(s.key) && IsWord(WordOf(s)) && L.SlotLaid(b, at, SlotOf(s), WORD)
    ensures SlotLaid(b, at, s)
  {
    var key := T.Encode([T.BigIntV(s.key)]);
    KeyBytes(s.key);
    assert b[at..at + 8] == key;
    hide T.Encode, B.BigEndian;
    L.Shifted(b, at, 8, 0, 8, s.key);
    if s.val.Val? {
      L.SignedAt(b, at + 9, 4, s.val.v);
    }
  }

  /** A tree's page: type, root flag, number of slots, next leaf and id; then its slots back to back; then zeros. */
  lemma {:induction false} PageLayout(p: Page)
    requires Encodable(p)
    ensures C.NodeOk(NodeOf(p), WORD) && C.FitsPage(NodeOf(p), WORD)
    ensures var b := C.PageBytes(NodeOf(p), WORD);
            && b[0] == (if p.t.InternalNode? then 1 else 2) && b[1] == (if p.isRoot then 1 else 0)
            && B.BigEndian(b, 2, 4, |p.values|) && B.BigEndian(b, 6, 4, p.next) && B.BigEndian(b, 10, 4, p.id)
            && (forall i :: 0 <= i < |p.values| ==> SlotLaid(b, 14 + 13 * i, p.values[i]))
            && (forall k :: 14 + 13 * |p.values| <= k < |b| ==> b[k] == 0)
  {
    NodeFacts(p);
    var n := NodeOf(p);
    assert n.t.InternalNode? == p.t.InternalNode? && n.isRoot == p.isRoot && n.next == p.next && n.id == p.id;
    hide NodeOf, C.PageBytes, L.SlotLaid, SlotLaid, B.BigEndian, L.SlotStart, Encodable, C.NodeOk, C.FitsPage;
    L.NodeLayout(n, WORD);
    Starts(p, |p.values|);
    var b := C.PageBytes(n, WORD);
    forall i | 0 <= i < |p.values| ensures SlotLaid(b, 14 + 13 * i, p.values[i]) {
      SlotOfPage(b, p, i);
    }
  }

  lemma {:induction false} SlotOfPage(b: seq<B.byte>, p: Page, i: nat)
    requires Encodable(p) && i < |p.values|
    requires L.SlotLaid(b, L.SlotStart(NodeOf(p).values, i, WORD), NodeOf(p).values[i], WORD)
    ensures SlotLaid(b, 14 + 13 * i, p.values[i])
  {
    hide L.SlotLaid, SlotLaid, L.SlotStart, SlotOf;
    Starts(p, i);
    SlotIs(b, 14 + 13 * i, p.values[i]);
  }

  /** Nodes are cut at the slot count at which the page codec's nodes of these widths are. */
  lemma {:induction false} SameCut(m: nat)
    ensures m >= CAP <==> m * KEY_SIZE >= 2048
    ensures CAP == C.Cap(KEY_SIZE) == 256
  {
  }

  // ---------------------------------------------------------------- every page of a tree

  /** Values are four-byte integers. */
  ghost predicate WordValues(kvs: seq<Entry<Value>>) {
    forall i :: 0 <= i < |kvs| ==> IsWord(kvs[i].val)
  }

  /** Every page of a valid tree fits and is read back exactly, as long as page ids and values are four-byte integers. */
  lemma {:induction false} TreePagesRoundTrip(pages: Pages, nid: PageId, root: PageId, t: Tree, id: PageId)
    requires ShowsTree(pages, nid, root, t) && IsWord(nid - 1) && WordValues(Items(t)) && id in Ids(t)
    ensures id in pages && Encodable(pages[id])
    ensures C.NodeOk(NodeOf(pages[id]), WORD) && C.FitsPage(NodeOf(pages[id]), WORD)
    ensures C.ReadNode(C.PageBytes(NodeOf(pages[id]), WORD), KEY_COLUMNS, WORD) == Some(NodeOf(pages[id]))
  {
    WordRange();
    PageEncodable(pages, nid, t, true, Height(t), KEY_MIN, Hi(t), -1, id);
    PageRoundTrip(pages[id]);
  }

  lemma {:induction false} WordRange()
    ensures forall k :: IsKey(k) <==> KEY_MIN <= k <= KEY_MAX
    ensures forall v :: IsWord(v) <==> -0x8000_0000 <= v <= 0x7fff_ffff
  {
    B.Widths();
  }

  lemma {:induction false} PageEncodable(pages: Pages, nid: PageId, t: Tree, isRoot: bool, h: nat, lo: int, hi: int,
                                         after: PageId, id: PageId)
    requires Stored(pages, t, isRoot) && Linked(pages, t, after) && Ordered(WEAK, t, h, lo, hi) && Size(t) <= CAP
    requires KEY_MIN <= lo && hi <= KEY_MAX && nid <= 0x8000_0000 && -1 <= after < nid
    requires Below(Ids(t), nid) && NonNegative(Ids(t)) && WordValues(Items(t)) && id in Ids(t)
    ensures id in pages && Encodable(pages[id])
    decreases t
  {
    WordRange();
    hide IsKey, IsWord;
    if t.Leaf? {
      LeafEncodable(pages, t, isRoot);
    } else if id == t.id {
      InnerEncodable(pages, nid, t, isRoot, h, lo, hi);
    } else {
      KidPageEncodable(pages, nid, t.kids, h - 1, lo, hi, after, id);
    }
  }

  lemma {:induction false} LeafEncodable(pages: Pages, t: Tree, isRoot: bool)
    requires t.Leaf? && Stored(pages, t, isRoot) && Size(t) <= CAP && WordValues(t.kvs) && IsWord(t.id) && IsWord(pages[t.id].next)
    requires forall i :: 0 <= i < |t.kvs| ==> IsKey(t.kvs[i].key)
    ensures Encodable(pages[t.id])
  {
    hide IsKey, IsWord;
  }

  lemma {:induction false} InnerEncodable(pages: Pages, nid: PageId, t: Tree, isRoot: bool, h: nat, lo: int, hi: int)
    requires t.Inner? && Stored(pages, t, isRoot) && Ordered(WEAK, t, h, lo, hi) && Size(t) <= CAP
    requires KEY_MIN <= lo && hi <= KEY_MAX && nid <= 0x8000_0000
    requires Below(Ids(t), nid) && NonNegative(Ids(t))
    ensures Encodable(pages[t.id])
  {
    WordRange();
    ChainBounds(WEAK, t.kids, h - 1, lo, hi);
    forall i | 0 <= i < |t.kids| ensures IsKey(t.kids[i].key) && IsWord(t.kids[i].val.id) {
      IdsOfKid(t.kids, i);
    }
    hide IsKey, IsWord, Ordered, Chain, Ids, KidsIds;
  }

  lemma {:induction false} KidPageEncodable(pages: Pages, nid: PageId, kids: seq<Entry<Tree>>, h: nat, lo: int, hi: int,
                                            after: PageId, id: PageId)
    requires KidsStored(pages, kids) && KidsLinked(pages, kids, after) && Chain(WEAK, kids, h, lo, hi)
    requires KEY_MIN <= lo && hi <= KEY_MAX && nid <= 0x8000_0000 && -1 <= after < nid
    requires Below(KidsIds(kids), nid) && NonNegative(KidsIds(kids)) && WordValues(Flat(kids)) && id in KidsIds(kids)
    ensures id in pages && Encodable(pages[id])
    decreases kids
  {
    assert kids[0].val < kids[0];
    assert Ids(kids[0].val) <= KidsIds(kids) && KidsIds(kids[1..]) <= KidsIds(kids);
    ChainBounds(WEAK, kids[1..], h, kids[0].key, hi);
    WordParts(Items(kids[0].val), Flat(kids[1..]));
    FirstInside(kids[1..], after);
    hide Encodable, WordValues, Linked, Stored, Ordered;
    if id in Ids(kids[0].val) {
      PageEncodable(pages, nid, kids[0].val, false, h, lo, kids[0].key, FirstOf(kids[1..], after), id);
    } else {
      KidPageEncodable(pages, nid, kids[1..], h, kids[0].key, hi, after, id);
    }
  }

  lemma {:induction false} WordParts(a: seq<Entry<Value>>, b: seq<Entry<Value>>)
    requires WordValues(a + b)
    ensures WordValues(a) && WordValues(b)
  {
    hide IsWord;
    forall i | 0 <= i < |a| ensures IsWord(a[i].val) {
      assert (a + b)[i] == a[i];
    }
    forall i | 0 <= i < |b| ensures IsWord(b[i].val) {
      assert (a + b)[|a| + i] == b[i];
    }
  }

  /** The leaf behind a stretch of kids is one of theirs, or the one behind all of them. */
  lemma {:induction false} FirstInside(kids: seq<Entry<Tree>>, after: PageId)
    ensures FirstOf(kids, after) == after || FirstOf(kids, after) in KidsIds(kids)
  {
    if |kids| > 0 {
      FirstIn(kids[0].val);
    }
  }

  lemma {:induction false} FirstIn(t: Tree)
    ensures FirstLeaf(t) in Ids(t)
    decreases t
  {
    if t.Inner? && |t.kids| > 0 {
      assert t.kids[0].val < t.kids[0];
      FirstIn(t.kids[0].val);
    }
  }
}
