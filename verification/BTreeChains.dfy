/** Deletion in pages, and the chain of leaf pages that listings and range queries walk. */
module BTreeChains {
  import opened Options
  import opened Entries
  import opened BTreeShape
  import opened BTreeInsert
  import opened BTreeSafety
  import opened BTreeNode
  import opened BTreePages
  import opened BTreeIds
  import opened BTreeTidy
  import opened BTreeOps
  import opened BTreeRange
  import opened BTreeStep

  // ---------------------------------------------------------------- deletion

  lemma {:induction false} DeleteSame(t: Tree, key: int)
    ensures Ids(Delete(t, key)) == Ids(t) && Delete(t, key).id == t.id
    ensures FirstLeaf(Delete(t, key)) == FirstLeaf(t)
    ensures Distinct(t) ==> Distinct(Delete(t, key))
    decreases t
  {
    if t.Inner? {
      var kids, i := t.kids, Upper(t.kids, key);
      if i < |kids| {
        DeleteSame(kids[i].val, key);
        SwapKid(kids, i, Delete(kids[i].val, key));
      }
    }
  }

  lemma {:induction false} SwapKid(kids: seq<Entry<Tree>>, i: nat, u: Tree)
    requires i < |kids| && Ids(u) == Ids(kids[i].val) && FirstLeaf(u) == FirstLeaf(kids[i].val)
    requires Distinct(kids[i].val) ==> Distinct(u)
    ensures var ks := kids[i := Entry(kids[i].key, u)];
            && KidsIds(ks) == KidsIds(kids)
            && (KidsDistinct(kids) ==> KidsDistinct(ks))
            && FirstLeaf(ks[0].val) == FirstLeaf(kids[0].val)
  {
    var e := Entry(kids[i].key, u);
    assert kids[i := e] == kids[..i] + [e] + kids[i + 1..];
    Parted(kids, i);
    IdsThree(kids[..i], [kids[i]], kids[i + 1..]);
    IdsThree(kids[..i], [e], kids[i + 1..]);
    IdsOne(e);
    IdsOne(kids[i]);
  }

  /** The pages show a subtree whose leaf chain ends at `after`. */
  ghost predicate Hangs(pages: Pages, t: Tree, isRoot: bool, after: PageId) {
    Stored(pages, t, isRoot) && Linked(pages, t, after) && Distinct(t)
  }

  /** The kids of a node hang side by side. */
  ghost predicate Abreast(pages: Pages, a: seq<Entry<Tree>>, e: Entry<Tree>, b: seq<Entry<Tree>>, after: PageId) {
    && KidsStored(pages, a) && KidsLinked(pages, a, FirstLeaf(e.val)) && KidsDistinct(a)
    && Hangs(pages, e.val, false, FirstOf(b, after))
    && KidsStored(pages, b) && KidsLinked(pages, b, after) && KidsDistinct(b)
    && KidsIds(a) !! Ids(e.val) && KidsIds(a) !! KidsIds(b) && Ids(e.val) !! KidsIds(b)
  }

  lemma {:induction false} Abreastness(pages: Pages, a: seq<Entry<Tree>>, e: Entry<Tree>, b: seq<Entry<Tree>>, after: PageId)
    ensures Abreast(pages, a, e, b, after) <==>
            var ks := a + [e] + b; KidsStored(pages, ks) && KidsLinked(pages, ks, after) && KidsDistinct(ks)
  {
    hide Ids, Linked, Stored, Distinct;
    IdsThree(a, [e], b);
    IdsOne(e);
    LinkedThree(pages, a, [e], b, after);
    StoredThree(pages, a, [e], b);
    assert [e][1..] == [];
    assert FirstOf([e], 0) == FirstLeaf(e.val);
    assert KidsStored(pages, [e]) <==> Stored(pages, [e][0].val, false);
  }

  lemma {:induction false} KidHangs(pages: Pages, t: Tree, isRoot: bool, after: PageId, i: nat)
    requires Hangs(pages, t, isRoot, after) && t.Inner? && i < |t.kids|
    ensures Abreast(pages, t.kids[..i], t.kids[i], t.kids[i + 1..], after)
  {
    Parted(t.kids, i);
    Abreastness(pages, t.kids[..i], t.kids[i], t.kids[i + 1..], after);
  }

  /** A kid changed in place without changing its pages' ids or its first leaf. */
  lemma {:induction false} KidSwapped(p0: Pages, p1: Pages, t: Tree, isRoot: bool, after: PageId, i: nat, u: Tree)
    requires Hangs(p0, t, isRoot, after) && t.Inner? && i < |t.kids|
    requires u.id == t.kids[i].val.id && Ids(u) == Ids(t.kids[i].val) && FirstLeaf(u) == FirstLeaf(t.kids[i].val)
    requires OnlyAt(p0, p1, Ids(t.kids[i].val), 0, 0)
    requires Hangs(p1, u, false, FirstOf(t.kids[i + 1..], after))
    ensures Hangs(p1, Inner(t.id, t.kids[i := Entry(t.kids[i].key, u)]), isRoot, after)
    ensures OnlyAt(p0, p1, Ids(t), 0, 0)
  {
    var kids := t.kids;
    var a, e, b := kids[..i], Entry(kids[i].key, u), kids[i + 1..];
    KidHangs(p0, t, isRoot, after, i);
    SideFrame(p0, p1, a, FirstLeaf(u), Ids(u));
    SideFrame(p0, p1, b, after, Ids(u));
    Abreastness(p1, a, e, b, after);
    assert kids[i := e] == a + [e] + b;
    NodeSwapped(p0, p1, t, isRoot, i, u);
  }

  lemma {:induction false} NodeSwapped(p0: Pages, p1: Pages, t: Tree, isRoot: bool, i: nat, u: Tree)
    requires Stored(p0, t, isRoot) && Distinct(t) && t.Inner? && i < |t.kids|
    requires u.id == t.kids[i].val.id && Ids(u) == Ids(t.kids[i].val) && FirstLeaf(u) == FirstLeaf(t.kids[i].val)
    requires Distinct(u) && OnlyAt(p0, p1, Ids(u), 0, 0)
    requires KidsStored(p1, t.kids[i := Entry(t.kids[i].key, u)])
    ensures var v := Inner(t.id, t.kids[i := Entry(t.kids[i].key, u)]); Stored(p1, v, isRoot) && Distinct(v)
    ensures OnlyAt(p0, p1, Ids(t), 0, 0)
  {
    SwapKid(t.kids, i, u);
    IdsOfKid(t.kids, i);
    assert PtrSlots(t.kids[i := Entry(t.kids[i].key, u)]) == PtrSlots(t.kids);
  }

  lemma {:induction false} SideFrame(p0: Pages, p1: Pages, kids: seq<Entry<Tree>>, after: PageId, ids: set<PageId>)
    requires OnlyAt(p0, p1, ids, 0, 0) && KidsIds(kids) !! ids
    requires KidsStored(p0, kids) && KidsLinked(p0, kids, after)
    ensures KidsStored(p1, kids) && KidsLinked(p1, kids, after)
  {
    assert Same(p0, p1, KidsIds(kids));
    KidsStoredFrame(p0, p1, kids);
    KidsLinkedFrame(p0, p1, kids, after);
  }

  // ---------------------------------------------------------------- the leaf chain

  /** From page `p` on, following `next`, the pages show exactly the leaves `ls`. */
  ghost predicate LeafChain(pages: Pages, p: PageId, ls: seq<Tree>)
    decreases |ls|
  {
    if |ls| == 0 then p == -1
    else
      && ls[0].Leaf?
      && p == ls[0].id >= 0
      && p in pages
      && Stored(pages, ls[0], pages[p].isRoot)
      && LeafChain(pages, pages[p].next, ls[1..])
  }

  /** The `next` pointers run through all leaves of a tree from left to right. */
  lemma {:induction false} TreeChain(pages: Pages, t: Tree, after: PageId, rest: seq<Tree>)
    requires Linked(pages, t, after) && NonNegative(Ids(t))
    requires LeafChain(pages, after, rest) && KidsThere(t)
    ensures LeafChain(pages, FirstLeaf(t), Leaves(t) + rest)
    decreases t
  {
    match t {
      case Leaf(_, _) => assert ([t] + rest)[1..] == rest;
      case Inner(_, kids) => KidsChain(pages, kids, after, rest);
    }
  }

  lemma {:induction false} KidsChain(pages: Pages, kids: seq<Entry<Tree>>, after: PageId, rest: seq<Tree>)
    requires KidsLinked(pages, kids, after) && NonNegative(KidsIds(kids))
    requires LeafChain(pages, after, rest) && AllKidsThere(kids)
    ensures LeafChain(pages, FirstOf(kids, after), LeavesOf(kids) + rest)
    decreases kids
  {
    if |kids| == 0 {
      assert LeavesOf(kids) + rest == rest;
    } else {
      assert kids[0].val < kids[0];
      ChainParts(pages, kids, after);
      hide LeafChain, KidsLinked, KidsIds, NonNegative, AllKidsThere, Linked, Ids, Leaves;
      KidsChain(pages, kids[1..], after, rest);
      TreeChain(pages, kids[0].val, FirstOf(kids[1..], after), LeavesOf(kids[1..]) + rest);
      assert LeavesOf(kids) + rest == Leaves(kids[0].val) + (LeavesOf(kids[1..]) + rest);
    }
  }

  lemma {:induction false} ChainParts(pages: Pages, kids: seq<Entry<Tree>>, after: PageId)
    requires |kids| > 0 && KidsLinked(pages, kids, after) && NonNegative(KidsIds(kids)) && AllKidsThere(kids)
    ensures Linked(pages, kids[0].val, FirstOf(kids[1..], after))
    ensures NonNegative(Ids(kids[0].val)) && KidsThere(kids[0].val)
    ensures KidsLinked(pages, kids[1..], after) && NonNegative(KidsIds(kids[1..])) && AllKidsThere(kids[1..])
  {
    hide Linked, Ids, KidsThere;
  }

  /** A search for a key below the upper bound ends at a leaf. */
  lemma {:induction false} StartExists(c: Config, t: Tree, h: nat, lo: int, hi: int, key: int)
    requires Ordered(c, t, h, lo, hi) && (t.Inner? ==> key < hi)
    ensures LeavesFrom(t, key) != []
    decreases t
  {
    if t.Inner? {
      var kids, i := t.kids, Upper(t.kids, key);
      ChainBounds(c, kids, h - 1, lo, hi);
      ChainAt(c, kids, i, h - 1, lo, hi);
      StartExists(c, kids[i].val, h - 1, LoOf(kids, i, lo), kids[i].key, key);
    }
  }

  /** The chain from the leaf a search for `key` ends at. */
  lemma {:induction false} ChainFrom(pages: Pages, c: Config, t: Tree, h: nat, lo: int, hi: int, isRoot: bool,
                                     after: PageId, rest: seq<Tree>, key: int)
    requires Stored(pages, t, isRoot) && Linked(pages, t, after) && NonNegative(Ids(t))
    requires LeafChain(pages, after, rest)
    requires Ordered(c, t, h, lo, hi) && (t.Inner? ==> key < hi)
    ensures var ls := LeavesFrom(t, key); ls != [] && LeafChain(pages, ls[0].id, ls + rest)
    decreases t
  {
    hide Ordered, Chain, Stored, Linked, Ids, KidsIds, KidsThere, KidsStored, KidsLinked;
    StartExists(c, t, h, lo, hi, key);
    match t {
      case Leaf(_, _) => TreeChain(pages, t, after, rest) by { OrderedKidsThere(c, t, h, lo, hi); }
      case Inner(_, kids) =>
        var i := Upper(kids, key);
        RouteFacts(c, t, h, lo, hi, key);
        assert LeavesFrom(t, key) == LeavesFrom(kids[i].val, key) + LeavesOf(kids[i + 1..]);
        hide LeavesFrom, LeavesOf, LeafChain, Upper;
        KidChainFacts(pages, t, isRoot, after, i);
        KidsChain(pages, kids[i + 1..], after, rest);
        ChainFrom(pages, c, kids[i].val, h - 1, LoOf(kids, i, lo), kids[i].key, false, FirstOf(kids[i + 1..], after),
                  LeavesOf(kids[i + 1..]) + rest, key);
        assert LeavesFrom(t, key) + rest == LeavesFrom(kids[i].val, key) + (LeavesOf(kids[i + 1..]) + rest);
    }
  }

  lemma {:induction false} RouteFacts(c: Config, t: Tree, h: nat, lo: int, hi: int, key: int)
    requires Ordered(c, t, h, lo, hi) && t.Inner? && key < hi
    ensures var kids, i := t.kids, Upper(t.kids, key);
            && h > 0 && i < |kids| && key < kids[i].key
            && Ordered(c, kids[i].val, h - 1, LoOf(kids, i, lo), kids[i].key)
            && AllKidsThere(kids[i + 1..])
  {
    var kids, i := t.kids, Upper(t.kids, key);
    ChainBounds(c, kids, h - 1, lo, hi);
    ChainAt(c, kids, i, h - 1, lo, hi);
    ChainKidsThere(c, kids[i + 1..], h - 1, kids[i].key, hi);
  }

  lemma {:induction false} KidChainFacts(pages: Pages, t: Tree, isRoot: bool, after: PageId, i: nat)
    requires Stored(pages, t, isRoot) && Linked(pages, t, after) && t.Inner? && i < |t.kids|
    ensures Linked(pages, t.kids[i].val, FirstOf(t.kids[i + 1..], after)) && KidsLinked(pages, t.kids[i + 1..], after)
    ensures KidsStored(pages, t.kids[i + 1..]) && Stored(pages, t.kids[i].val, false)
    ensures NonNegative(Ids(t)) ==> NonNegative(Ids(t.kids[i].val)) && NonNegative(KidsIds(t.kids[i + 1..]))
  {
    var kids := t.kids;
    Parted(kids, i);
    IdsThree(kids[..i], [kids[i]], kids[i + 1..]);
    IdsOne(kids[i]);
    LinkedThree(pages, kids[..i], [kids[i]], kids[i + 1..], after);
    StoredThree(pages, kids[..i], [kids[i]], kids[i + 1..]);
    assert [kids[i]][1..] == [];
  }

  // ---------------------------------------------------------------- results

  function SlotOf(key: int, v: Option<Value>): Option<Slot> {
    match v
    case None => None
    case Some(x) => Some(Entry(key, Val(x)))
  }

  lemma {:induction false} DeleteMeans(t: Tree, key: int)
    requires SearchTree(WEAK, t)
    ensures SearchTree(WEAK, Delete(t, key))
    ensures Items(Delete(t, key)) == Remove(Items(t), key)
    ensures Lookup(t, key) == Find(Items(t), key)
    ensures SearchTree(EXACT, t) && (t.Leaf? || KeepsMax(t, key)) ==> SearchTree(EXACT, Delete(t, key))
  {
    LookupIs(WEAK, t, Height(t), KEY_MIN, Hi(t), key);
    DeleteRoot(WEAK, t, key);
    if SearchTree(EXACT, t) && (t.Leaf? || KeepsMax(t, key)) {
      DeleteRoot(EXACT, t, key);
    }
  }

  lemma {:induction false} DeleteReady(pages: Pages, nid: PageId, root: PageId, t: Tree)
    requires ShowsTree(pages, nid, root, t)
    ensures root == t.id != -1 && Hangs(pages, t, true, -1) && AllOf(Leaves(t)) == Items(t)
  {
    assert t.id in Ids(t);
    LeavesItems(t);
  }

  /** What the pages show after a deletion. */
  lemma {:induction false} DeleteShows(p0: Pages, p1: Pages, nid: PageId, root: PageId, t: Tree, key: int)
    requires ShowsTree(p0, nid, root, t) && Hangs(p1, Delete(t, key), true, -1)
    ensures var u := Delete(t, key);
            && ShowsTree(p1, nid, root, u) && AllOf(Leaves(u)) == Remove(Items(t), key)
            && Lookup(t, key) == Find(Items(t), key) && (u.Leaf? <==> t.Leaf?)
            && (SearchTree(EXACT, t) && (t.Leaf? || KeepsMax(t, key)) ==> SearchTree(EXACT, u))
  {
    assert Delete(t, key).Leaf? <==> t.Leaf?;
    hide Stored, Linked, Distinct, Ordered, Delete, Ids, Items, Lookup, AllOf, Leaves, Remove;
    DeleteSame(t, key);
    DeleteMeans(t, key);
    LeavesItems(Delete(t, key));
  }

  lemma {:induction false} DeleteRoot(c: Config, t: Tree, key: int)
    requires c.min == 0 && SearchTree(c, t) && (c.tight ==> t.Leaf? || KeepsMax(t, key))
    ensures SearchTree(c, Delete(t, key)) && Items(Delete(t, key)) == Remove(Items(t), key)
  {
    var u := Delete(t, key);
    DeleteIs(c, t, Height(t), KEY_MIN, Hi(t), key);
    HeightIs(c, u, Height(t), KEY_MIN, Hi(t));
    if t.Leaf? {
      RemoveShape(t.kvs, key, KEY_MIN, Hi(t));
    } else {
      OrderedSep(c, u, Height(t), KEY_MIN, Hi(t));
    }
  }

  /** Trees that insertions alone leave have exact separators, and both kinds are search trees. */
  lemma {:induction false} TightIsExact(t: Tree)
    ensures SearchTree(TIGHT, t) ==> SearchTree(EXACT, t)
    ensures SearchTree(EXACT, t) ==> SearchTree(WEAK, t)
  {
    if SearchTree(TIGHT, t) {
      Relax(TIGHT, EXACT, t, Height(t), KEY_MIN, Hi(t));
    }
    if SearchTree(EXACT, t) {
      Relax(EXACT, WEAK, t, Height(t), KEY_MIN, Hi(t));
    }
  }

  lemma {:induction false} ShowsStored(pages: Pages, nid: PageId, root: PageId, t: Tree)
    requires ShowsTree(pages, nid, root, t)
    ensures Stored(pages, t, true) && t.id == root >= 0
    ensures Ordered(WEAK, t, Height(t), KEY_MIN, Hi(t)) && NonNegative(Ids(t))
  {
  }

  lemma {:induction false} PtrStep(pages: Pages, t: Tree, h: nat, lo: int, hi: int, isRoot: bool, key: int)
    requires Stored(pages, t, isRoot) && Ordered(WEAK, t, h, lo, hi) && NonNegative(Ids(t))
    requires t.Inner? && Upper(t.kids, key) < |t.kids|
    ensures var i := Upper(t.kids, key);
            var u := t.kids[i].val;
            && h > 0 && Stored(pages, u, false) && Ordered(WEAK, u, h - 1, LoOf(t.kids, i, lo), t.kids[i].key)
            && NonNegative(Ids(u)) && u.id != -1
            && LeavesFrom(u, key) != [] && LeavesFrom(t, key) != [] && LeavesFrom(t, key)[0] == LeavesFrom(u, key)[0]
  {
    var i := Upper(t.kids, key);
    ChainAt(WEAK, t.kids, i, h - 1, lo, hi);
    IdsOfKid(t.kids, i);
    StartExists(WEAK, t.kids[i].val, h - 1, LoOf(t.kids, i, lo), t.kids[i].key, key);
  }

  /** Below `root` the pages show the slots of `t`, and the leaf chain from its first leaf is `ls`. */
  ghost predicate Walkable(pages: Pages, root: PageId, t: Tree, ls: seq<Tree>) {
    && t.id == root >= 0
    && Stored(pages, t, true) && KidsThere(t)
    && ls != [] && ls[0].id == FirstLeaf(t) && LeafChain(pages, FirstLeaf(t), ls)
  }

  /** The leaves that the leaf chain runs through, and what they list. */
  lemma {:induction false} ChainedWalk(pages: Pages, nid: PageId, root: PageId, u: Tree, v: Tree)
    requires Chained(pages, nid, root, u, v)
    ensures Walkable(pages, root, u, Leaves(v)) && AllOf(Leaves(v)) == Items(v)
  {
    assert LeafChain(pages, -1, []);
    TreeChain(pages, v, -1, []);
    assert Leaves(v) + [] == Leaves(v);
    LeavesItems(v);
    FirstIsFirst(v);
  }

  /** What the pages show after an insertion at the root, for every key. */
  lemma {:induction false} InsertDone(p0: Pages, p2: Pages, nid: PageId, n: PageId, root: PageId, t: Tree, key: int, value: Value)
    requires SearchTree(WEAK, t) && KEY_MIN <= key < KEY_MAX
    requires RootInserted(p0, p2, nid, n, root, t, Insert(CAP, t, key, value, nid).0, TidyInsert(CAP, t, key, value, nid).0)
    ensures var u, ls := Insert(CAP, t, key, value, nid).0, Leaves(TidyInsert(CAP, t, key, value, nid).0);
            && n >= 0 && root == u.id != -1 && Stored(p2, u, true) && Walkable(p2, root, u, ls)
            && (SafeInsert(CAP, t, key) <==> ShowsTree(p2, n, root, u) && ls == Leaves(u))
            && (!HitsHalfEnd(CAP, t, key) <==> AllOf(ls) == Replace(Items(t), key, value))
            && (!HitsHalfEnd(CAP, t, key) <==> Sorted(AllOf(ls)))
            && (forall q :: Lookup(u, q) == Find(if HitsHalfEnd(CAP, t, key) then Items(t) else AllOf(ls), q))
            && (SafeInsert(CAP, t, key) && SearchTree(TIGHT, t) ==> SearchTree(TIGHT, u))
            && (SafeInsert(CAP, t, key) && SearchTree(EXACT, t) ==> SearchTree(EXACT, u))
            && OnlyAt(p0, p2, Ids(t), nid, n)
  {
    var u, v := Insert(CAP, t, key, value, nid).0, TidyInsert(CAP, t, key, value, nid).0;
    hide Insert, TidyInsert, SafeInsert, HitsHalfEnd, Sorted, Find, Lookup, Replace, Items, AllOf, Leaves, Stored, Linked, Ordered,
      Walkable, LeafChain, Ids, Distinct, Below, KidsThere, OnlyAt;
    InsertMeans(t, key, value, nid);
    ChainedWalk(p2, n, root, u, v);
    ChainedSearch(p2, n, root, u);
    forall q ensures Lookup(u, q) == Find(if HitsHalfEnd(CAP, t, key) then Items(t) else Items(v), q) {
      InsertAnswers(WEAK, t, key, value, nid, q);
    }
  }

  /** What a listing of a whole tree walks. */
  lemma {:induction false} WholeChain(pages: Pages, nid: PageId, root: PageId, t: Tree)
    requires ShowsTree(pages, nid, root, t)
    ensures Walkable(pages, root, t, Leaves(t)) && AllOf(Leaves(t)) == Items(t) && Sorted(Items(t))
  {
    ChainedSearch(pages, nid, root, t);
    ChainedWalk(pages, nid, root, t, t);
    ItemsOrdered(WEAK, t, Height(t), KEY_MIN, Hi(t));
  }

  lemma {:induction false} FirstIsFirst(t: Tree)
    requires KidsThere(t)
    ensures Leaves(t) != [] && Leaves(t)[0].id == FirstLeaf(t)
    decreases t
  {
    if t.Inner? {
      FirstIsFirst(t.kids[0].val);
    }
  }

  /** One leaf of the chain, and what comes behind it. */
  lemma {:induction false} LeafNext(pages: Pages, p: PageId, ls: seq<Tree>, acc: seq<Entry<Value>>)
    requires ls != [] && LeafChain(pages, p, ls)
    ensures p in pages && ls[0].Leaf? && pages[p].values == ValSlots(ls[0].kvs) && pages[p].t == LeafNode
    ensures acc + AllOf(ls) == acc + ls[0].kvs + AllOf(ls[1..])
    ensures pages[p].next == -1 <==> ls[1..] == []
    ensures ls[1..] == [] ==> acc + AllOf(ls) == acc + ls[0].kvs
    ensures ls[1..] != [] ==>
              var q := pages[p].next;
              && q == ls[1].id && q in pages && ls[1].Leaf? && Stored(pages, ls[1], pages[q].isRoot) && KidsThere(ls[1])
              && FirstLeaf(ls[1]) == ls[1..][0].id && LeafChain(pages, FirstLeaf(ls[1]), ls[1..])
  {
    assert AllOf(ls) == ls[0].kvs + AllOf(ls[1..]);
    if ls[1..] != [] {
      assert ls[1..][0] == ls[1];
    }
  }

  lemma {:induction false} FirstKid(pages: Pages, t: Tree, isRoot: bool)
    requires Stored(pages, t, isRoot) && t.Inner? && KidsThere(t)
    ensures var u := t.kids[0].val;
            && Slots(t)[0].val == Pointer(u.id)
            && u.id in pages && Stored(pages, u, pages[u.id].isRoot) && KidsThere(u) && FirstLeaf(u) == FirstLeaf(t)
  {
    assert Stored(pages, t.kids[0].val, false);
  }

  lemma {:induction false} RangeMeans(pages: Pages, nid: PageId, root: PageId, t: Tree, from: int, to: int)
    requires ShowsTree(pages, nid, root, t)
    ensures var ls := LeavesFrom(t, from);
            && (ls != [] ==> LeafChain(pages, ls[0].id, ls))
            && (ls == [] ==> RangeOver(ls, from, to) == [])
            && [] + RangeOver(ls, from, to) == RangeTree(t, from, to) == RangeOver(ls, from, to)
    ensures RangeTree(t, from, to) <= Between(Items(t), from, to)
    ensures RangeTree(t, from, to) == Between(Items(t), from, to) <==> NoGap(LeavesFrom(t, from), from, to)
    ensures SearchTree(EXACT, t) ==> RangeTree(t, from, to) == Between(Items(t), from, to)
  {
    RangeIsPrefix(WEAK, t, from, to);
    if SearchTree(EXACT, t) {
      RangeTight(EXACT, t, from, to);
    }
    assert LeafChain(pages, -1, []);
    if t.Leaf? || from < Hi(t) {
      ChainFrom(pages, WEAK, t, Height(t), KEY_MIN, Hi(t), true, -1, [], from);
      assert LeavesFrom(t, from) + [] == LeavesFrom(t, from);
    } else {
      LeavesAbove(WEAK, t, Height(t), KEY_MIN, Hi(t), from);
    }
  }

  lemma {:induction false} RangeStep(ls: seq<Tree>, acc: seq<Entry<Value>>, from: int, to: int)
    requires ls != []
    ensures var w := Window(Items(ls[0]), from, to);
            && acc + RangeOver(ls, from, to) == (if w == [] then acc else acc + w + RangeOver(ls[1..], from, to))
            && (w == [] ==> acc + w == acc)
            && (ls[1..] == [] ==> acc + RangeOver(ls, from, to) == acc + w)
            && |acc + w| == |acc| + |w|
  {
  }
}
