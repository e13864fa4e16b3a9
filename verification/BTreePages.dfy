/** How a tree lies in linked pages: which page holds which node, which pages a tree uses, and the leaf chain. */
module BTreePages {
  import opened Options
  import opened Entries
  import opened BTreeShape
  import opened BTreeInsert
  import opened BTreeSafety
  import opened BTreeNode

  type Pages = map<PageId, Page>

  // ---------------------------------------------------------------- slots

  function PtrSlots(kids: seq<Entry<Tree>>): (s: seq<Slot>)
    ensures |s| == |kids|
    ensures forall i :: 0 <= i < |s| ==> s[i] == Entry(kids[i].key, Pointer(kids[i].val.id))
  {
    seq(|kids|, i requires 0 <= i < |kids| => Entry(kids[i].key, Pointer(kids[i].val.id)))
  }

  function ValSlots(kvs: seq<Entry<Value>>): (s: seq<Slot>)
    ensures |s| == |kvs|
    ensures forall i :: 0 <= i < |s| ==> s[i] == Entry(kvs[i].key, Val(kvs[i].val))
  {
    seq(|kvs|, i requires 0 <= i < |kvs| => Entry(kvs[i].key, Val(kvs[i].val)))
  }

  function Slots(t: Tree): seq<Slot> {
    if t.Leaf? then ValSlots(t.kvs) else PtrSlots(t.kids)
  }

  function TypeOf(t: Tree): NodeType {
    if t.Leaf? then LeafNode else InternalNode
  }

  lemma {:induction false} PtrUpper(kids: seq<Entry<Tree>>, key: int)
    ensures Upper(PtrSlots(kids), key) == Upper(kids, key)
  {
    UpperIs(PtrSlots(kids), key, Upper(kids, key));
  }

  lemma {:induction false} PtrReplace(kids: seq<Entry<Tree>>, key: int, t: Tree)
    ensures PtrSlots(Replace(kids, key, t)) == Replace(PtrSlots(kids), key, Pointer(t.id))
  {
    PositionIs(PtrSlots(kids), key, Position(kids, key));
  }

  lemma {:induction false} ValReplace(kvs: seq<Entry<Value>>, key: int, v: Value)
    ensures ValSlots(Replace(kvs, key, v)) == Replace(ValSlots(kvs), key, Val(v))
  {
    PositionIs(ValSlots(kvs), key, Position(kvs, key));
  }

  lemma {:induction false} ValRemove(kvs: seq<Entry<Value>>, key: int)
    ensures ValSlots(Remove(kvs, key)) == Remove(ValSlots(kvs), key)
    ensures Find(ValSlots(kvs), key) == match Find(kvs, key) case None => None case Some(v) => Some(Val(v))
  {
    assert IndexOf(ValSlots(kvs), key) == IndexOf(kvs, key);
  }

  /** Popping the last slot and inserting it again under a raised key is the tree's bump. */
  lemma {:induction false} PtrBump(kids: seq<Entry<Tree>>, key: int)
    requires |kids| > 0 && Sorted(kids) && Upper(kids, key) == |kids|
    ensures var s := PtrSlots(kids);
            InsertNew(s[..|s| - 1], key + 1, Last(s).val) == PtrSlots(Bump(kids, key))
  {
    var s := PtrSlots(kids)[..|kids| - 1];
    PositionIs(s, key + 1, |s|);
    assert Bump(kids, key) == kids[..|kids| - 1] + [Entry(key + 1, Last(kids).val)];
  }

  /** After a bump the search for the key follows the last slot. */
  lemma {:induction false} BumpRoutes(kids: seq<Entry<Tree>>, key: int)
    requires |kids| > 0 && Sorted(kids) && Upper(kids, key) == |kids|
    ensures var s := PtrSlots(Bump(kids, key));
            && Upper(s, key) == |kids| - 1 == Route(kids, key)
            && s[|kids| - 1].val == Pointer(kids[|kids| - 1].val.id)
  {
    UpperIs(PtrSlots(Bump(kids, key)), key, |kids| - 1);
  }

  lemma {:induction false} PtrInstall(kids: seq<Entry<Tree>>, i: nat, g: Grown)
    requires i < |kids| && g.left.id == kids[i].val.id
    ensures g.right.None? ==> PtrSlots(Install(kids, i, g)) == PtrSlots(kids)
    ensures g.right.Some? ==>
              PtrSlots(Install(kids, i, g)) ==
              Replace(Replace(PtrSlots(kids), Sep(g.left), Pointer(g.left.id)), Sep(g.right.value), Pointer(g.right.value.id))
  {
    var kept := kids[i := Entry(kids[i].key, g.left)];
    assert PtrSlots(kept) == PtrSlots(kids);
    if g.right.Some? {
      PtrReplace(kept, Sep(g.left), g.left);
      PtrReplace(Replace(kept, Sep(g.left), g.left), Sep(g.right.value), g.right.value);
    }
  }

  // ---------------------------------------------------------------- pages of a tree

  /** Every node of `t` is written on its own page; only the root's page is marked as root. */
  ghost predicate Stored(pages: Pages, t: Tree, isRoot: bool)
    decreases t
  {
    && t.id in pages
    && pages[t.id] == Page(TypeOf(t), isRoot, pages[t.id].next, t.id, Slots(t))
    && (t.Inner? ==> pages[t.id].next == -1 && KidsStored(pages, t.kids))
  }

  ghost predicate KidsStored(pages: Pages, kids: seq<Entry<Tree>>)
    decreases kids
  {
    forall i :: 0 <= i < |kids| ==> assert kids[i].val < kids[i]; Stored(pages, kids[i].val, false)
  }

  ghost function Ids(t: Tree): set<PageId>
    decreases t
  {
    {t.id} + if t.Leaf? then {} else KidsIds(t.kids)
  }

  ghost function KidsIds(kids: seq<Entry<Tree>>): set<PageId>
    decreases kids
  {
    if |kids| == 0 then {}
    else
      assert kids[0].val < kids[0];
      Ids(kids[0].val) + KidsIds(kids[1..])
  }

  /** No page is reached twice. */
  ghost predicate Distinct(t: Tree)
    decreases t
  {
    t.Inner? ==> t.id !in KidsIds(t.kids) && KidsDistinct(t.kids)
  }

  ghost predicate KidsDistinct(kids: seq<Entry<Tree>>)
    decreases kids
  {
    |kids| > 0 ==>
      assert kids[0].val < kids[0];
      Distinct(kids[0].val) && Ids(kids[0].val) !! KidsIds(kids[1..]) && KidsDistinct(kids[1..])
  }

  function FirstLeaf(t: Tree): PageId
    decreases t
  {
    if t.Leaf? || |t.kids| == 0 then t.id else FirstLeaf(t.kids[0].val)
  }

  /** The first leaf of the kids, or the one behind them when there are none. */
  function FirstOf(kids: seq<Entry<Tree>>, after: PageId): PageId {
    if |kids| == 0 then after else FirstLeaf(kids[0].val)
  }

  /** Every leaf of `t` is on its page and points to the leaf to its right, the last one to `after`. */
  ghost predicate Linked(pages: Pages, t: Tree, after: PageId)
    decreases t
  {
    if t.Leaf? then t.id in pages && pages[t.id] == Page(LeafNode, pages[t.id].isRoot, after, t.id, Slots(t))
    else KidsLinked(pages, t.kids, after)
  }

  ghost predicate KidsLinked(pages: Pages, kids: seq<Entry<Tree>>, after: PageId)
    decreases kids
  {
    |kids| > 0 ==>
      assert kids[0].val < kids[0];
      Linked(pages, kids[0].val, FirstOf(kids[1..], after)) && KidsLinked(pages, kids[1..], after)
  }

  // ---------------------------------------------------------------- stretches of kids

  lemma {:induction false} IdsConcat(a: seq<Entry<Tree>>, b: seq<Entry<Tree>>)
    ensures KidsIds(a + b) == KidsIds(a) + KidsIds(b)
    ensures KidsDistinct(a + b) <==> KidsDistinct(a) && KidsDistinct(b) && KidsIds(a) !! KidsIds(b)
  {
    if |a| == 0 {
      assert a + b == b;
    } else {
      IdsConcat(a[1..], b);
      assert (a + b)[1..] == a[1..] + b;
    }
  }

  lemma {:induction false} IdsThree(a: seq<Entry<Tree>>, x: seq<Entry<Tree>>, b: seq<Entry<Tree>>)
    ensures KidsIds(a + x + b) == KidsIds(a) + KidsIds(x) + KidsIds(b)
    ensures KidsDistinct(a + x + b) <==>
            && KidsDistinct(a) && KidsDistinct(x) && KidsDistinct(b)
            && KidsIds(a) !! KidsIds(x) && KidsIds(a) !! KidsIds(b) && KidsIds(x) !! KidsIds(b)
  {
    IdsConcat(a, x);
    IdsConcat(a + x, b);
  }

  lemma {:induction false} IdsOne(e: Entry<Tree>)
    ensures KidsIds([e]) == Ids(e.val) && (KidsDistinct([e]) <==> Distinct(e.val))
  {
    assert [e][1..] == [];
  }

  lemma {:induction false} IdsTwo(d: Entry<Tree>, e: Entry<Tree>)
    ensures KidsIds([d, e]) == Ids(d.val) + Ids(e.val)
    ensures KidsDistinct([d, e]) <==> Distinct(d.val) && Distinct(e.val) && Ids(d.val) !! Ids(e.val)
  {
    assert [d, e][1..] == [e];
    IdsOne(e);
  }

  lemma {:induction false} IdsOfKid(kids: seq<Entry<Tree>>, i: nat)
    requires i < |kids|
    ensures Ids(kids[i].val) <= KidsIds(kids)
    ensures kids[i].val.id in KidsIds(kids)
    decreases i
  {
    if i > 0 {
      IdsOfKid(kids[1..], i - 1);
    }
  }

  lemma {:induction false} LinkedConcat(pages: Pages, a: seq<Entry<Tree>>, b: seq<Entry<Tree>>, after: PageId)
    ensures KidsLinked(pages, a + b, after) <==> KidsLinked(pages, a, FirstOf(b, after)) && KidsLinked(pages, b, after)
  {
    if |a| == 0 {
      assert a + b == b;
    } else {
      LinkedConcat(pages, a[1..], b, after);
      assert (a + b)[1..] == a[1..] + b;
    }
  }

  lemma {:induction false} LinkedThree(pages: Pages, a: seq<Entry<Tree>>, x: seq<Entry<Tree>>, b: seq<Entry<Tree>>, after: PageId)
    requires |x| > 0
    ensures KidsLinked(pages, a + x + b, after) <==>
            && KidsLinked(pages, a, FirstOf(x, after))
            && KidsLinked(pages, x, FirstOf(b, after))
            && KidsLinked(pages, b, after)
  {
    LinkedConcat(pages, a + x, b, after);
    LinkedConcat(pages, a, x, FirstOf(b, after));
  }

  // ---------------------------------------------------------------- what a change of other pages leaves alone

  ghost predicate Same(pages: Pages, pages': Pages, ids: set<PageId>) {
    forall p :: p in ids && p in pages ==> p in pages' && pages'[p] == pages[p]
  }

  lemma {:induction false} StoredFrame(pages: Pages, pages': Pages, t: Tree, isRoot: bool)
    requires Stored(pages, t, isRoot) && Same(pages, pages', Ids(t))
    ensures Stored(pages', t, isRoot)
    decreases t
  {
    if t.Inner? {
      KidsStoredFrame(pages, pages', t.kids);
    }
  }

  lemma {:induction false} KidsStoredFrame(pages: Pages, pages': Pages, kids: seq<Entry<Tree>>)
    requires KidsStored(pages, kids) && Same(pages, pages', KidsIds(kids))
    ensures KidsStored(pages', kids)
    decreases kids
  {
    forall i | 0 <= i < |kids| ensures Stored(pages', kids[i].val, false) {
      assert kids[i].val < kids[i];
      IdsOfKid(kids, i);
      StoredFrame(pages, pages', kids[i].val, false);
    }
  }

  lemma {:induction false} LinkedFrame(pages: Pages, pages': Pages, t: Tree, after: PageId)
    requires Linked(pages, t, after) && Same(pages, pages', Ids(t))
    ensures Linked(pages', t, after)
    decreases t
  {
    if t.Inner? {
      KidsLinkedFrame(pages, pages', t.kids, after);
    }
  }

  lemma {:induction false} KidsLinkedFrame(pages: Pages, pages': Pages, kids: seq<Entry<Tree>>, after: PageId)
    requires KidsLinked(pages, kids, after) && Same(pages, pages', KidsIds(kids))
    ensures KidsLinked(pages', kids, after)
    decreases kids
  {
    if |kids| > 0 {
      assert kids[0].val < kids[0];
      LinkedFrame(pages, pages', kids[0].val, FirstOf(kids[1..], after));
      KidsLinkedFrame(pages, pages', kids[1..], after);
    }
  }

  /** The pages determine the tree: a store shows one tree at most below any page. */
  lemma {:induction false} StoredUnique(pages: Pages, t: Tree, u: Tree, isRoot: bool)
    requires t.id == u.id && Stored(pages, t, isRoot) && Stored(pages, u, isRoot)
    ensures t == u
    decreases t
  {
    match t {
      case Leaf(_, kvs) =>
        assert |kvs| == |ValSlots(kvs)| == |u.kvs|;
        forall i | 0 <= i < |kvs| ensures kvs[i] == u.kvs[i] {
          assert ValSlots(kvs)[i] == ValSlots(u.kvs)[i];
        }
      case Inner(_, kids) =>
        assert |kids| == |PtrSlots(kids)| == |u.kids|;
        forall i | 0 <= i < |kids| ensures kids[i] == u.kids[i] {
          assert PtrSlots(kids)[i] == PtrSlots(u.kids)[i];
          StoredUnique(pages, kids[i].val, u.kids[i].val, false);
        }
    }
  }
}
