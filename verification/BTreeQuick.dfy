/** Insertions that only change one leaf page, whatever tree the pages show: even one that reaches a page twice. */
module BTreeQuick {
  import opened Options
  import opened Entries
  import opened BTreeShape
  import opened BTreeInsert
  import opened BTreeSafety
  import opened BTreeNode
  import opened BTreePages
  import opened BTreeTidy
  import opened BTreeOps
  import opened BTreeChains

  /** On the way to the leaf for `key`, at most `h` levels down, no page is full and some separator is above the key. */
  ghost predicate Quick(t: Tree, key: int, h: nat)
    decreases t
  {
    && Size(t) < CAP
    && (t.Inner? ==> h > 0 && Above(t.kids, key) && Quick(t.kids[Upper(t.kids, key)].val, key, h - 1))
  }

  /** The leaf that a search for the key ends at. */
  ghost function LeafAt(t: Tree, key: int, h: nat): (l: Tree)
    requires Quick(t, key, h)
    ensures l.Leaf?
    decreases t
  {
    if t.Leaf? then t else LeafAt(t.kids[Upper(t.kids, key)].val, key, h - 1)
  }

  /** Leaf page `id` holds `kvs` wherever the tree reaches it. */
  function Put(t: Tree, id: PageId, kvs: seq<Entry<Value>>): (u: Tree)
    ensures u.id == t.id && (u.Leaf? <==> t.Leaf?)
    decreases t
  {
    match t
    case Leaf(i, _) => if i == id then Leaf(id, kvs) else t
    case Inner(i, kids) => Inner(i, PutKids(kids, id, kvs))
  }

  function PutKids(kids: seq<Entry<Tree>>, id: PageId, kvs: seq<Entry<Value>>): (ks: seq<Entry<Tree>>)
    ensures |ks| == |kids|
    ensures forall i :: 0 <= i < |ks| ==>
              assert kids[i].val < kids[i]; ks[i].key == kids[i].key && ks[i].val == Put(kids[i].val, id, kvs)
    decreases kids
  {
    if |kids| == 0 then []
    else
      assert kids[0].val < kids[0];
      [Entry(kids[0].key, Put(kids[0].val, id, kvs))] + PutKids(kids[1..], id, kvs)
  }

  function PutAll(ls: seq<Tree>, id: PageId, kvs: seq<Entry<Value>>): (r: seq<Tree>)
    ensures |r| == |ls| && forall i :: 0 <= i < |ls| ==> r[i] == Put(ls[i], id, kvs)
  {
    seq(|ls|, i requires 0 <= i < |ls| => Put(ls[i], id, kvs))
  }

  /** The pages once leaf page `id` holds `kvs`. */
  function PutPage(pages: Pages, id: PageId, kvs: seq<Entry<Value>>): Pages
    requires id in pages
  {
    pages[id := pages[id].(values := ValSlots(kvs))]
  }

  lemma {:induction false} PutStored(pages: Pages, t: Tree, isRoot: bool, id: PageId, kvs: seq<Entry<Value>>)
    requires Stored(pages, t, isRoot) && id in pages && pages[id].t == LeafNode
    ensures Stored(PutPage(pages, id, kvs), Put(t, id, kvs), isRoot)
    decreases t
  {
    if t.Inner? {
      var ks := PutKids(t.kids, id, kvs);
      assert PtrSlots(ks) == PtrSlots(t.kids);
      forall i | 0 <= i < |ks| ensures Stored(PutPage(pages, id, kvs), ks[i].val, false) {
        assert t.kids[i].val < t.kids[i];
        PutStored(pages, t.kids[i].val, false, id, kvs);
      }
    }
  }

  lemma {:induction false} PutThere(t: Tree, id: PageId, kvs: seq<Entry<Value>>)
    ensures KidsThere(t) ==> KidsThere(Put(t, id, kvs))
    ensures FirstLeaf(Put(t, id, kvs)) == FirstLeaf(t)
    decreases t
  {
    if t.Inner? {
      PutKidsThere(t.kids, id, kvs);
      if |t.kids| > 0 {
        PutThere(t.kids[0].val, id, kvs);
      }
    }
  }

  lemma {:induction false} PutKidsThere(kids: seq<Entry<Tree>>, id: PageId, kvs: seq<Entry<Value>>)
    ensures AllKidsThere(kids) ==> AllKidsThere(PutKids(kids, id, kvs))
    decreases kids
  {
    if |kids| > 0 {
      assert kids[0].val < kids[0];
      PutThere(kids[0].val, id, kvs);
      PutKidsThere(kids[1..], id, kvs);
      assert PutKids(kids, id, kvs)[1..] == PutKids(kids[1..], id, kvs);
    }
  }

  lemma {:induction false} PutChain(pages: Pages, p: PageId, ls: seq<Tree>, id: PageId, kvs: seq<Entry<Value>>)
    requires LeafChain(pages, p, ls) && id in pages && pages[id].t == LeafNode
    ensures LeafChain(PutPage(pages, id, kvs), p, PutAll(ls, id, kvs))
    decreases |ls|
  {
    if |ls| > 0 {
      PutStored(pages, ls[0], pages[p].isRoot, id, kvs);
      PutChain(pages, pages[p].next, ls[1..], id, kvs);
      assert PutAll(ls, id, kvs)[1..] == PutAll(ls[1..], id, kvs);
    }
  }

  /** The leaf is stored on its page. */
  lemma {:induction false} LeafOnPage(pages: Pages, t: Tree, isRoot: bool, key: int, h: nat)
    requires Stored(pages, t, isRoot) && Quick(t, key, h)
    ensures var l := LeafAt(t, key, h); l.id in pages && pages[l.id].t == LeafNode && pages[l.id].values == ValSlots(l.kvs)
    decreases t
  {
    if t.Inner? {
      LeafOnPage(pages, t.kids[Upper(t.kids, key)].val, false, key, h - 1);
    }
  }

  /** What a quick insertion makes of the leaf's slots. */
  ghost function QuickSlots(t: Tree, key: int, value: Value, h: nat): seq<Entry<Value>>
    requires Quick(t, key, h)
  {
    Replace(LeafAt(t, key, h).kvs, key, value)
  }

  /** What it does to the pages. */
  ghost predicate QuickDone(pages: Pages, pages': Pages, t: Tree, key: int, value: Value, h: nat) {
    && Quick(t, key, h)
    && LeafAt(t, key, h).id in pages
    && pages' == PutPage(pages, LeafAt(t, key, h).id, QuickSlots(t, key, value, h))
  }

  lemma {:induction false} QuickWalk(pages: Pages, pages': Pages, root: PageId, t: Tree, ls: seq<Tree>, key: int, value: Value, h: nat)
    requires Walkable(pages, root, t, ls) && QuickDone(pages, pages', t, key, value, h)
    ensures var id, kvs := LeafAt(t, key, h).id, QuickSlots(t, key, value, h);
            Walkable(pages', root, Put(t, id, kvs), PutAll(ls, id, kvs))
  {
    var id, kvs := LeafAt(t, key, h).id, QuickSlots(t, key, value, h);
    LeafOnPage(pages, t, true, key, h);
    PutStored(pages, t, true, id, kvs);
    PutThere(t, id, kvs);
    PutChain(pages, FirstLeaf(t), ls, id, kvs);
  }

  /** No page is cut and no page id handed out. */
  lemma {:induction false} QuickGrown(t: Tree, key: int, value: Value, nid: PageId, h: nat)
    requires Quick(t, key, h)
    ensures var g := Ins(CAP, t, key, value, nid); g.right.None? && g.nid == nid && g.left.id == t.id
    decreases t
  {
    if t.Inner? {
      assert Route(t.kids, key) == Upper(t.kids, key);
      QuickGrown(t.kids[Route(t.kids, key)].val, key, value, nid, h - 1);
    }
  }

  /** The kid on the way. */
  lemma {:induction false} QuickBelow(pages: Pages, t: Tree, key: int, h: nat, isRoot: bool)
    requires t.Inner? && Stored(pages, t, isRoot) && Quick(t, key, h)
    ensures h > 0 && Above(t.kids, key) && Route(t.kids, key) == Upper(t.kids, key)
    ensures var u := t.kids[Route(t.kids, key)].val; Stored(pages, u, false) && Quick(u, key, h - 1)
    ensures |t.kids| < CAP
  {
  }

  lemma {:induction false} QuickSlotsSame(pages: Pages, t: Tree, key: int, value: Value, nid: PageId, h: nat, isRoot: bool)
    requires t.Inner? && Stored(pages, t, isRoot) && Quick(t, key, h)
    ensures PtrSlots(InsKids(CAP, t.kids, key, value, nid).0) == PtrSlots(t.kids)
    ensures pages[t.id] == Page(InternalNode, isRoot, -1, t.id, PtrSlots(t.kids))
  {
    var i := Route(t.kids, key);
    assert Bump(t.kids, key) == t.kids;
    QuickGrown(t.kids[i].val, key, value, nid, h - 1);
    PtrInstall(t.kids, i, Ins(CAP, t.kids[i].val, key, value, nid));
  }

  /** A node above the leaf is written back as it was. */
  lemma {:induction false} QuickUp(p0: Pages, p1: Pages, p2: Pages, t: Tree, key: int, value: Value, h: nat, isRoot: bool, page: Page)
    requires t.Inner? && |t.kids| > 0 && h > 0 && Stored(p0, t, isRoot) && Quick(t, key, h)
    requires QuickDone(p0, p1, t.kids[Route(t.kids, key)].val, key, value, h - 1)
    requires p2 == p1[t.id := page] && page == p0[t.id]
    ensures QuickDone(p0, p2, t, key, value, h)
  {
    LeafOnPage(p0, t, isRoot, key, h);
    assert p0[t.id].t == InternalNode;
    assert p2 == p1;
  }
}
