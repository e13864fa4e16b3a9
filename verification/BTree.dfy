/** The B+ tree over pages linked by id. */
module BTree {
  import opened Options
  import opened Entries
  import opened BTreeShape
  import opened BTreeInsert
  import opened BTreeSafety
  import opened BTreeNode
  import opened BTreePages
  import opened BTreeIds
  import opened BTreeTidy
  import opened BTreeStep
  import opened BTreeOps
  import opened BTreeRange
  import opened BTreeChains
  import opened BTreeQuick

  /** What a descent hands back to the parent: nothing, or the separators of the two halves. */
  function Separators(g: Grown): Option<(Slot, Slot)> {
    match g.right
    case None => None
    case Some(r) => Some((Entry(Sep(g.left), Pointer(g.left.id)), Entry(Sep(r), Pointer(r.id))))
  }

  /** A node in memory shows a tree's root. */
  ghost predicate Shows(node: Node, t: Tree)
    reads node
  {
    node.t == TypeOf(t) && node.id == t.id && node.values == Slots(t)
  }

  /** Two nodes in memory show the halves of a cut, whose separators do not overflow the key type. */
  ghost predicate ShowHalves(node: Node, nnode: Node, g: Grown)
    reads node, nnode
  {
    g.right.Some? && Shows(node, g.left) && Shows(nnode, g.right.value) && Separable(g.left) && Separable(g.right.value)
  }

  /** What there is after the descent into the kids of a node: in a quick insertion one leaf page has changed. */
  ghost predicate KidDone(p0: Pages, p1: Pages, nid: PageId, n: PageId, t: Tree, key: int, value: Value, h: nat, after: PageId,
                          quick: bool, isRoot: bool)
    requires t.Inner? && |t.kids| > 0
  {
    if quick then
      && h > 0 && Stored(p0, t, isRoot) && Quick(t, key, h) && n == nid
      && QuickDone(p0, p1, t.kids[Route(t.kids, key)].val, key, value, h - 1)
    else
      var (ks, m) := InsKids(CAP, t.kids, key, value, nid);
      && t.id < nid && t.id !in KidsIds(t.kids) && n == m
      && KidsDone(p0, p1, nid, n, t.kids, ks, TidyKids(CAP, t.kids, key, value, nid).0, after)
  }

  /** And once the node's page is written. */
  ghost predicate BelowDone(p0: Pages, p2: Pages, nid: PageId, n: PageId, t: Tree, key: int, value: Value, h: nat, after: PageId,
                            quick: bool, isRoot: bool)
    requires t.Inner?
  {
    if quick then
      QuickDone(p0, p2, t, key, value, h) && n == nid
    else
      var (ks, m) := InsKids(CAP, t.kids, key, value, nid);
      n == m && HereDone(p0, p2, nid, n, t, Inner(t.id, ks), Inner(t.id, TidyKids(CAP, t.kids, key, value, nid).0), isRoot, after)
  }

  lemma {:induction false} KidsWritten(p0: Pages, p1: Pages, p2: Pages, nid: PageId, n: PageId, t: Tree, key: int, value: Value,
                                       h: nat, after: PageId, quick: bool, page: Page)
    requires t.Inner? && |t.kids| > 0 && p2 == p1[t.id := page]
    requires page == Page(InternalNode, page.isRoot, -1, t.id, PtrSlots(InsKids(CAP, t.kids, key, value, nid).0))
    requires KidDone(p0, p1, nid, n, t, key, value, h, after, quick, page.isRoot)
    ensures BelowDone(p0, p2, nid, n, t, key, value, h, after, quick, page.isRoot)
  {
    hide InsKids, TidyKids, KidsDone, HereDone, QuickDone;
    if quick {
      QuickSlotsSame(p0, t, key, value, nid, h, page.isRoot);
      QuickUp(p0, p1, p2, t, key, value, h, page.isRoot, page);
    } else {
      HereWritten(p0, p1, p2, nid, n, t, InsKids(CAP, t.kids, key, value, nid).0, TidyKids(CAP, t.kids, key, value, nid).0,
                  page.isRoot, after);
    }
  }

  class BTree {
    var root: PageId
    var pages: Pages
    var nextPageId: PageId

    /** The tree of slots that the pages show, and the leaves that their chain runs through; of no meaning without a root. */
    ghost var tree: Tree
    ghost var chain: seq<Tree>

    /** A tree without a root over the pages of a store. */
    constructor (pages: Pages, nextPageId: PageId)
      requires nextPageId >= 0
      ensures Valid() && root == -1 && this.pages == pages && this.nextPageId == nextPageId
    {
      this.root, this.pages, this.nextPageId := -1, pages, nextPageId;
      tree, chain := Leaf(-1, []), [];
    }

    /** The pages show a search tree, unless there is no root yet. */
    ghost predicate Valid()
      reads this
    {
      && nextPageId >= 0
      && (root != -1 ==> ShowsTree(pages, nextPageId, root, tree) && chain == Leaves(tree))
    }

    /** Weaker: the pages show slots and a leaf chain, though a page may have two slots or the chain be out of order. */
    ghost predicate Readable()
      reads this
    {
      root != -1 ==> Walkable(pages, root, tree, chain)
    }

    lemma {:induction false} ValidReadable()
      requires Valid()
      ensures Readable() && (root != -1 ==> Contents() == Items(tree)) && Sorted(Contents())
    {
      if root != -1 {
        WholeChain(pages, nextPageId, root, tree);
      }
    }

    /** The separators above all leaves are exact. */
    ghost predicate ExactSeparators()
      reads this
    {
      root != -1 ==> SearchTree(EXACT, tree)
    }

    /** Moreover all nodes below the root are at least half full, as insertions alone leave them. */
    ghost predicate Tight()
      reads this
    {
      root != -1 ==> SearchTree(TIGHT, tree)
    }

    /** The slots along the leaf chain. */
    ghost function Contents(): seq<Entry<Value>>
      reads this
    {
      if root == -1 then [] else AllOf(chain)
    }

    /** What a lookup of `key` comes to. */
    ghost function Found(key: int): Option<Value>
      reads this
    {
      if root == -1 then None else Lookup(tree, key)
    }

    /** Inserting `key` now keeps the tree a search tree. */
    ghost predicate Accepts(key: int)
      reads this
    {
      root != -1 ==> SafeInsert(CAP, tree, key)
    }

    /** The key is the last one of a full leaf's left half. */
    ghost predicate AtHalfEnd(key: int)
      reads this
    {
      root != -1 && HitsHalfEnd(CAP, tree, key)
    }

    method NewPage() returns (id: PageId)
      modifies this`nextPageId
      ensures id == old(nextPageId) && nextPageId == old(nextPageId) + 1
    {
      id := nextPageId;
      nextPageId := nextPageId + 1;
    }

    /**
     * Insert or overwrite. The pages show a search tree afterwards exactly when the key was acceptable. The leaf chain lists
     * the upsert exactly when the key was not at a half's end, and then lookups find just that; else they find what they
     * found before.
     */
    method Insert(key: int, value: Value)
      requires Valid() && KEY_MIN <= key < KEY_MAX
      modifies this
      ensures root != -1 && root == tree.id && Stored(pages, tree, true) && Readable()
      ensures old(root) != -1 ==> tree == BTreeShape.Insert(CAP, old(tree), key, value, old(nextPageId)).0
      ensures old(root) != -1 ==> chain == Leaves(TidyInsert(CAP, old(tree), key, value, old(nextPageId)).0)
      ensures old(root) != -1 ==> nextPageId == BTreeShape.Insert(CAP, old(tree), key, value, old(nextPageId)).1
      ensures old(root) == -1 ==> tree == Leaf(old(nextPageId), [Entry(key, value)]) && nextPageId == old(nextPageId) + 1
      ensures old(Accepts(key)) <==> Valid()
      ensures !old(AtHalfEnd(key)) <==> Contents() == Entries.Replace(old(Contents()), key, value)
      ensures !old(AtHalfEnd(key)) <==> Sorted(Contents())
      ensures forall q :: Found(q) == Find(if old(AtHalfEnd(key)) then old(Contents()) else Contents(), q)
      ensures old(Accepts(key)) && old(Tight()) ==> Tight()
      ensures old(Accepts(key)) && old(ExactSeparators()) ==> ExactSeparators()
      ensures OnlyAt(old(pages), pages, if old(root) == -1 then {} else Ids(old(tree)), old(nextPageId), nextPageId)
    {
      if root == -1 {
        InsertFirst(key, value);
        ValidReadable();
        assert forall q :: Found(q) == Find(Contents(), q);
      } else {
        ghost var p0, t, nid := pages, tree, nextPageId;
        ValidReadable();
        hide BTreeShape.Insert, TidyInsert, SearchTree, Stored, Items, AllOf, Leaves, Sorted, Find, Lookup, Entries.Replace,
          Walkable, ShowsTree, Linked, Distinct, Ids, Below, RootInserted, SafeInsert, HitsHalfEnd;
        InsertAtRoot(key, value);
        InsertDone(p0, pages, nid, nextPageId, root, t, key, value);
      }
    }

    /**
     * The same for any pages that show slots and a leaf chain, when only one leaf page changes: the leaf's slots are upserted
     * wherever the leaf is reached.
     */
    method InsertQuick(key: int, value: Value, ghost h: nat)
      requires Readable() && root != -1 && Quick(tree, key, h) && key < KEY_MAX
      modifies this`root, this`pages, this`nextPageId, this`tree, this`chain
      ensures Readable() && root == old(root) && nextPageId == old(nextPageId)
      ensures QuickDone(old(pages), pages, old(tree), key, value, h)
      ensures var id, kvs := LeafAt(old(tree), key, h).id, QuickSlots(old(tree), key, value, h);
              tree == Put(old(tree), id, kvs) && chain == PutAll(old(chain), id, kvs)
    {
      ghost var p0, t, nid := pages, tree, nextPageId;
      var sep := InsertInto(root, key, value, t, h, 0, 0, true, -1, true);
      QuickGrown(t, key, value, nid, h);
      GrowRoot(sep, t, Ins(CAP, t, key, value, nid));
      QuickWalk(p0, pages, root, t, chain, key, value, h);
      ghost var id, kvs := LeafAt(t, key, h).id, QuickSlots(t, key, value, h);
      tree, chain := Put(t, id, kvs), PutAll(chain, id, kvs);
    }

    /** The first insertion: a root leaf is written, decoded again and filled. */
    method InsertFirst(key: int, value: Value)
      requires Valid() && root == -1 && KEY_MIN <= key < KEY_MAX
      modifies this
      ensures root == tree.id == old(nextPageId) && nextPageId == old(nextPageId) + 1
      ensures tree == Leaf(old(nextPageId), [Entry(key, value)]) && chain == [tree]
      ensures Valid() && Tight() && ExactSeparators()
      ensures OnlyAt(old(pages), pages, {}, old(nextPageId), nextPageId)
    {
      hide Ins, BTreeShape.Insert, Inserted, Placed, ShowsTree, SearchTree;
      var id := NewPage();
      var node := new Node.New(id, LeafNode, true);
      pages := pages[id := node.View()];
      root := id;
      ghost var p0 := pages;
      EmptyShown(p0, id);
      RootPlaced(p0, nextPageId, Leaf(id, []));
      var sep := InsertInto(root, key, value, Leaf(id, []), 0, KEY_MIN, Hi(Leaf(id, [])), true, -1, false);
      FirstShown(p0, pages, id, key, value);
      tree := Leaf(id, [Entry(key, value)]);
      chain := [tree];
    }

    method InsertAtRoot(key: int, value: Value)
      requires Valid() && root != -1 && KEY_MIN <= key < KEY_MAX
      modifies this
      ensures tree == BTreeShape.Insert(CAP, old(tree), key, value, old(nextPageId)).0
      ensures nextPageId == BTreeShape.Insert(CAP, old(tree), key, value, old(nextPageId)).1
      ensures RootInserted(old(pages), pages, old(nextPageId), nextPageId, root, old(tree), tree,
                           TidyInsert(CAP, old(tree), key, value, old(nextPageId)).0)
      ensures chain == Leaves(TidyInsert(CAP, old(tree), key, value, old(nextPageId)).0)
    {
      hide Ins, Tidy, BTreeShape.Insert, TidyInsert, Stored, Linked, Ids, Ordered, Safe, SafeInsert, Leaves;
      ghost var t, p0, nid := tree, pages, nextPageId;
      RootPlaced(pages, nid, t);
      var sep := InsertInto(root, key, value, t, Height(t), KEY_MIN, Hi(t), true, -1, false);
      ghost var p1 := pages;
      GrowRoot(sep, t, Ins(CAP, t, key, value, nid));
      tree := BTreeShape.Insert(CAP, t, key, value, nid).0;
      chain := Leaves(TidyInsert(CAP, t, key, value, nid).0);
      RootDone(p0, p1, nid, t, key, value);
    }

    method GrowRoot(sep: Option<(Slot, Slot)>, ghost t: Tree, ghost g: Grown)
      requires sep == Separators(g) && g.nid == nextPageId && root == t.id
      modifies this`root, this`pages, this`nextPageId
      ensures root == RootId(t, g)
      ensures pages == RootPages(old(pages), g)
      ensures nextPageId == g.nid + if g.right.Some? then 1 else 0
    {
      if sep.Some? {
        RaiseRoot(sep.value.0, sep.value.1, g);
      }
    }

    /** Write a new root page over the two halves of the old root. */
    method RaiseRoot(s: Slot, os: Slot, ghost g: Grown)
      requires Separators(g) == Some((s, os)) && g.nid == nextPageId
      modifies this`root, this`pages, this`nextPageId
      ensures root == old(nextPageId) && nextPageId == old(nextPageId) + 1
      ensures pages == RootPages(old(pages), g)
    {
      var newId := NewPage();
      var newRoot := new Node.New(newId, InternalNode, true);
      root := newRoot.id;
      var _ := newRoot.Insert(s);
      assert newRoot.values == [s];
      var _ := newRoot.Insert(os);
      pages := pages[newId := newRoot.View()];
    }

    /** Insert below the page `ptr`, which shows `t`; two separators come back when the page was cut. */
    method InsertInto(ptr: PageId, key: int, value: Value, ghost t: Tree, ghost h: nat, ghost lo: int, ghost hi: int,
                      ghost isRoot: bool, ghost after: PageId, ghost quick: bool)
      returns (sep: Option<(Slot, Slot)>)
      requires ptr == t.id && Stored(pages, t, isRoot) && key < KEY_MAX
      requires if quick then Quick(t, key, h) else Placed(pages, nextPageId, t, h, lo, hi, after) && lo <= key && hi <= KEY_MAX
      modifies this`pages, this`nextPageId
      ensures if quick then QuickDone(old(pages), pages, t, key, value, h) && nextPageId == old(nextPageId)
              else Inserted(old(pages), pages, old(nextPageId), nextPageId, t, isRoot, after, key, value)
      ensures sep == Separators(Ins(CAP, t, key, value, old(nextPageId)))
      decreases h, 3
    {
      ghost var p0, nid := pages, nextPageId;
      var node := new Node.From(pages[ptr]);
      if !quick {
        WholeReady(pages, nid, t, h, lo, hi, after, isRoot);
      }
      if node.AlmostFull() {
        sep := InsertCut(node, key, value, t, h, lo, hi, isRoot, after);
      } else {
        InsertHere(node, key, value, t, h, lo, hi, if quick then node.next else after, quick);
        if quick {
          QuickGrown(t, key, value, nid, h);
        } else {
          HereAll(p0, pages, nid, t, isRoot, after, key, value);
        }
        sep := None;
      }
    }

    /** Cut a full node in two and insert below the half that takes the key. */
    method InsertCut(node: Node, key: int, value: Value,
                     ghost t: Tree, ghost h: nat, ghost lo: int, ghost hi: int, ghost isRoot: bool, ghost after: PageId)
      returns (sep: Option<(Slot, Slot)>)
      requires Size(t) == CAP
      requires node.View() == Page(TypeOf(t), isRoot, if t.Leaf? then after else -1, t.id, Slots(t))
      requires HereReady(pages, nextPageId, t, h, lo, hi, after) && Ordered(WEAK, t, h, lo, hi)
      requires lo <= key < KEY_MAX && hi <= KEY_MAX
      modifies this`pages, this`nextPageId, node
      ensures Inserted(old(pages), pages, old(nextPageId), nextPageId, t, isRoot, after, key, value)
      ensures sep == Separators(Ins(CAP, t, key, value, old(nextPageId)))
      decreases h, 2
    {
      ghost var nid := nextPageId;
      var nnode := Halve(node, t, after);
      InsertHalf(node, nnode, key, value, nid, t, h, lo, hi, isRoot, after);
      sep := GetSeparators(node, nnode, Ins(CAP, t, key, value, nid));
    }

    /** Cut a full node in two in memory, the greater half being for a new page. */
    method Halve(node: Node, ghost t: Tree, ghost after: PageId) returns (nnode: Node)
      requires Size(t) == CAP
      requires node.View() == Page(TypeOf(t), node.isRoot, if t.Leaf? then after else -1, t.id, Slots(t))
      modifies this`nextPageId, node
      ensures fresh(nnode) && nextPageId == old(nextPageId) + 1
      ensures node.View() == LeftPage(t, old(nextPageId)) && nnode.View() == RightPage(t, old(nextPageId), after)
      ensures node.LastKey() == Some(LastKeyOf(LeftHalf(t)))
    {
      CutSlots(t, nextPageId);
      var newId := NewPage();
      nnode := node.Split(newId);
    }

    /** The separators of the two halves, as far as they do not overflow the key type. */
    method GetSeparators(node: Node, other: Node, ghost g: Grown) returns (sep: Option<(Slot, Slot)>)
      requires ShowHalves(node, other, g)
      ensures sep == Separators(g)
    {
      SepOfSlots(g.left);
      SepOfSlots(g.right.value);
      var s := node.GetSeparator();
      var os := other.GetSeparator();
      sep := Some((s, os));
    }

    method InsertHalf(node: Node, nnode: Node, key: int, value: Value, ghost nid: PageId,
                      ghost t: Tree, ghost h: nat, ghost lo: int, ghost hi: int, ghost isRoot: bool, ghost after: PageId)
      requires Size(t) == CAP && node != nnode && nextPageId == nid + 1 && node.LastKey() == Some(LastKeyOf(LeftHalf(t)))
      requires node.View() == LeftPage(t, nid) && nnode.View() == RightPage(t, nid, after)
      requires HereReady(pages, nid, t, h, lo, hi, after) && Ordered(WEAK, t, h, lo, hi)
      requires lo <= key < KEY_MAX && hi <= KEY_MAX
      modifies this`pages, this`nextPageId, node`values, nnode`values
      ensures Inserted(old(pages), pages, nid, nextPageId, t, isRoot, after, key, value)
      ensures var g := Ins(CAP, t, key, value, nid);
              ShowHalves(node, nnode, g)
      decreases h, 2, 1
    {
      LeftKeyBound(t, h, lo, hi);
      if node.LastKey().value <= key {
        InsertRight(node, nnode, key, value, nid, t, h, lo, hi, isRoot, after);
      } else {
        InsertLeft(node, nnode, key, value, nid, t, h, lo, hi, isRoot, after);
      }
    }

    /** The key belongs to the right half: write the left half, then insert into the new node. */
    method InsertRight(node: Node, nnode: Node, key: int, value: Value, ghost nid: PageId,
                       ghost t: Tree, ghost h: nat, ghost lo: int, ghost hi: int, ghost isRoot: bool, ghost after: PageId)
      requires Size(t) == CAP && node != nnode && nextPageId == nid + 1
      requires node.View() == LeftPage(t, nid) && nnode.View() == RightPage(t, nid, after)
      requires HereReady(pages, nid, t, h, lo, hi, after) && Ordered(WEAK, t, h, lo, hi)
      requires lo <= key && LastKeyOf(LeftHalf(t)) <= key < KEY_MAX && hi <= KEY_MAX
      modifies this`pages, this`nextPageId, nnode`values
      ensures Inserted(old(pages), pages, nid, nextPageId, t, isRoot, after, key, value)
      ensures var g := Ins(CAP, t, key, value, nid);
              ShowHalves(node, nnode, g)
      decreases h, 2, 0
    {
      ghost var p0, r := pages, RightHalf(t, nid);
      pages := pages[node.id := node.View()];
      ghost var p1 := pages;
      RightReady(p0, p1, nid, t, h, lo, hi, after);
      InsertHere(nnode, key, value, r, h, LastKeyOf(LeftHalf(t)), hi, after, false);
      CutSeparators(t, h, lo, hi, key, value, nid);
      CutRightDone(p0, p1, pages, nid, t, h, lo, hi, isRoot, after, key, value);
    }

    /** The key belongs to the left half: write the new node, then insert into the old one. */
    method InsertLeft(node: Node, nnode: Node, key: int, value: Value, ghost nid: PageId,
                      ghost t: Tree, ghost h: nat, ghost lo: int, ghost hi: int, ghost isRoot: bool, ghost after: PageId)
      requires Size(t) == CAP && node != nnode && nextPageId == nid + 1
      requires node.View() == LeftPage(t, nid) && nnode.View() == RightPage(t, nid, after)
      requires HereReady(pages, nid, t, h, lo, hi, after) && Ordered(WEAK, t, h, lo, hi)
      requires lo <= key < LastKeyOf(LeftHalf(t)) && hi <= KEY_MAX && LastKeyOf(LeftHalf(t)) <= hi
      modifies this`pages, this`nextPageId, node`values
      ensures Inserted(old(pages), pages, nid, nextPageId, t, isRoot, after, key, value)
      ensures var g := Ins(CAP, t, key, value, nid);
              ShowHalves(node, nnode, g)
      decreases h, 2, 0
    {
      ghost var p0, l := pages, LeftHalf(t);
      pages := pages[nnode.id := nnode.View()];
      ghost var p1 := pages;
      LeftReady(p0, p1, nid, t, h, lo, hi, after);
      InsertHere(node, key, value, l, h, lo, LastKeyOf(l), FirstLeaf(RightHalf(t, nid)), false);
      CutSeparators(t, h, lo, hi, key, value, nid);
      CutLeftDone(p0, p1, pages, nid, t, h, lo, hi, isRoot, after, key, value);
    }

    /** The page to go on with below an internal node, whose last separator is bumped when the key is above it. */
    method FindOrBump(node: Node, key: int, ghost kids: seq<Entry<Tree>>) returns (ptr: PageId)
      requires node.t == InternalNode && node.next == -1 && node.values == PtrSlots(kids)
      requires |kids| > 0 && (Upper(kids, key) == |kids| ==> Sorted(kids)) && key < KEY_MAX
      modifies node`values
      ensures node.values == PtrSlots(Bump(kids, key))
      ensures ptr == kids[Route(kids, key)].val.id
    {
      PtrUpper(kids, key);
      var found := node.FindChild(key);
      assert found.Some? <==> Upper(kids, key) < |kids|;
      if found.None? {
        PtrBump(kids, key);
        BumpRoutes(kids, key);
        hide Upper, InsertNew, Bump;
        var last := node.PopLast();
        var _ := node.Insert(Entry(key + 1, last.value.val));
        found := node.FindChild(key);
      }
      ptr := found.value;
    }

    /** Put the separators of a cut kid into its parent. */
    method PutSeparators(node: Node, sep: Option<(Slot, Slot)>, ghost kids: seq<Entry<Tree>>, ghost i: nat, ghost g: Grown)
      requires i < |kids| && g.left.id == kids[i].val.id && node.values == PtrSlots(kids)
      requires sep == Separators(g)
      modifies node`values
      ensures node.values == PtrSlots(Install(kids, i, g))
    {
      PtrInstall(kids, i, g);
      if sep.Some? {
        var _ := node.Replace(sep.value.0);
        var _ := node.Replace(sep.value.1);
      }
    }

    /** Insert below a decoded node and write it to its page. */
    method InsertHere(node: Node, key: int, value: Value, ghost t: Tree, ghost h: nat, ghost lo: int, ghost hi: int,
                      ghost after: PageId, ghost quick: bool)
      requires node.View() == Page(TypeOf(t), node.isRoot, if t.Leaf? then after else -1, t.id, Slots(t))
      requires key < KEY_MAX
      requires if quick then Stored(pages, t, node.isRoot) && node.View() == pages[t.id] && Quick(t, key, h)
               else HereReady(pages, nextPageId, t, h, lo, hi, after) && lo <= key && hi <= KEY_MAX
      modifies this`pages, this`nextPageId, node`values
      ensures if quick then QuickDone(old(pages), pages, t, key, value, h) && nextPageId == old(nextPageId)
              else var (t', n) := Here(t, key, value, old(nextPageId));
                   && nextPageId == n
                   && Shows(node, t')
                   && HereDone(old(pages), pages, old(nextPageId), n, t, t', TidyHere(t, key, value, old(nextPageId)).0,
                               node.isRoot, after)
      decreases h, 1
    {
      assert !quick ==> t.id < nextPageId;
      hide HereDone, HereReady, InsKids, TidyKids, Replace;
      if node.t == LeafNode {
        var _ := node.Replace(Entry(key, Val(value)));
        ValReplace(t.kvs, key, value);
        if !quick {
          LeafWritten(pages, pages[node.id := node.View()], nextPageId, t.id, t.kvs, Replace(t.kvs, key, value), node.isRoot, after);
        }
        pages := pages[node.id := node.View()];
      } else {
        InsertBelow(node, key, value, t, h, lo, hi, after, quick);
      }
    }

    method InsertBelow(node: Node, key: int, value: Value, ghost t: Tree, ghost h: nat, ghost lo: int, ghost hi: int,
                       ghost after: PageId, ghost quick: bool)
      requires t.Inner? && node.View() == Page(InternalNode, node.isRoot, -1, t.id, PtrSlots(t.kids)) && key < KEY_MAX
      requires if quick then Stored(pages, t, node.isRoot) && node.View() == pages[t.id] && Quick(t, key, h)
               else HereReady(pages, nextPageId, t, h, lo, hi, after) && lo <= key && hi <= KEY_MAX
      modifies this`pages, this`nextPageId, node`values
      ensures node.values == PtrSlots(InsKids(CAP, t.kids, key, value, old(nextPageId)).0)
      ensures BelowDone(old(pages), pages, old(nextPageId), nextPageId, t, key, value, h, after, quick, node.isRoot)
      decreases h, 0
    {
      ghost var kids, p0, nid := t.kids, pages, nextPageId;
      if quick {
        QuickBelow(pages, t, key, h, node.isRoot);
      } else {
        BelowReady(pages, nid, t, h, lo, hi, after);
      }
      hide Stored, HereReady, KidsPlaced, Quick, InsKids, TidyKids, Ins, KidsDone, HereDone, QuickDone, BelowDone, Bump, Install;
      var ptr := FindOrBump(node, key, kids);
      var sep := InsertKid(ptr, key, value, kids, h - 1, lo, hi, after, quick);
      WriteKids(node, sep, key, value, t, h, after, quick, p0, nid);
    }

    /** Put the separators of a cut kid into its parent and write the parent's page. */
    method WriteKids(node: Node, sep: Option<(Slot, Slot)>, key: int, value: Value, ghost t: Tree, ghost h: nat,
                     ghost after: PageId, ghost quick: bool, ghost p0: Pages, ghost nid: PageId)
      requires t.Inner? && |t.kids| > 0 && node.View() == Page(InternalNode, node.isRoot, -1, t.id, PtrSlots(Bump(t.kids, key)))
      requires sep == Separators(Ins(CAP, t.kids[Route(t.kids, key)].val, key, value, nid))
      requires KidDone(p0, pages, nid, nextPageId, t, key, value, h, after, quick, node.isRoot)
      modifies this`pages, node`values
      ensures node.values == PtrSlots(InsKids(CAP, t.kids, key, value, nid).0)
      ensures BelowDone(p0, pages, nid, nextPageId, t, key, value, h, after, quick, node.isRoot)
    {
      ghost var i, p1 := Route(t.kids, key), pages;
      ghost var g, ks := Ins(CAP, t.kids[i].val, key, value, nid), InsKids(CAP, t.kids, key, value, nid).0;
      KidsForward(t.kids, key, value, nid);
      hide KidDone, BelowDone, InsKids, Ins, Bump, Install, Separators, Route;
      PutSeparators(node, sep, Bump(t.kids, key), i, g);
      ghost var page := node.View();
      assert page == Page(InternalNode, node.isRoot, -1, t.id, PtrSlots(ks));
      pages := pages[node.id := node.View()];
      KidsWritten(p0, p1, pages, nid, nextPageId, t, key, value, h, after, quick, page);
    }

    /** Insert below the kid that takes the key. */
    method InsertKid(ptr: PageId, key: int, value: Value, ghost kids: seq<Entry<Tree>>,
                     ghost h: nat, ghost lo: int, ghost hi: int, ghost after: PageId, ghost quick: bool)
      returns (sep: Option<(Slot, Slot)>)
      requires |kids| > 0 && ptr == kids[Route(kids, key)].val.id && key < KEY_MAX
      requires if quick then Stored(pages, kids[Route(kids, key)].val, false) && Quick(kids[Route(kids, key)].val, key, h)
               else KidsPlaced(pages, nextPageId, kids, h, lo, hi, after) && lo <= key && hi <= KEY_MAX
      modifies this`pages, this`nextPageId
      ensures if quick then QuickDone(old(pages), pages, kids[Route(kids, key)].val, key, value, h) && nextPageId == old(nextPageId)
              else var (ks, n) := InsKids(CAP, kids, key, value, old(nextPageId));
                   && nextPageId == n
                   && KidsDone(old(pages), pages, old(nextPageId), n, kids, ks, TidyKids(CAP, kids, key, value, old(nextPageId)).0, after)
      ensures sep == Separators(Ins(CAP, kids[Route(kids, key)].val, key, value, old(nextPageId)))
      decreases h, 4
    {
      ghost var p0, nid, i := pages, nextPageId, Route(kids, key);
      if !quick {
        KidPlaced(pages, nid, kids, h, lo, hi, after, i);
        RouteSplit(WEAK, kids, h, lo, hi, key);
      }
      sep := InsertInto(ptr, key, value, kids[i].val, h, if quick then lo else LoOf(kids, i, lo), kids[i].key, false,
                        FirstOf(kids[i + 1..], after), quick);
      if !quick {
        DescentShown(p0, pages, nid, kids, h, lo, hi, after, key, value);
      }
    }

    // ---------------------------------------------------------------- lookup

    /** The slot that the pages hold for `key`: in a valid tree the slot with this key in its contents, if there is one. */
    method Get(key: int) returns (r: Option<Slot>)
      requires Readable()
      ensures r == match Found(key) case None => None case Some(v) => Some(Entry(key, Val(v)))
      ensures Valid() ==> Found(key) == Find(Contents(), key)
      ensures Valid() && r.Some? ==> r.value.key == key && r.value.val.Val? && Entry(key, r.value.val.v) in Contents()
      ensures Valid() && r.None? ==> forall e :: e in Contents() ==> e.key != key
    {
      if root == -1 {
        return None;
      }
      r := GetFrom(key, root, tree, true);
      if Valid() {
        ValidReadable();
        LookupIs(WEAK, tree, Height(tree), KEY_MIN, Hi(tree), key);
        FindIndex(Contents(), key);
      }
    }

    method GetFrom(key: int, ptr: PageId, ghost t: Tree, ghost isRoot: bool) returns (r: Option<Slot>)
      requires ptr == t.id && Stored(pages, t, isRoot)
      ensures r == SlotOf(key, Lookup(t, key))
      decreases t
    {
      var node := new Node.From(pages[ptr]);
      if t.Inner? {
        PtrUpper(t.kids, key);
      } else {
        ValRemove(t.kvs, key);
      }
      match node.FindChild(key) {
        case Some(p) =>
          r := GetFrom(key, p, t.kids[Upper(t.kids, key)].val, false);
        case None =>
          if node.t == LeafNode {
            match node.Get(key) {
              case Some(v) => r := Some(Entry(key, v));
              case None => r := None;
            }
          } else {
            r := None;
          }
      }
    }

    // ---------------------------------------------------------------- deletion

    /** Delete a key: always a removal from the listing, and never a change of the shape. */
    method Delete(key: int) returns (removed: bool)
      requires Valid()
      modifies this`pages, this`tree, this`chain
      ensures Valid()
      ensures root != -1 ==> tree == BTreeShape.Delete(old(tree), key)
      ensures Contents() == Entries.Remove(old(Contents()), key)
      ensures removed <==> Find(old(Contents()), key).Some?
      ensures old(ExactSeparators()) && (root != -1 && tree.Inner? ==> KeepsMax(old(tree), key)) ==> ExactSeparators()
      ensures OnlyAt(old(pages), pages, if root == -1 then {} else Ids(old(tree)), 0, 0)
    {
      if root == -1 {
        return false;
      }
      removed := DeleteAtRoot(key);
    }

    method DeleteAtRoot(key: int) returns (removed: bool)
      requires Valid() && root != -1
      modifies this`pages, this`tree, this`chain
      ensures ShowsTree(pages, nextPageId, root, tree) && chain == Leaves(tree)
      ensures tree == BTreeShape.Delete(old(tree), key)
      ensures AllOf(chain) == Entries.Remove(AllOf(old(chain)), key)
      ensures removed <==> Find(AllOf(old(chain)), key).Some?
      ensures SearchTree(EXACT, old(tree)) && (tree.Inner? ==> KeepsMax(old(tree), key)) ==> SearchTree(EXACT, tree)
      ensures OnlyAt(old(pages), pages, Ids(old(tree)), 0, 0)
    {
      hide ShowsTree, Hangs, AllOf, Leaves, Items, Lookup, Sorted, Entries.Remove, Find, SearchTree, BTreeShape.Delete, Ids;
      ghost var p0, t := pages, tree;
      DeleteReady(pages, nextPageId, root, t);
      removed := DeleteFrom(key, root, t, true, -1);
      DeleteShows(p0, pages, nextPageId, root, t, key);
      tree := BTreeShape.Delete(t, key);
      chain := Leaves(tree);
    }

    method DeleteFrom(key: int, ptr: PageId, ghost t: Tree, ghost isRoot: bool, ghost after: PageId) returns (removed: bool)
      requires ptr == t.id && Hangs(pages, t, isRoot, after)
      modifies this`pages
      ensures Hangs(pages, BTreeShape.Delete(t, key), isRoot, after)
      ensures OnlyAt(old(pages), pages, Ids(t), 0, 0)
      ensures removed <==> Lookup(t, key).Some?
      decreases t
    {
      ghost var p0 := pages;
      var node := new Node.From(pages[ptr]);
      if t.Inner? {
        PtrUpper(t.kids, key);
      } else {
        ValRemove(t.kvs, key);
      }
      match node.FindChild(key) {
        case Some(p) =>
          ghost var i := Upper(t.kids, key);
          KidHangs(p0, t, isRoot, after, i);
          removed := DeleteFrom(key, p, t.kids[i].val, false, FirstOf(t.kids[i + 1..], after));
          DeleteSame(t.kids[i].val, key);
          KidSwapped(p0, pages, t, isRoot, after, i, BTreeShape.Delete(t.kids[i].val, key));
        case None =>
          if node.t == LeafNode {
            removed := node.Remove(key);
            if removed {
              pages := pages[ptr := node.View()];
            }
          } else {
            removed := false;
          }
      }
    }

    // ---------------------------------------------------------------- listings

    /** All slots along the leaf chain: in a valid tree, in key order. */
    method Scan() returns (acc: seq<Entry<Value>>)
      requires Readable()
      ensures acc == Contents()
      ensures Valid() ==> Sorted(acc)
    {
      if root == -1 {
        return [];
      }
      hide ShowsTree, Stored, LeafChain, KidsThere, Items, Leaves, AllOf;
      acc := ScanFrom(root, [], tree, chain);
      if Valid() {
        ValidReadable();
      }
    }

    /** Descend to the first leaf, then follow the leaf chain. */
    method ScanFrom(ptr: PageId, acc: seq<Entry<Value>>, ghost t: Tree, ghost ls: seq<Tree>) returns (r: seq<Entry<Value>>)
      requires ptr == t.id && ptr in pages && Stored(pages, t, pages[ptr].isRoot) && KidsThere(t)
      requires ls != [] && FirstLeaf(t) == ls[0].id && LeafChain(pages, FirstLeaf(t), ls)
      ensures r == acc + AllOf(ls)
      decreases |ls|, t
    {
      var node := new Node.From(pages[ptr]);
      if node.t != LeafNode {
        FirstKid(pages, t, node.isRoot);
        r := ScanFrom(node.values[0].val.ptr, acc, t.kids[0].val, ls);
        return;
      }
      LeafNext(pages, ptr, ls, acc);
      hide LeafChain, AllOf, FirstLeaf, KidsThere;
      var slots := Values(node, ls[0]);
      r := acc + slots;
      if node.next == -1 {
        return;
      }
      r := ScanFrom(node.next, r, ls[1], ls[1..]);
    }

    /** The slots of a leaf as key-value pairs. */
    method Values(node: Node, ghost t: Tree) returns (r: seq<Entry<Value>>)
      requires t.Leaf? && node.values == ValSlots(t.kvs)
      ensures r == t.kvs
    {
      r := seq(|node.values|, i requires 0 <= i < |node.values| && node.values[i].val.Val? reads node =>
        Entry(node.values[i].key, node.values[i].val.v));
    }

    // ---------------------------------------------------------------- range queries

    /**
     * The slots with `from <= key <= to`: on every tree a prefix of them, and all of them if separators are exact. An
     * empty tree has no page to start from; asking it is an error of the caller.
     */
    method Range(from: int, to: int) returns (acc: seq<Entry<Value>>)
      requires Valid() && root != -1
      ensures acc == RangeTree(tree, from, to)
      ensures acc <= Between(Contents(), from, to)
      ensures acc == Between(Contents(), from, to) <==> NoGap(LeavesFrom(tree, from), from, to)
      ensures ExactSeparators() ==> acc == Between(Contents(), from, to)
    {
      ValidReadable();
      RangeMeans(pages, nextPageId, root, tree, from, to);
      ShowsStored(pages, nextPageId, root, tree);
      hide ShowsTree, SearchTree, Stored, Items, AllOf, Leaves, LeavesFrom, RangeOver, LeafChain, Walkable, NoGap, Ordered, NonNegative;
      var cur := GetPtr(from, root, tree, Height(tree), KEY_MIN, Hi(tree), true);
      match cur {
        case None => acc := [];
        case Some(p) => acc := RangeFrom(p, [], from, to, LeavesFrom(tree, from));
      }
    }

    /** The leaf page a search for `key` ends at. */
    method GetPtr(key: int, ptr: PageId, ghost t: Tree, ghost h: nat, ghost lo: int, ghost hi: int, ghost isRoot: bool)
      returns (r: Option<PageId>)
      requires ptr == t.id != -1 && Stored(pages, t, isRoot)
      requires Ordered(WEAK, t, h, lo, hi) && NonNegative(Ids(t))
      ensures r == if LeavesFrom(t, key) == [] then None else Some(LeavesFrom(t, key)[0].id)
      decreases t
    {
      var node := new Node.From(pages[ptr]);
      if t.Inner? {
        PtrUpper(t.kids, key);
      }
      match node.FindChild(key) {
        case Some(p) =>
          ghost var i := Upper(t.kids, key);
          PtrStep(pages, t, h, lo, hi, isRoot, key);
          r := GetPtr(key, p, t.kids[i].val, h - 1, LoOf(t.kids, i, lo), t.kids[i].key, false);
        case None => r := if node.t == LeafNode then Some(ptr) else None;
      }
    }

    /** Take the window of one leaf and go on, unless it is empty or the chain ends. */
    method RangeFrom(ptr: PageId, acc: seq<Entry<Value>>, from: int, to: int, ghost ls: seq<Tree>) returns (r: seq<Entry<Value>>)
      requires ls != [] && LeafChain(pages, ptr, ls)
      ensures r == acc + RangeOver(ls, from, to)
      decreases |ls|
    {
      RangeStep(ls, acc, from, to);
      hide Window, RangeOver;
      var node := new Node.From(pages[ptr]);
      var slots := Values(node, ls[0]);
      var w := Window(slots, from, to);
      r := acc + w;
      if |acc| == |r| {
        return;
      }
      if node.next == -1 {
        return;
      }
      r := RangeFrom(node.next, r, from, to, ls[1..]);
    }
  }
}
