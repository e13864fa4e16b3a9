/** One step of a descent through the pages: from a node's kids to one kid and back. */
module BTreeStep {
  import opened Options
  import opened Entries
  import opened BTreeShape
  import opened BTreeInsert
  import opened BTreeSafety
  import opened BTreeNode
  import opened BTreePages
  import opened BTreeIds
  import opened BTreeTidy

  /** The search-tree invariant that all operations keep; insert-only trees also satisfy `TIGHT`. */
  const WEAK := Config(CAP, 0, false)

  const TIGHT := Config(CAP, CAP / 2, true)

  const EXACT := Config(CAP, 0, true)

  /** A subtree, in order and on pages of its own, whose leaf chain ends at `after`. */
  ghost predicate Placed(pages: Pages, nid: PageId, t: Tree, h: nat, lo: int, hi: int, after: PageId) {
    && Ordered(WEAK, t, h, lo, hi)
    && Size(t) <= CAP
    && Distinct(t)
    && Below(Ids(t), nid)
    && Linked(pages, t, after)
  }

  ghost predicate KidsPlaced(pages: Pages, nid: PageId, kids: seq<Entry<Tree>>, h: nat, lo: int, hi: int, after: PageId) {
    && |kids| > 0
    && Chain(WEAK, kids, h, lo, hi)
    && KidsDistinct(kids)
    && Below(KidsIds(kids), nid)
    && KidsStored(pages, kids)
    && KidsLinked(pages, kids, after)
  }

  /** Only pages in `ids` and the new pages `nid..n` differ. */
  ghost predicate OnlyAt(pages: Pages, pages': Pages, ids: set<PageId>, nid: PageId, n: PageId) {
    forall p :: p !in ids && !(nid <= p < n) ==> (p in pages <==> p in pages') && (p in pages ==> pages'[p] == pages[p])
  }

  /** The pages show what an insertion made of a subtree, `g`, and its leaf chain runs through the leaves of `p`. */
  ghost predicate Shown(pages: Pages, g: Grown, p: Grown, isRoot: bool, after: PageId) {
    && Stored(pages, g.left, isRoot && g.right.None?)
    && (g.right.Some? ==> Stored(pages, g.right.value, false))
    && Linked(pages, p.left, if p.right.Some? then FirstLeaf(p.right.value) else after)
    && (p.right.Some? ==> Linked(pages, p.right.value, after))
  }

  /** What inserting below a subtree does to the pages. */
  ghost predicate Inserted(p0: Pages, p1: Pages, nid: PageId, n: PageId, t: Tree, isRoot: bool, after: PageId,
                           key: int, value: Value) {
    var g, p := Ins(CAP, t, key, value, nid), Tidy(CAP, t, key, value, nid);
    n == g.nid && Shown(p1, g, p, isRoot, after) && OnlyAt(p0, p1, Ids(t), nid, n)
  }

  /** The kid that takes the key is placed like the whole is. */
  lemma {:induction false} KidPlaced(pages: Pages, nid: PageId, kids: seq<Entry<Tree>>, h: nat, lo: int, hi: int,
                                     after: PageId, i: nat)
    requires KidsPlaced(pages, nid, kids, h, lo, hi, after) && i < |kids|
    ensures Placed(pages, nid, kids[i].val, h, LoOf(kids, i, lo), kids[i].key, FirstOf(kids[i + 1..], after))
    ensures Stored(pages, kids[i].val, false)
    ensures LoOf(kids, i, lo) < kids[i].key <= hi
  {
    ChainAt(WEAK, kids, i, h, lo, hi);
    Parted(kids, i);
    IdsThree(kids[..i], [kids[i]], kids[i + 1..]);
    IdsOne(kids[i]);
    LinkedThree(pages, kids[..i], [kids[i]], kids[i + 1..], after);
    assert [kids[i]][1..] == [];
  }

  lemma {:induction false} FrameKids(pages: Pages, pages': Pages, kids: seq<Entry<Tree>>, after: PageId,
                                     ids: set<PageId>, nid: PageId, n: PageId)
    requires OnlyAt(pages, pages', ids, nid, n) && KidsIds(kids) !! ids && Below(KidsIds(kids), nid)
    ensures KidsStored(pages, kids) ==> KidsStored(pages', kids)
    ensures KidsLinked(pages, kids, after) ==> KidsLinked(pages', kids, after)
  {
    assert Same(pages, pages', KidsIds(kids));
    if KidsStored(pages, kids) {
      KidsStoredFrame(pages, pages', kids);
    }
    if KidsLinked(pages, kids, after) {
      KidsLinkedFrame(pages, pages', kids, after);
    }
  }

  lemma {:induction false} StoredThree(pages: Pages, a: seq<Entry<Tree>>, x: seq<Entry<Tree>>, b: seq<Entry<Tree>>)
    ensures KidsStored(pages, a + x + b) <==> KidsStored(pages, a) && KidsStored(pages, x) && KidsStored(pages, b)
  {
    var s := a + x + b;
    if KidsStored(pages, s) {
      assert forall i :: 0 <= i < |a| ==> a[i] == s[i];
      assert forall i :: 0 <= i < |x| ==> x[i] == s[|a| + i];
      assert forall i :: 0 <= i < |b| ==> b[i] == s[|a| + |x| + i];
    }
  }

  lemma {:induction false} MidShown(pages: Pages, k: int, g: Grown, p: Grown, after: PageId)
    requires Shown(pages, g, p, false, after)
    ensures KidsStored(pages, Mid(k, g)) && KidsLinked(pages, TidyMid(k, p), after)
  {
    var s := TidyMid(k, p);
    assert s[1..] == if p.right.None? then [] else [s[1]];
    if |s| == 2 {
      assert s[1..][1..] == [];
    }
  }

  /** Once the kid's pages show what became of it, the pages show what became of all kids. */
  lemma {:induction false} KidsShown(pages: Pages, pages': Pages, a: seq<Entry<Tree>>, e: Entry<Tree>, b: seq<Entry<Tree>>,
                  k: int, g: Grown, p: Grown, nid: PageId, after: PageId)
    requires KidsStored(pages, a + [e] + b) && KidsDistinct(a + [e] + b) && Below(KidsIds(a + [e] + b), nid)
    requires KidsLinked(pages, a + [e] + b, after)
    requires OnlyAt(pages, pages', Ids(e.val), nid, g.nid)
    requires Shown(pages', g, p, false, FirstOf(b, after))
    requires FirstLeaf(p.left) == FirstLeaf(e.val)
    ensures KidsStored(pages', a + Mid(k, g) + b)
    ensures KidsLinked(pages', a + TidyMid(k, p) + b, after)
  {
    IdsThree(a, [e], b);
    IdsOne(e);
    StoredThree(pages, a, [e], b);
    LinkedThree(pages, a, [e], b, after);
    FrameKids(pages, pages', a, FirstLeaf(e.val), Ids(e.val), nid, g.nid);
    FrameKids(pages, pages', b, after, Ids(e.val), nid, g.nid);
    MidShown(pages', k, g, p, FirstOf(b, after));
    StoredThree(pages', a, Mid(k, g), b);
    LinkedThree(pages', a, TidyMid(k, p), b, after);
  }

  /** The pages show what an insertion made of the kids of a node, and the leaf chain runs below `ps`. */
  ghost predicate KidsDone(pages: Pages, pages': Pages, nid: PageId, n: PageId, kids: seq<Entry<Tree>>,
                           ks: seq<Entry<Tree>>, ps: seq<Entry<Tree>>, after: PageId) {
    && |kids| > 0 && |ks| > 0 && |ps| > 0
    && KidsStored(pages', ks)
    && KidsLinked(pages', ps, after)
    && OnlyAt(pages, pages', KidsIds(kids), nid, n)
    && IdsGrew(KidsIds(kids), nid, n, KidsIds(ps), KidsDistinct(ps), true)
    && KidsIds(ks) == KidsIds(ps)
    && FirstLeaf(ks[0].val) == FirstLeaf(ps[0].val) == FirstLeaf(kids[0].val)
  }

  /** The state after the recursive call, for the kids of a node. */
  lemma {:induction false} DescentShown(pages: Pages, pages': Pages, nid: PageId, kids: seq<Entry<Tree>>, h: nat,
                                        lo: int, hi: int, after: PageId, key: int, value: Value)
    requires KidsPlaced(pages, nid, kids, h, lo, hi, after) && lo <= key
    requires var i := Route(kids, key);
             var g := Ins(CAP, kids[i].val, key, value, nid);
             && OnlyAt(pages, pages', Ids(kids[i].val), nid, g.nid)
             && Shown(pages', g, Tidy(CAP, kids[i].val, key, value, nid), false, FirstOf(kids[i + 1..], after))
    ensures var (ks, n) := InsKids(CAP, kids, key, value, nid);
            KidsDone(pages, pages', nid, n, kids, ks, TidyKids(CAP, kids, key, value, nid).0, after)
  {
    var i := Route(kids, key);
    var e := kids[i];
    var g, p := Ins(CAP, e.val, key, value, nid), Tidy(CAP, e.val, key, value, nid);
    var (ks, n) := InsKids(CAP, kids, key, value, nid);
    var ps := TidyKids(CAP, kids, key, value, nid).0;
    DescentForm(pages, nid, kids, h, lo, hi, after, key, value);
    DescentIds(pages, nid, kids, h, lo, hi, after, key, value);
    IdsOfKid(kids, i);
    assert kids == kids[..i] + [e] + kids[i + 1..];
    hide Ins, Tidy, InsKids, TidyKids, Ids, KidsDistinct, Distinct, Stored, KidsStored, Linked, KidsLinked, Chain, Ordered, Mid,
      TidyMid, Shown;
    KidsShown(pages, pages', kids[..i], e, kids[i + 1..], NewHi(e.key, key), g, p, nid, after);
  }

  lemma {:induction false} DescentForm(pages: Pages, nid: PageId, kids: seq<Entry<Tree>>, h: nat, lo: int, hi: int, after: PageId,
                                       key: int, value: Value)
    requires KidsPlaced(pages, nid, kids, h, lo, hi, after) && lo <= key
    ensures var i := Route(kids, key);
            var e := kids[i];
            var g, p := Ins(CAP, e.val, key, value, nid), Tidy(CAP, e.val, key, value, nid);
            && InsKids(CAP, kids, key, value, nid) == (kids[..i] + Mid(NewHi(e.key, key), g) + kids[i + 1..], g.nid)
            && TidyKids(CAP, kids, key, value, nid).0 == kids[..i] + TidyMid(NewHi(e.key, key), p) + kids[i + 1..]
            && FirstLeaf(p.left) == FirstLeaf(e.val) && kids == kids[..i] + [e] + kids[i + 1..]
  {
    var i := Route(kids, key);
    var e, mid := kids[i], LoOf(kids, i, lo);
    RouteSplit(WEAK, kids, h, lo, hi, key);
    KidPlaced(pages, nid, kids, h, lo, hi, after, i);
    TidyIds(WEAK, e.val, h, mid, e.key, key, value, nid);
    InsSeps(WEAK, e.val, h, mid, e.key, key, value, nid);
    KidsForm(WEAK, kids, h, lo, hi, key, Ins(CAP, e.val, key, value, nid));
  }

  lemma {:induction false} DescentIds(pages: Pages, nid: PageId, kids: seq<Entry<Tree>>, h: nat, lo: int, hi: int, after: PageId,
                                      key: int, value: Value)
    requires KidsPlaced(pages, nid, kids, h, lo, hi, after) && lo <= key
    ensures var (ks, n) := InsKids(CAP, kids, key, value, nid);
            var ps := TidyKids(CAP, kids, key, value, nid).0;
            && |ks| > 0 && |ps| > 0 && KidsIds(ks) == KidsIds(ps)
            && IdsGrew(KidsIds(kids), nid, n, KidsIds(ps), KidsDistinct(ps), true)
            && FirstLeaf(ks[0].val) == FirstLeaf(ps[0].val) == FirstLeaf(kids[0].val)
  {
    hide Ins, Tidy, InsKids, TidyKids, Ids, KidsIds, KidsDistinct, KidsStored, KidsLinked, Chain, FirstLeaf;
    KidsInsIds(WEAK, kids, h, lo, hi, key, value, nid);
    TidyKidsIds(WEAK, kids, h, lo, hi, key, value, nid);
    KidsAlike(WEAK, kids, h, lo, hi, key, value, nid);
    var (ks, n) := InsKids(CAP, kids, key, value, nid);
    SameIds(KidsIds(kids), nid, n, KidsIds(ks), KidsIds(TidyKids(CAP, kids, key, value, nid).0));
  }

  // ---------------------------------------------------------------- a node, or the half of it that takes the key

  function LeftHalf(t: Tree): Tree {
    if t.Leaf? then Leaf(t.id, t.kvs[..|t.kvs| / 2]) else Inner(t.id, t.kids[..|t.kids| / 2])
  }

  function RightHalf(t: Tree, id: PageId): Tree {
    if t.Leaf? then Leaf(id, t.kvs[|t.kvs| / 2..]) else Inner(id, t.kids[|t.kids| / 2..])
  }

  /** The pages of the two halves of a cut node, before anything is inserted. */
  function LeftPage(t: Tree, nid: PageId): Page {
    Page(TypeOf(t), false, if t.Leaf? then nid else -1, t.id, Slots(LeftHalf(t)))
  }

  function RightPage(t: Tree, nid: PageId, after: PageId): Page {
    Page(TypeOf(t), false, if t.Leaf? then after else -1, nid, Slots(RightHalf(t, nid)))
  }

  lemma {:induction false} CutSlots(t: Tree, nid: PageId)
    requires Size(t) == CAP
    ensures Slots(t)[..CAP / 2] == Slots(LeftHalf(t)) && Slots(t)[CAP / 2..] == Slots(RightHalf(t, nid))
    ensures |Slots(LeftHalf(t))| > 0 && Last(Slots(LeftHalf(t))).key == LastKeyOf(LeftHalf(t))
  {
    if t.Leaf? {
      ValCut(t.kvs, CAP / 2);
    } else {
      PtrCut(t.kids, CAP / 2);
    }
  }

  lemma {:induction false} ValCut(kvs: seq<Entry<Value>>, m: nat)
    requires m <= |kvs|
    ensures ValSlots(kvs)[..m] == ValSlots(kvs[..m]) && ValSlots(kvs)[m..] == ValSlots(kvs[m..])
  {
  }

  lemma {:induction false} PtrCut(kids: seq<Entry<Tree>>, m: nat)
    requires m <= |kids|
    ensures PtrSlots(kids)[..m] == PtrSlots(kids[..m]) && PtrSlots(kids)[m..] == PtrSlots(kids[m..])
  {
  }

  function LastKeyOf(t: Tree): int
    requires Size(t) > 0
  {
    if t.Leaf? then Last(t.kvs).key else Last(t.kids).key
  }

  /** Insert below a node without cutting it. */
  function Here(t: Tree, key: int, value: Value, nid: PageId): (Tree, PageId) {
    match t
    case Leaf(id, kvs) => (Leaf(id, Replace(kvs, key, value)), nid)
    case Inner(id, kids) => var (ks, n) := InsKids(CAP, kids, key, value, nid); (Inner(id, ks), n)
  }

  /** The same, leaving no slot behind. */
  function TidyHere(t: Tree, key: int, value: Value, nid: PageId): (Tree, PageId) {
    match t
    case Leaf(id, kvs) => (Leaf(id, Replace(kvs, key, value)), nid)
    case Inner(id, kids) => var (ks, n) := TidyKids(CAP, kids, key, value, nid); (Inner(id, ks), n)
  }

  /** Insertion is insertion into the half that takes the key: `here` of it if it is cut, of the node otherwise. */
  ghost predicate ByHalves(t: Tree, key: int, nid: PageId, here: (Tree, PageId), g: Grown) {
    if Size(t) < CAP then
      g == Grown(here.0, None, here.1)
    else if LastKeyOf(LeftHalf(t)) <= key then
      g == Grown(LeftHalf(t), Some(here.0), here.1)
    else
      g == Grown(here.0, Some(RightHalf(t, nid)), here.1)
  }

  /** The node or half that takes the key. */
  function Taking(t: Tree, key: int, nid: PageId): Tree {
    if Size(t) < CAP then t else if LastKeyOf(LeftHalf(t)) <= key then RightHalf(t, nid) else LeftHalf(t)
  }

  function Next(t: Tree, nid: PageId): PageId {
    if Size(t) < CAP then nid else nid + 1
  }

  lemma {:induction false} InsByHalves(t: Tree, key: int, value: Value, nid: PageId)
    ensures ByHalves(t, key, nid, Here(Taking(t, key, nid), key, value, Next(t, nid)), Ins(CAP, t, key, value, nid))
    ensures ByHalves(t, key, nid, TidyHere(Taking(t, key, nid), key, value, Next(t, nid)), Tidy(CAP, t, key, value, nid))
  {
    match t {
      case Leaf(id, kvs) => LeafByHalves(id, kvs, key, value, nid);
      case Inner(id, kids) =>
        var part, n := Half(CAP, kids, key), if |kids| < CAP then nid else nid + 1;
        var (ks, n') := InsKids(CAP, part, key, value, n);
        var (ps, m') := TidyKids(CAP, part, key, value, n);
        InnerByHalves(id, kids, key, nid, ks, n');
        InnerByHalves(id, kids, key, nid, ps, m');
    }
  }

  lemma {:induction false} LeafByHalves(id: PageId, kvs: seq<Entry<Value>>, key: int, value: Value, nid: PageId)
    ensures ByHalves(Leaf(id, kvs), key, nid, Here(Taking(Leaf(id, kvs), key, nid), key, value, Next(Leaf(id, kvs), nid)),
                     InsLeaf(CAP, id, kvs, key, value, nid))
  {
    if |kvs| >= CAP {
      assert LastKeyOf(LeftHalf(Leaf(id, kvs))) == kvs[|kvs| / 2 - 1].key;
    }
  }

  lemma {:induction false} InnerByHalves(id: PageId, kids: seq<Entry<Tree>>, key: int, nid: PageId,
                                         ks: seq<Entry<Tree>>, n: PageId)
    ensures var t := Inner(id, kids);
            && Taking(t, key, nid).Inner? && Taking(t, key, nid).kids == Half(CAP, kids, key)
            && ByHalves(t, key, nid, (Inner(Taking(t, key, nid).id, ks), n), Rejoin(CAP, id, kids, key, nid, ks, n))
  {
    if |kids| >= CAP {
      assert LastKeyOf(LeftHalf(Inner(id, kids))) == kids[|kids| / 2 - 1].key;
    }
  }

  /** What inserting below a node, or below one half of it, needs. */
  ghost predicate HereReady(pages: Pages, nid: PageId, t: Tree, h: nat, lo: int, hi: int, after: PageId) {
    && t.id < nid
    && (t.Inner? ==>
          && h > 0
          && t.id !in KidsIds(t.kids)
          && KidsPlaced(pages, nid, t.kids, h - 1, lo, hi, after))
  }

  ghost predicate HereDone(pages: Pages, pages': Pages, nid: PageId, n: PageId, t: Tree, t': Tree, v: Tree, isRoot: bool,
                           after: PageId) {
    && Stored(pages', t', isRoot)
    && Linked(pages', v, after)
    && OnlyAt(pages, pages', Ids(t), nid, n)
    && IdsGrew(Ids(t), nid, n, Ids(v), Distinct(v), true)
    && Ids(t') == Ids(v)
    && FirstLeaf(t') == FirstLeaf(v) == FirstLeaf(t)
  }

  lemma {:induction false} WholeReady(pages: Pages, nid: PageId, t: Tree, h: nat, lo: int, hi: int, after: PageId, isRoot: bool)
    requires Placed(pages, nid, t, h, lo, hi, after) && Stored(pages, t, isRoot)
    ensures HereReady(pages, nid, t, h, lo, hi, after)
  {
  }

  /** The kids of a node that is ready. */
  lemma {:induction false} BelowReady(pages: Pages, nid: PageId, t: Tree, h: nat, lo: int, hi: int, after: PageId)
    requires HereReady(pages, nid, t, h, lo, hi, after) && t.Inner?
    ensures h > 0 && t.id < nid && t.id !in KidsIds(t.kids) && |t.kids| > 0 && Sorted(t.kids)
    ensures KidsPlaced(pages, nid, t.kids, h - 1, lo, hi, after)
  {
    ChainBounds(WEAK, t.kids, h - 1, lo, hi);
  }

  /** What inserting into the kids makes of the one that takes the key. */
  lemma {:induction false} KidsForward(kids: seq<Entry<Tree>>, key: int, value: Value, nid: PageId)
    requires |kids| > 0
    ensures var i := Route(kids, key);
            var g := Ins(CAP, kids[i].val, key, value, nid);
            && InsKids(CAP, kids, key, value, nid) == (Install(Bump(kids, key), i, g), g.nid)
            && g.left.id == kids[i].val.id && |Bump(kids, key)| == |kids| && Bump(kids, key)[i].val == kids[i].val
  {
    RightOnlyWhenFull(CAP, kids[Route(kids, key)].val, key, value, nid);
  }

  /** Both halves of a cut node are ready, whatever is written on the node's own page and on new pages. */
  lemma {:induction false} HalvesReady(pages: Pages, pages': Pages, nid: PageId, t: Tree, h: nat, lo: int, hi: int, after: PageId)
    requires HereReady(pages, nid, t, h, lo, hi, after) && Size(t) == CAP
    requires OnlyAt(pages, pages', {t.id}, nid, nid + 1)
    ensures HereReady(pages', nid + 1, RightHalf(t, nid), h, LastKeyOf(LeftHalf(t)), hi, after)
    ensures HereReady(pages', nid + 1, LeftHalf(t), h, lo, LastKeyOf(LeftHalf(t)), FirstLeaf(RightHalf(t, nid)))
  {
    if t.Inner? {
      var m := |t.kids| / 2;
      CutPlaced(pages, pages', nid, t.kids, m, h - 1, lo, hi, after, t.id);
      assert LastKeyOf(LeftHalf(t)) == t.kids[m - 1].key;
      assert nid !in KidsIds(t.kids);
    }
  }

  lemma {:induction false} CutPlaced(pages: Pages, pages': Pages, nid: PageId, kids: seq<Entry<Tree>>, m: nat, h: nat,
                                     lo: int, hi: int, after: PageId, id: PageId)
    requires KidsPlaced(pages, nid, kids, h, lo, hi, after) && 0 < m < |kids|
    requires id !in KidsIds(kids) && OnlyAt(pages, pages', {id}, nid, nid + 1)
    ensures KidsPlaced(pages', nid + 1, kids[..m], h, lo, kids[m - 1].key, FirstOf(kids[m..], after))
    ensures KidsPlaced(pages', nid + 1, kids[m..], h, kids[m - 1].key, hi, after)
    ensures KidsIds(kids) == KidsIds(kids[..m]) + KidsIds(kids[m..])
  {
    Halved(kids, m);
    CutKids(WEAK, kids, m, h, lo, hi);
    IdsConcat(kids[..m], kids[m..]);
    LinkedConcat(pages, kids[..m], kids[m..], after);
    FrameKids(pages, pages', kids[..m], FirstOf(kids[m..], after), {id}, nid, nid + 1);
    FrameKids(pages, pages', kids[m..], after, {id}, nid, nid + 1);
  }

  lemma {:induction false} HalvesApart(pages: Pages, nid: PageId, t: Tree, h: nat, lo: int, hi: int, after: PageId)
    requires HereReady(pages, nid, t, h, lo, hi, after) && Size(t) == CAP
    ensures Ids(LeftHalf(t)) !! Ids(RightHalf(t, nid))
    ensures Ids(LeftHalf(t)) + Ids(RightHalf(t, nid)) == Ids(t) + {nid}
    ensures Below(Ids(t), nid)
  {
    if t.Inner? {
      Halved(t.kids, |t.kids| / 2);
      IdsConcat(t.kids[..|t.kids| / 2], t.kids[|t.kids| / 2..]);
    }
  }

  lemma {:induction false} OnlyAtTwice(p0: Pages, p1: Pages, p2: Pages, a: set<PageId>, b: set<PageId>,
                                       ids: set<PageId>, nid: PageId, m: PageId, n: PageId)
    requires OnlyAt(p0, p1, a, nid, m) && OnlyAt(p1, p2, b, m, n) && nid <= m <= n
    requires forall p :: p in a || p in b ==> p in ids || nid <= p < n
    ensures OnlyAt(p0, p2, ids, nid, n)
  {
  }

  /** The half that does not take the key, once written, stays as it is while the other half changes. */
  lemma {:induction false} OtherHalf(p1: Pages, p2: Pages, u: Tree, x: Tree, h: nat, lo: int, hi: int, after: PageId,
                                     nid: PageId, n: PageId)
    requires HereReady(p1, nid, u, h, lo, hi, after)
    requires u.id in p1 && p1[u.id] == Page(TypeOf(u), false, if u.Leaf? then after else -1, u.id, Slots(u))
    requires OnlyAt(p1, p2, Ids(x), nid, n) && Ids(u) !! Ids(x) && Below(Ids(u), nid)
    ensures Stored(p2, u, false) && Linked(p2, u, after)
  {
    assert Stored(p1, u, false) && Linked(p1, u, after);
    assert Same(p1, p2, Ids(u));
    StoredFrame(p1, p2, u, false);
    LinkedFrame(p1, p2, u, after);
  }

  /** The key went into the right half. */
  lemma {:induction false} CutShownRight(p0: Pages, p1: Pages, p2: Pages, nid: PageId, n: PageId, t: Tree, r': Tree, v: Tree,
                                         h: nat, lo: int, hi: int, after: PageId, isRoot: bool)
    requires HereReady(p0, nid, t, h, lo, hi, after) && Size(t) == CAP
    requires p1 == p0[t.id := LeftPage(t, nid)]
    requires HereDone(p1, p2, nid + 1, n, RightHalf(t, nid), r', v, false, after)
    ensures Shown(p2, Grown(LeftHalf(t), Some(r'), n), Grown(LeftHalf(t), Some(v), n), isRoot, after)
    ensures OnlyAt(p0, p2, Ids(t), nid, n)
  {
    var l, r := LeftHalf(t), RightHalf(t, nid);
    HalvesReady(p0, p1, nid, t, h, lo, hi, after);
    HalvesApart(p0, nid, t, h, lo, hi, after);
    OtherHalf(p1, p2, l, r, h, lo, LastKeyOf(l), FirstLeaf(r), nid + 1, n);
    OnlyAtTwice(p0, p1, p2, {t.id}, Ids(r), Ids(t), nid, nid + 1, n);
  }

  /** The key went into the left half. */
  lemma {:induction false} CutShownLeft(p0: Pages, p1: Pages, p2: Pages, nid: PageId, n: PageId, t: Tree, l': Tree, v: Tree,
                                        h: nat, lo: int, hi: int, after: PageId, isRoot: bool)
    requires HereReady(p0, nid, t, h, lo, hi, after) && Size(t) == CAP
    requires p1 == p0[nid := RightPage(t, nid, after)]
    requires HereDone(p1, p2, nid + 1, n, LeftHalf(t), l', v, false, FirstLeaf(RightHalf(t, nid)))
    ensures Shown(p2, Grown(l', Some(RightHalf(t, nid)), n), Grown(v, Some(RightHalf(t, nid)), n), isRoot, after)
    ensures OnlyAt(p0, p2, Ids(t), nid, n)
  {
    var l, r := LeftHalf(t), RightHalf(t, nid);
    HalvesReady(p0, p1, nid, t, h, lo, hi, after);
    HalvesApart(p0, nid, t, h, lo, hi, after);
    OtherHalf(p1, p2, r, l, h, LastKeyOf(l), hi, after, nid + 1, n);
    OnlyAtTwice(p0, p1, p2, {}, Ids(l), Ids(t), nid, nid + 1, n);
  }

  /** Writing a node's page after its kids changed. */
  lemma {:induction false} LeafWritten(p: Pages, p': Pages, nid: PageId, id: PageId, kvs: seq<Entry<Value>>,
                                       kvs': seq<Entry<Value>>, isRoot: bool, after: PageId)
    requires p' == p[id := Page(LeafNode, isRoot, after, id, ValSlots(kvs'))] && id < nid
    ensures HereDone(p, p', nid, nid, Leaf(id, kvs), Leaf(id, kvs'), Leaf(id, kvs'), isRoot, after)
  {
  }

  lemma {:induction false} HereWritten(p0: Pages, p1: Pages, p2: Pages, nid: PageId, n: PageId, t: Tree,
                                       ks: seq<Entry<Tree>>, ps: seq<Entry<Tree>>, isRoot: bool, after: PageId)
    requires t.Inner? && t.id < nid && t.id !in KidsIds(t.kids)
    requires KidsDone(p0, p1, nid, n, t.kids, ks, ps, after)
    requires p2 == p1[t.id := Page(InternalNode, isRoot, -1, t.id, PtrSlots(ks))]
    ensures HereDone(p0, p2, nid, n, t, Inner(t.id, ks), Inner(t.id, ps), isRoot, after)
  {
    assert Same(p1, p2, KidsIds(ks));
    KidsStoredFrame(p1, p2, ks);
    KidsLinkedFrame(p1, p2, ps, after);
  }

  /** Both halves of a cut node have a last key, and their separators do not overflow the key type. */
  lemma {:induction false} CutSeparators(t: Tree, h: nat, lo: int, hi: int, key: int, value: Value, nid: PageId)
    requires Ordered(WEAK, t, h, lo, hi) && Size(t) == CAP && lo <= key < KEY_MAX && hi <= KEY_MAX
    ensures var g := Ins(CAP, t, key, value, nid);
            && g.right.Some?
            && Separable(g.left) && Separable(g.right.value)
  {
    InsSeps(WEAK, t, h, lo, hi, key, value, nid);
    CutSizes(t, key, value, nid);
  }

  ghost predicate Separable(t: Tree) {
    Size(t) > 0 && Sep(t) <= KEY_MAX
  }

  /** The separator can be read off a node's last slot. */
  lemma {:induction false} SepOfSlots(t: Tree)
    requires Size(t) > 0
    ensures Last(Slots(t)).key == if t.Leaf? then Sep(t) - 1 else Sep(t)
  {
  }

  lemma {:induction false} CutSizes(t: Tree, key: int, value: Value, nid: PageId)
    requires Size(t) == CAP
    ensures var g := Ins(CAP, t, key, value, nid);
            g.right.Some? && Size(g.left) > 0 && Size(g.right.value) > 0
  {
  }

  lemma {:induction false} LeftKeyBound(t: Tree, h: nat, lo: int, hi: int)
    requires Ordered(WEAK, t, h, lo, hi) && Size(t) == CAP
    ensures LastKeyOf(LeftHalf(t)) <= hi
  {
    if t.Inner? {
      ChainBounds(WEAK, t.kids, h - 1, lo, hi);
    }
  }

  lemma {:induction false} RightReady(p0: Pages, p1: Pages, nid: PageId, t: Tree, h: nat, lo: int, hi: int, after: PageId)
    requires HereReady(p0, nid, t, h, lo, hi, after) && Size(t) == CAP
    requires p1 == p0[t.id := LeftPage(t, nid)]
    ensures HereReady(p1, nid + 1, RightHalf(t, nid), h, LastKeyOf(LeftHalf(t)), hi, after)
  {
    HalvesReady(p0, p1, nid, t, h, lo, hi, after);
  }

  lemma {:induction false} LeftReady(p0: Pages, p1: Pages, nid: PageId, t: Tree, h: nat, lo: int, hi: int, after: PageId)
    requires HereReady(p0, nid, t, h, lo, hi, after) && Size(t) == CAP
    requires p1 == p0[nid := RightPage(t, nid, after)]
    ensures HereReady(p1, nid + 1, LeftHalf(t), h, lo, LastKeyOf(LeftHalf(t)), FirstLeaf(RightHalf(t, nid)))
  {
    HalvesReady(p0, p1, nid, t, h, lo, hi, after);
  }

  lemma {:induction false} HereAll(p0: Pages, p1: Pages, nid: PageId, t: Tree, isRoot: bool, after: PageId,
                                   key: int, value: Value)
    requires Size(t) < CAP
    requires var (t', n) := Here(t, key, value, nid); HereDone(p0, p1, nid, n, t, t', TidyHere(t, key, value, nid).0, isRoot, after)
    ensures Inserted(p0, p1, nid, Here(t, key, value, nid).1, t, isRoot, after, key, value)
    ensures Ins(CAP, t, key, value, nid).right.None?
  {
    InsByHalves(t, key, value, nid);
  }

  lemma {:induction false} CutRightDone(p0: Pages, p1: Pages, p2: Pages, nid: PageId, t: Tree, h: nat, lo: int, hi: int,
                                        isRoot: bool, after: PageId, key: int, value: Value)
    requires HereReady(p0, nid, t, h, lo, hi, after) && Ordered(WEAK, t, h, lo, hi) && Size(t) == CAP
    requires lo <= key && LastKeyOf(LeftHalf(t)) <= key
    requires p1 == p0[t.id := LeftPage(t, nid)]
    requires var r := RightHalf(t, nid);
             var (r', n) := Here(r, key, value, nid + 1);
             HereDone(p1, p2, nid + 1, n, r, r', TidyHere(r, key, value, nid + 1).0, false, after)
    ensures var g, (r', n) := Ins(CAP, t, key, value, nid), Here(RightHalf(t, nid), key, value, nid + 1);
            && g == Grown(LeftHalf(t), Some(r'), n)
            && Inserted(p0, p2, nid, n, t, isRoot, after, key, value)
  {
    var r := RightHalf(t, nid);
    var (r', n) := Here(r, key, value, nid + 1);
    InsByHalves(t, key, value, nid);
    TidyAlike(WEAK, t, h, lo, hi, key, value, nid);
    CutShownRight(p0, p1, p2, nid, n, t, r', TidyHere(r, key, value, nid + 1).0, h, lo, hi, after, isRoot);
  }

  lemma {:induction false} CutLeftDone(p0: Pages, p1: Pages, p2: Pages, nid: PageId, t: Tree, h: nat, lo: int, hi: int,
                                       isRoot: bool, after: PageId, key: int, value: Value)
    requires HereReady(p0, nid, t, h, lo, hi, after) && Ordered(WEAK, t, h, lo, hi) && Size(t) == CAP
    requires lo <= key < LastKeyOf(LeftHalf(t))
    requires p1 == p0[nid := RightPage(t, nid, after)]
    requires var l := LeftHalf(t);
             var (l', n) := Here(l, key, value, nid + 1);
             HereDone(p1, p2, nid + 1, n, l, l', TidyHere(l, key, value, nid + 1).0, false, FirstLeaf(RightHalf(t, nid)))
    ensures var g, (l', n) := Ins(CAP, t, key, value, nid), Here(LeftHalf(t), key, value, nid + 1);
            && g == Grown(l', Some(RightHalf(t, nid)), n)
            && Inserted(p0, p2, nid, n, t, isRoot, after, key, value)
  {
    var l := LeftHalf(t);
    var (l', n) := Here(l, key, value, nid + 1);
    InsByHalves(t, key, value, nid);
    TidyAlike(WEAK, t, h, lo, hi, key, value, nid);
    CutShownLeft(p0, p1, p2, nid, n, t, l', TidyHere(l, key, value, nid + 1).0, h, lo, hi, after, isRoot);
  }

  // ---------------------------------------------------------------- the root

  ghost predicate NonNegative(ids: set<PageId>) {
    forall p :: p in ids ==> 0 <= p
  }

  /** From page `root` on, the pages show the search tree `t`. */
  ghost predicate ShowsTree(pages: Pages, nid: PageId, root: PageId, t: Tree) {
    && t.id == root
    && Stored(pages, t, true)
    && Linked(pages, t, -1)
    && Distinct(t)
    && Below(Ids(t), nid)
    && NonNegative(Ids(t))
    && SearchTree(WEAK, t)
  }

  lemma {:induction false} RootPlaced(pages: Pages, nid: PageId, t: Tree)
    requires ShowsTree(pages, nid, t.id, t)
    ensures Placed(pages, nid, t, Height(t), KEY_MIN, Hi(t), -1)
  {
  }

  /** The pages of the root once everything below it is done. */
  function RootPages(p1: Pages, g: Grown): Pages {
    match g.right
    case None => p1
    case Some(r) =>
      var slots := [Entry(Sep(g.left), Pointer(g.left.id))];
      p1[g.nid := Page(InternalNode, true, -1, g.nid, InsertNew(slots, Sep(r), Pointer(r.id)))]
  }

  /**
   * From page `root` on, the pages show the slots of `u`, which may reach a page twice, and the leaf chain from `u`'s first
   * leaf runs through the leaves of `v`, once each.
   */
  ghost predicate Chained(pages: Pages, nid: PageId, root: PageId, u: Tree, v: Tree) {
    && root == u.id >= 0
    && Stored(pages, u, true)
    && Linked(pages, v, -1)
    && Distinct(v)
    && Below(Ids(v), nid)
    && NonNegative(Ids(v))
    && Ids(u) == Ids(v)
    && KidsThere(u) && KidsThere(v)
    && FirstLeaf(u) == FirstLeaf(v)
  }

  /** What inserting at the root does to the pages. */
  ghost predicate RootInserted(p0: Pages, p2: Pages, nid: PageId, n: PageId, root: PageId, t: Tree, u: Tree, v: Tree) {
    n >= 0 && Chained(p2, n, root, u, v) && OnlyAt(p0, p2, Ids(t), nid, n)
  }

  lemma {:induction false} ChainedSearch(pages: Pages, nid: PageId, root: PageId, t: Tree)
    ensures ShowsTree(pages, nid, root, t) ==> Chained(pages, nid, root, t, t)
    ensures Chained(pages, nid, root, t, t) && SearchTree(WEAK, t) ==> ShowsTree(pages, nid, root, t)
  {
    if ShowsTree(pages, nid, root, t) {
      OrderedKidsThere(WEAK, t, Height(t), KEY_MIN, Hi(t));
      assert t.id in Ids(t);
    }
  }

  function RootId(t: Tree, g: Grown): PageId {
    if g.right.Some? then g.nid else t.id
  }

  lemma {:induction false} RootDone(p0: Pages, p1: Pages, nid: PageId, t: Tree, key: int, value: Value)
    requires ShowsTree(p0, nid, t.id, t) && nid >= 0 && KEY_MIN <= key < KEY_MAX
    requires Inserted(p0, p1, nid, Ins(CAP, t, key, value, nid).nid, t, true, -1, key, value)
    ensures RootInserted(p0, RootPages(p1, Ins(CAP, t, key, value, nid)), nid, Insert(CAP, t, key, value, nid).1,
                         RootId(t, Ins(CAP, t, key, value, nid)), t, Insert(CAP, t, key, value, nid).0,
                         TidyInsert(CAP, t, key, value, nid).0)
    ensures Insert(CAP, t, key, value, nid).1 ==
            Ins(CAP, t, key, value, nid).nid + if Ins(CAP, t, key, value, nid).right.Some? then 1 else 0
  {
    hide Ins, Tidy, Stored, Linked, Ordered, Shown, OnlyAt, KidsThere;
    var h := Height(t);
    var g, p := Ins(CAP, t, key, value, nid), Tidy(CAP, t, key, value, nid);
    RightOnlyWhenFull(CAP, t, key, value, nid);
    InsIds(WEAK, t, h, KEY_MIN, Hi(t), key, value, nid);
    TidyIds(WEAK, t, h, KEY_MIN, Hi(t), key, value, nid);
    TidyAlike(WEAK, t, h, KEY_MIN, Hi(t), key, value, nid);
    InsThere(WEAK, t, h, KEY_MIN, Hi(t), key, value, nid);
    SameIds(Ids(t), nid, g.nid, GrownIds(g), GrownIds(p));
    if g.right.None? {
      KeptDone(p0, p1, nid, t, g, p);
    } else {
      InsSeps(WEAK, t, h, KEY_MIN, Hi(t), key, value, nid);
      RaisedDone(p0, p1, nid, t, g, p);
    }
  }

  lemma {:induction false} SameIds(ids: set<PageId>, nid: PageId, n: PageId, a: set<PageId>, b: set<PageId>)
    requires forall q :: q in a <==> q in ids || nid <= q < n
    requires forall q :: q in b <==> q in ids || nid <= q < n
    ensures a == b
  {
    assert forall q :: q in a <==> q in b;
  }

  lemma {:induction false} KeptDone(p0: Pages, p1: Pages, nid: PageId, t: Tree, g: Grown, p: Grown)
    requires g.right.None? && Alike(g, p) && Shown(p1, g, p, true, -1) && OnlyAt(p0, p1, Ids(t), nid, g.nid)
    requires Below(Ids(t), nid) && NonNegative(Ids(t)) && nid >= 0
    requires IdsGrew(Ids(t), nid, g.nid, GrownIds(p), GrownDistinct(p), true) && GrownIds(g) == GrownIds(p)
    requires GrownThere(g) && GrownThere(p) && FirstLeaf(g.left) == FirstLeaf(p.left)
    ensures Chained(p1, g.nid, g.left.id, g.left, p.left)
  {
    assert GrownIds(g) == Ids(g.left) && GrownIds(p) == Ids(p.left);
    GrownRange(Ids(t), nid, g.nid, Ids(p.left));
    assert g.left.id in Ids(g.left);
  }

  lemma {:induction false} RaisedDone(p0: Pages, p1: Pages, nid: PageId, t: Tree, g: Grown, p: Grown)
    requires g.right.Some? && Alike(g, p) && Shown(p1, g, p, true, -1) && OnlyAt(p0, p1, Ids(t), nid, g.nid)
    requires Below(Ids(t), nid) && NonNegative(Ids(t)) && nid >= 0
    requires IdsGrew(Ids(t), nid, g.nid, GrownIds(p), GrownDistinct(p), true) && GrownIds(g) == GrownIds(p)
    requires GrownThere(g) && GrownThere(p) && FirstLeaf(g.left) == FirstLeaf(p.left)
    requires Sep(g.left) < Sep(g.right.value)
    ensures var u, v := Raise(g.nid, g.left, g.right.value), Raise(g.nid, p.left, p.right.value);
            Chained(RootPages(p1, g), g.nid + 1, g.nid, u, v) && OnlyAt(p0, RootPages(p1, g), Ids(t), nid, g.nid + 1)
  {
    GrownRange(Ids(t), nid, g.nid, GrownIds(p));
    RaisedStored(p1, g);
    RaisedLinked(p1, g, p);
    RootRange(GrownIds(p), g.nid);
  }

  lemma {:induction false} GrownRange(ids: set<PageId>, nid: PageId, n: PageId, ids': set<PageId>)
    requires Below(ids, nid) && NonNegative(ids) && 0 <= nid <= n
    requires forall p :: p in ids' <==> p in ids || nid <= p < n
    ensures Below(ids', n) && NonNegative(ids')
  {
  }

  lemma {:induction false} RootRange(ids: set<PageId>, n: PageId)
    requires Below(ids, n) && NonNegative(ids) && n >= 0
    ensures Below(ids + {n}, n + 1) && NonNegative(ids + {n})
  {
  }

  /** The new root's two kids. */
  lemma {:induction false} RaisedParts(id: PageId, l: Tree, r: Tree)
    requires Sep(l) < Sep(r)
    ensures Raise(id, l, r) == Inner(id, [Entry(Sep(l), l), Entry(Sep(r), r)])
    ensures Ids(Raise(id, l, r)) == Ids(l) + Ids(r) + {id}
    ensures Distinct(Raise(id, l, r)) <==> Distinct(l) && Distinct(r) && Ids(l) !! Ids(r) && id !in Ids(l) + Ids(r)
    ensures KidsThere(l) && KidsThere(r) ==> KidsThere(Raise(id, l, r))
    ensures FirstLeaf(Raise(id, l, r)) == FirstLeaf(l)
  {
    var d, e := Entry(Sep(l), l), Entry(Sep(r), r);
    RaiseForm(id, l, r);
    IdsTwo(d, e);
    OneThere(d.key, l);
    OneThere(e.key, r);
    ThereConcat([d], [e]);
    assert [d] + [e] == [d, e];
  }

  lemma {:induction false} RaisedStored(p1: Pages, g: Grown)
    requires g.right.Some? && Sep(g.left) < Sep(g.right.value)
    requires Stored(p1, g.left, false) && Stored(p1, g.right.value, false) && Below(GrownIds(g), g.nid) && GrownThere(g)
    ensures var u := Raise(g.nid, g.left, g.right.value);
            Stored(RootPages(p1, g), u, true) && KidsThere(u) && Ids(u) == GrownIds(g) + {g.nid} && FirstLeaf(u) == FirstLeaf(g.left)
  {
    var l, r, p2 := g.left, g.right.value, RootPages(p1, g);
    RaisedParts(g.nid, l, r);
    PositionIs([Entry(Sep(l), Pointer(l.id))], Sep(r), 1);
    assert p2[g.nid].values == PtrSlots([Entry(Sep(l), l), Entry(Sep(r), r)]);
    assert Same(p1, p2, Ids(l)) && Same(p1, p2, Ids(r));
    StoredFrame(p1, p2, l, false);
    StoredFrame(p1, p2, r, false);
    assert KidsStored(p2, [Entry(Sep(l), l), Entry(Sep(r), r)]);
  }

  lemma {:induction false} RaisedLinked(p1: Pages, g: Grown, p: Grown)
    requires g.right.Some? && Alike(g, p) && Sep(g.left) < Sep(g.right.value)
    requires Linked(p1, p.left, FirstLeaf(p.right.value)) && Linked(p1, p.right.value, -1)
    requires Below(GrownIds(p), g.nid) && GrownDistinct(p) && GrownThere(p)
    ensures var v := Raise(g.nid, p.left, p.right.value);
            && Linked(RootPages(p1, g), v, -1) && Distinct(v) && KidsThere(v)
            && Ids(v) == GrownIds(p) + {g.nid} && FirstLeaf(v) == FirstLeaf(p.left)
  {
    var l, r, p2 := p.left, p.right.value, RootPages(p1, g);
    RaisedParts(g.nid, l, r);
    assert Same(p1, p2, Ids(l)) && Same(p1, p2, Ids(r));
    LinkedFrame(p1, p2, l, FirstLeaf(r));
    LinkedFrame(p1, p2, r, -1);
    LinkedTwo(p2, Entry(Sep(l), l), Entry(Sep(r), r), -1);
  }

  lemma {:induction false} LinkedTwo(pages: Pages, d: Entry<Tree>, e: Entry<Tree>, after: PageId)
    requires Linked(pages, d.val, FirstLeaf(e.val)) && Linked(pages, e.val, after)
    ensures KidsLinked(pages, [d, e], after)
  {
    assert [d, e][1..] == [e] && [e][1..] == [];
    assert KidsLinked(pages, [e], after);
  }

  /** A root leaf as it is written before the first insertion. */
  lemma {:induction false} EmptyShown(pages: Pages, id: PageId)
    requires id >= 0 && id in pages && pages[id] == Page(LeafNode, true, -1, id, [])
    ensures ShowsTree(pages, id + 1, id, Leaf(id, []))
    ensures Stored(pages, Leaf(id, []), true)
  {
  }

  lemma {:induction false} FirstShown(p0: Pages, p1: Pages, id: PageId, key: int, value: Value)
    requires id >= 0 && ShowsTree(p0, id + 1, id, Leaf(id, [])) && KEY_MIN <= key < KEY_MAX
    requires Inserted(p0, p1, id + 1, Ins(CAP, Leaf(id, []), key, value, id + 1).nid, Leaf(id, []), true, -1, key, value)
    ensures var t := Leaf(id, [Entry(key, value)]);
            && ShowsTree(p1, id + 1, id, t) && Stored(p1, t, true) && SearchTree(TIGHT, t) && SearchTree(EXACT, t)
            && OnlyAt(p0, p1, {id}, id + 1, id + 1)
    ensures Ins(CAP, Leaf(id, []), key, value, id + 1).nid == id + 1
  {
    var t, kvs := Leaf(id, [Entry(key, value)]), [Entry(key, value)];
    assert Replace([], key, value) == kvs;
    assert Ins(CAP, Leaf(id, []), key, value, id + 1) == Tidy(CAP, Leaf(id, []), key, value, id + 1) == Grown(t, None, id + 1);
    hide Ins, Tidy, Replace, Slots;
    assert Stored(p1, t, true) && Linked(p1, t, -1);
    assert SearchTree(WEAK, t) && SearchTree(TIGHT, t) && SearchTree(EXACT, t);
  }

  lemma {:induction false} InsertMeans(t: Tree, key: int, value: Value, nid: PageId)
    requires SearchTree(WEAK, t) && KEY_MIN <= key < KEY_MAX
    ensures var u, v := Insert(CAP, t, key, value, nid).0, TidyInsert(CAP, t, key, value, nid).0;
            && (SafeInsert(CAP, t, key) <==> SearchTree(WEAK, u))
            && (SafeInsert(CAP, t, key) ==> u == v && Items(u) == Replace(Items(t), key, value))
            && (!HitsHalfEnd(CAP, t, key) <==> Items(v) == Replace(Items(t), key, value))
            && (!HitsHalfEnd(CAP, t, key) <==> Sorted(Items(v)))
            && (SafeInsert(CAP, t, key) && SearchTree(TIGHT, t) ==> SearchTree(TIGHT, u))
            && (SafeInsert(CAP, t, key) && SearchTree(EXACT, t) ==> SearchTree(EXACT, u))
  {
    SafeParts(CAP, t, Hi(t), key);
    InsertExact(WEAK, t, key, value, nid);
    if SafeInsert(CAP, t, key) && SearchTree(EXACT, t) {
      InsertGood(EXACT, t, key, value, nid);
    }
    if SafeInsert(CAP, t, key) && SearchTree(TIGHT, t) {
      InsertGood(TIGHT, t, key, value, nid);
    }
  }
}
