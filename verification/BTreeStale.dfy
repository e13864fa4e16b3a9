/** A slot that an insertion leaves behind: nothing shows it at first, but the next key that takes it is put out of order. */
module BTreeStale {
  import opened Options
  import opened Entries
  import opened BTreeShape
  import opened BTreeInsert
  import opened BTreeSafety
  import opened BTreeNode
  import opened BTreeStep
  import opened BTreeOps
  import opened BTreeRange
  import opened BTreeTidy
  import opened BTreeQuick

  /** The leaf that takes `key`. */
  ghost function Target(t: Tree, key: int): (l: Tree)
    requires KidsThere(t)
    ensures l.Leaf?
    decreases t
  {
    if t.Leaf? then t
    else
      KidThere(t.kids, Route(t.kids, key));
      Target(t.kids[Route(t.kids, key)].val, key)
  }

  lemma {:induction false} KidThere(kids: seq<Entry<Tree>>, i: nat)
    requires AllKidsThere(kids) && i < |kids|
    ensures KidsThere(kids[i].val)
  {
    if i > 0 {
      KidThere(kids[1..], i - 1);
    }
  }

  /** The separator of the leaf that takes `key`. */
  ghost function Bound(t: Tree, hi: int, key: int): int
    requires KidsThere(t)
    decreases t
  {
    if t.Leaf? then hi
    else
      KidThere(t.kids, Route(t.kids, key));
      Bound(t.kids[Route(t.kids, key)].val, t.kids[Route(t.kids, key)].key, key)
  }

  /** The keys that the slot left behind takes: from the right half's separator up to the old one. */
  ghost predicate Taken(t: Tree, hi: int, key: int, q: int)
    requires KidsThere(t)
  {
    var kvs := Target(t, key).kvs;
    |kvs| > 0 && NewHi(Last(kvs).key + 1, key) <= q < NewHi(Bound(t, hi, key), key)
  }

  /** The leaf that a search for `q` ends at. */
  function SearchLeaf(t: Tree, q: int): Option<Tree>
    decreases t
  {
    match t
    case Leaf(_, _) => Some(t)
    case Inner(_, kids) => KidsSearch(kids, q)
  }

  function KidsSearch(kids: seq<Entry<Tree>>, q: int): Option<Tree>
    decreases kids
  {
    var i := Upper(kids, q);
    if i == |kids| then None
    else
      assert kids[i].val < kids[i];
      SearchLeaf(kids[i].val, q)
  }

  function SearchGrown(g: Grown, q: int): Option<Tree> {
    match g.right
    case None => SearchLeaf(g.left, q)
    case Some(r) => if q < Sep(g.left) then SearchLeaf(g.left, q) else SearchLeaf(r, q)
  }

  lemma {:induction false} SearchConcat(a: seq<Entry<Tree>>, b: seq<Entry<Tree>>, q: int)
    ensures KidsSearch(a + b, q) == if Above(a, q) then KidsSearch(a, q) else KidsSearch(b, q)
    ensures Above(a + b, q) <==> Above(a, q) || Above(b, q)
  {
    var i := Upper(a, q);
    UpperIs(a + b, q, if i < |a| then i else |a| + Upper(b, q));
  }

  /** Among the leaves, `l` comes right before one with slots `kvs`. */
  ghost predicate Adjoin(ls: seq<Tree>, l: Tree, kvs: seq<Entry<Value>>) {
    exists i :: 0 <= i < |ls| - 1 && AdjoinAt(ls, i, l, kvs)
  }

  ghost predicate AdjoinAt(ls: seq<Tree>, i: nat, l: Tree, kvs: seq<Entry<Value>>)
    requires i + 1 < |ls|
  {
    ls[i] == l && ls[i + 1].Leaf? && ls[i + 1].kvs == kvs
  }

  lemma {:induction false} AdjoinAround(a: seq<Tree>, x: seq<Tree>, b: seq<Tree>, l: Tree, kvs: seq<Entry<Value>>)
    requires Adjoin(x, l, kvs)
    ensures Adjoin(a + x + b, l, kvs)
  {
    var i :| 0 <= i < |x| - 1 && AdjoinAt(x, i, l, kvs);
    assert AdjoinAt(a + x + b, |a| + i, l, kvs);
  }

  lemma {:induction false} LeavesConcat(a: seq<Entry<Tree>>, b: seq<Entry<Tree>>)
    ensures LeavesOf(a + b) == LeavesOf(a) + LeavesOf(b)
  {
    if |a| == 0 {
      assert a + b == b;
    } else {
      LeavesConcat(a[1..], b);
      assert (a + b)[1..] == a[1..] + b;
      assert LeavesOf(a + b) == Leaves(a[0].val) + (LeavesOf(a[1..]) + LeavesOf(b));
    }
  }

  function GrownLeaves(g: Grown): seq<Tree> {
    Leaves(g.left) + if g.right.Some? then Leaves(g.right.value) else []
  }

  lemma {:induction false} MidLeaves(k: int, g: Grown)
    ensures LeavesOf(TidyMid(k, g)) == GrownLeaves(g)
  {
    var s := TidyMid(k, g);
    assert s[1..] == if g.right.None? then [] else [s[1]];
    if g.right.Some? {
      assert s[1..][1..] == [];
      assert LeavesOf(s[1..]) == Leaves(s[1].val) + LeavesOf(s[1..][1..]);
    }
    assert LeavesOf(s) == Leaves(s[0].val) + LeavesOf(s[1..]);
  }

  /** The halves of the leaf that takes the key. */
  ghost predicate Halves(cap: nat, t: Tree, key: int, value: Value, l: Tree, kvs: seq<Entry<Value>>)
    requires cap >= 2 && KidsThere(t)
  {
    var x := Target(t, key);
    var g := InsLeaf(cap, x.id, x.kvs, key, value, 0);
    g.right.Some? && l == g.left && g.right.value.Leaf? && kvs == g.right.value.kvs
  }

  lemma {:induction false} LeafHalves(c: Config, t: Tree, lo: int, hi: int, key: int, value: Value, nid: PageId, l: Tree, kvs: seq<Entry<Value>>)
    requires Fits(c) && t.Leaf? && Size(t) <= c.cap && Ordered(c, t, 0, lo, hi) && LeavesSlot(c.cap, t, hi, key)
    requires Halves(c.cap, t, key, value, l, kvs)
    ensures var g := InsLeaf(c.cap, t.id, t.kvs, key, value, nid);
            && g.left == l && g.right == Some(Leaf(nid, kvs)) && l.Leaf?
            && Sep(g.right.value) == NewHi(Last(t.kvs).key + 1, key) < NewHi(hi, key)
            && |kvs| > 0 && AllBelow(kvs, Sep(g.right.value))
  {
    SepOfRight(c.cap, t, key, value, nid);
    LeafBounds(c.cap, t, key, value, nid);
  }

  lemma {:induction false} LeafStale(k: int, g: Grown, q: int)
    requires g.right.Some? && g.left.Leaf? && g.right.value.Leaf? && Sep(g.left) < Sep(g.right.value) <= q < k
    ensures Above(Mid(k, g), q) && KidsSearch(Mid(k, g), q) == Some(g.left)
    ensures Adjoin(LeavesOf(TidyMid(k, g)), g.left, g.right.value.kvs)
  {
    UpperIs(Mid(k, g), q, 2);
    MidLeaves(k, g);
    assert AdjoinAt([g.left, g.right.value], 0, g.left, g.right.value.kvs);
    assert GrownLeaves(g) == [g.left, g.right.value];
  }

  lemma {:induction false} InnerStale(k: int, g: Grown, p: Grown, q: int, l: Tree, kvs: seq<Entry<Value>>)
    requires g.right.Some? ==> Sep(g.left) < Sep(g.right.value) == k
    requires q < k && SearchGrown(g, q) == Some(l) && Adjoin(GrownLeaves(p), l, kvs)
    ensures Above(Mid(k, g), q) && KidsSearch(Mid(k, g), q) == Some(l) && Adjoin(LeavesOf(TidyMid(k, p)), l, kvs)
  {
    UpperIs(Mid(k, g), q, if g.right.None? || q < Sep(g.left) then 0 else 1);
    MidLeaves(k, p);
  }

  /** Keys that the slot takes are searched in the left half, and the right half comes next in the leaf chain. */
  lemma {:induction false} Stale(c: Config, t: Tree, h: nat, lo: int, hi: int, key: int, value: Value, nid: PageId, q: int,
                                 l: Tree, kvs: seq<Entry<Value>>)
    requires Fits(c) && t.Inner? && Size(t) <= c.cap && lo <= key && Ordered(c, t, h, lo, hi) && KidsThere(t)
    requires LeavesSlot(c.cap, t, hi, key) && Taken(t, hi, key, q) && Halves(c.cap, t, key, value, l, kvs)
    ensures SearchGrown(Ins(c.cap, t, key, value, nid), q) == Some(l)
    ensures Adjoin(GrownLeaves(Tidy(c.cap, t, key, value, nid)), l, kvs)
    ensures key < q < NewHi(hi, key)
    decreases t, 0
  {
    var kids := t.kids;
    var part, n := Half(c.cap, kids, key), if |kids| < c.cap then nid else nid + 1;
    var a, b := HalfLo(c.cap, kids, lo, key), HalfHi(c.cap, kids, hi, key);
    var (ks, n') := InsKids(c.cap, part, key, value, n);
    var (ps, m') := TidyKids(c.cap, part, key, value, n);
    InnerForm(c.cap, t, key, value, nid);
    HalfStale(c, t, h, lo, hi, key, value, q, l, kvs);
    assert h > 0 && Chain(c, kids, h - 1, lo, hi);
    hide *;
    KidsStale(c, part, h - 1, a, b, key, value, n, q, l, kvs);
    HalfSeps(c, part, h - 1, a, b, key, value, n);
    RejoinStale(c, t, h, lo, hi, key, nid, ks, n', ps, m', q, l, kvs);
  }

  lemma {:induction false} HalfSeps(c: Config, kids: seq<Entry<Tree>>, h: nat, lo: int, hi: int, key: int, value: Value, nid: PageId)
    requires Fits(c) && |kids| > 0 && lo <= key && Chain(c, kids, h, lo, hi)
    ensures var ks := InsKids(c.cap, kids, key, value, nid).0; |ks| > 0 && Last(ks).key == NewHi(hi, key)
  {
    KidsSeps(c, kids, h, lo, hi, key, value, nid);
    hide InsKids;
  }

  lemma {:induction false} InnerForm(cap: nat, t: Tree, key: int, value: Value, nid: PageId)
    requires cap >= 2 && t.Inner?
    ensures var part, n := Half(cap, t.kids, key), if |t.kids| < cap then nid else nid + 1;
            && Ins(cap, t, key, value, nid)
               == Rejoin(cap, t.id, t.kids, key, nid, InsKids(cap, part, key, value, n).0, InsKids(cap, part, key, value, n).1)
            && Tidy(cap, t, key, value, nid)
               == Rejoin(cap, t.id, t.kids, key, nid, TidyKids(cap, part, key, value, n).0, TidyKids(cap, part, key, value, n).1)
  {
    hide InsKids, TidyKids, Rejoin, Half;
  }

  /** The half that takes the key leaves the slot. */
  lemma {:induction false} HalfStale(c: Config, t: Tree, h: nat, lo: int, hi: int, key: int, value: Value, q: int, l: Tree,
                                     kvs: seq<Entry<Value>>)
    requires Fits(c) && t.Inner? && Size(t) <= c.cap && lo <= key && Ordered(c, t, h, lo, hi) && KidsThere(t)
    requires LeavesSlot(c.cap, t, hi, key) && Taken(t, hi, key, q) && Halves(c.cap, t, key, value, l, kvs)
    ensures var part, a := Half(c.cap, t.kids, key), HalfLo(c.cap, t.kids, lo, key);
            && h > 0 && 0 < |t.kids| <= c.cap && |part| > 0 && a <= key && Chain(c, part, h - 1, a, HalfHi(c.cap, t.kids, hi, key))
            && KidsLeaveSlot(c.cap, part, key) && part[Route(part, key)] < t
            && var e := part[Route(part, key)]; KidsThere(e.val) && Taken(e.val, e.key, key, q) && Halves(c.cap, e.val, key, value, l, kvs)
  {
    HalfChain(c, t.kids, h - 1, lo, hi, key);
    RouteHalf(c.cap, t.kids, key);
    DownStale(c.cap, t, hi, key, value, q, l, kvs);
    var i := Route(t.kids, key);
    assert t.kids[i] < t;
    var part := Half(c.cap, t.kids, key);
    hide Chain, Half, HalfLo, HalfHi, Ordered, Taken, Halves, KidsThere, Route, LeavesSlot;
  }

  lemma {:induction false} DownStale(cap: nat, t: Tree, hi: int, key: int, value: Value, q: int, l: Tree, kvs: seq<Entry<Value>>)
    requires cap >= 2 && t.Inner? && KidsThere(t)
    requires LeavesSlot(cap, t, hi, key) && Taken(t, hi, key, q) && Halves(cap, t, key, value, l, kvs)
    ensures var e := t.kids[Route(t.kids, key)];
            KidsThere(e.val) && LeavesSlot(cap, e.val, e.key, key) && Taken(e.val, e.key, key, q) && Halves(cap, e.val, key, value, l, kvs)
  {
    KidThere(t.kids, Route(t.kids, key));
    hide InsLeaf;
  }

  lemma {:induction false} RejoinStale(c: Config, t: Tree, h: nat, lo: int, hi: int, key: int, nid: PageId, ks: seq<Entry<Tree>>,
                                       n: PageId, ps: seq<Entry<Tree>>, m: PageId, q: int, l: Tree, kvs: seq<Entry<Value>>)
    requires Fits(c) && t.Inner? && 0 < |t.kids| <= c.cap && h > 0 && Chain(c, t.kids, h - 1, lo, hi)
    requires KidsSearch(ks, q) == Some(l) && Adjoin(LeavesOf(ps), l, kvs) && key < q < NewHi(HalfHi(c.cap, t.kids, hi, key), key)
    requires |ks| > 0 && Last(ks).key == NewHi(HalfHi(c.cap, t.kids, hi, key), key)
    ensures SearchGrown(Rejoin(c.cap, t.id, t.kids, key, nid, ks, n), q) == Some(l)
    ensures Adjoin(GrownLeaves(Rejoin(c.cap, t.id, t.kids, key, nid, ps, m)), l, kvs)
    ensures q < NewHi(hi, key)
  {
    RejoinSearch(c, t, h, lo, hi, key, nid, ks, n, q);
    RejoinLeaves(c.cap, t, key, nid, ps, m);
    hide Rejoin, Chain, KidsSearch, LeavesOf, Adjoin;
    var kids, k := t.kids, |t.kids| / 2;
    if |kids| == c.cap && kids[k - 1].key <= key {
      AdjoinAround(LeavesOf(kids[..k]), LeavesOf(ps), [], l, kvs);
    } else if |kids| == c.cap {
      AdjoinAround([], LeavesOf(ps), LeavesOf(kids[k..]), l, kvs);
    }
  }

  /** A key that the side with `ks` takes is searched there. */
  lemma {:induction false} RejoinSearch(c: Config, t: Tree, h: nat, lo: int, hi: int, key: int, nid: PageId, ks: seq<Entry<Tree>>,
                                        n: PageId, q: int)
    requires Fits(c) && t.Inner? && 0 < |t.kids| <= c.cap && h > 0 && Chain(c, t.kids, h - 1, lo, hi)
    requires key < q < NewHi(HalfHi(c.cap, t.kids, hi, key), key)
    requires |ks| > 0 && Last(ks).key == NewHi(HalfHi(c.cap, t.kids, hi, key), key)
    ensures SearchGrown(Rejoin(c.cap, t.id, t.kids, key, nid, ks, n), q) == KidsSearch(ks, q)
    ensures q < NewHi(hi, key)
  {
    var kids, m, g := t.kids, |t.kids| / 2, Rejoin(c.cap, t.id, t.kids, key, nid, ks, n);
    if |kids| == c.cap {
      CutKids(c, kids, m, h - 1, lo, hi);
      var l, right := kids[..m], kids[m - 1].key <= key;
      assert Last(l).key == kids[m - 1].key;
      hide Chain, KidsSearch;
      assert g.right.Some? && Sep(g.left) == if right then kids[m - 1].key else Last(ks).key;
    }
  }

  lemma {:induction false} RejoinLeaves(cap: nat, t: Tree, key: int, nid: PageId, ps: seq<Entry<Tree>>, n: PageId)
    requires cap >= 2 && t.Inner? && |t.kids| <= cap
    ensures var m := |t.kids| / 2;
            GrownLeaves(Rejoin(cap, t.id, t.kids, key, nid, ps, n))
            == if |t.kids| < cap then LeavesOf(ps)
               else if t.kids[m - 1].key <= key then LeavesOf(t.kids[..m]) + LeavesOf(ps) + []
               else [] + LeavesOf(ps) + LeavesOf(t.kids[m..])
  {
    hide LeavesOf;
  }

  lemma {:induction false} KidsStale(c: Config, kids: seq<Entry<Tree>>, h: nat, lo: int, hi: int, key: int, value: Value,
                                     nid: PageId, q: int, l: Tree, kvs: seq<Entry<Value>>)
    requires Fits(c) && |kids| > 0 && lo <= key && Chain(c, kids, h, lo, hi) && KidsLeaveSlot(c.cap, kids, key)
    requires var e := kids[Route(kids, key)];
             KidsThere(e.val) && Taken(e.val, e.key, key, q) && Halves(c.cap, e.val, key, value, l, kvs)
    ensures KidsSearch(InsKids(c.cap, kids, key, value, nid).0, q) == Some(l)
    ensures Adjoin(LeavesOf(TidyKids(c.cap, kids, key, value, nid).0), l, kvs)
    ensures key < q < NewHi(hi, key)
    decreases kids
  {
    var i := Route(kids, key);
    var e, mid := kids[i], LoOf(kids, i, lo);
    var g, p, k := Ins(c.cap, e.val, key, value, nid), Tidy(c.cap, e.val, key, value, nid), NewHi(e.key, key);
    RouteSplit(c, kids, h, lo, hi, key);
    assert e.val < e;
    InsSeps(c, e.val, h, mid, e.key, key, value, nid);
    KidsForm(c, kids, h, lo, hi, key, g);
    ChainBounds(c, kids[..i], h, lo, mid);
    assert InsKids(c.cap, kids, key, value, nid).0 == kids[..i] + Mid(k, g) + kids[i + 1..];
    assert TidyKids(c.cap, kids, key, value, nid).0 == kids[..i] + TidyMid(k, p) + kids[i + 1..];
    MidStale(c, e, h, mid, key, value, nid, q, l, kvs);
    hide Ins, Tidy, InsKids, TidyKids, Mid, TidyMid, KidsSearch, LeavesOf, Adjoin, Chain, Ordered;
    KidsAroundStale(kids[..i], Mid(k, g), TidyMid(k, p), kids[i + 1..], key, q, l, kvs);
  }

  lemma {:induction false} MidStale(c: Config, e: Entry<Tree>, h: nat, lo: int, key: int, value: Value, nid: PageId, q: int, l: Tree,
                                    kvs: seq<Entry<Value>>)
    requires Fits(c) && Size(e.val) <= c.cap && lo <= key && Ordered(c, e.val, h, lo, e.key)
    requires KidsThere(e.val) && LeavesSlot(c.cap, e.val, e.key, key) && Taken(e.val, e.key, key, q) && Halves(c.cap, e.val, key, value, l, kvs)
    requires SepsFit(e.val, lo, e.key, key, Ins(c.cap, e.val, key, value, nid))
    ensures var g, p, k := Ins(c.cap, e.val, key, value, nid), Tidy(c.cap, e.val, key, value, nid), NewHi(e.key, key);
            && Above(Mid(k, g), q) && KidsSearch(Mid(k, g), q) == Some(l) && Adjoin(LeavesOf(TidyMid(k, p)), l, kvs)
            && key < q < k
    decreases e.val, 1
  {
    var g, p, k := Ins(c.cap, e.val, key, value, nid), Tidy(c.cap, e.val, key, value, nid), NewHi(e.key, key);
    if e.val.Leaf? {
      LeafHalves(c, e.val, lo, e.key, key, value, nid, l, kvs);
      assert g == p == InsLeaf(c.cap, e.val.id, e.val.kvs, key, value, nid);
      hide Ins, Tidy, InsLeaf, Halves, LeavesSlot;
      LeafStale(k, g, q);
    } else {
      Stale(c, e.val, h, lo, e.key, key, value, nid, q, l, kvs);
      hide Ins, Tidy, Halves, LeavesSlot, Taken;
      InnerStale(k, g, p, q, l, kvs);
    }
  }

  lemma {:induction false} KidsAroundStale(a: seq<Entry<Tree>>, x: seq<Entry<Tree>>, y: seq<Entry<Tree>>, b: seq<Entry<Tree>>,
                                           key: int, q: int, l: Tree, kvs: seq<Entry<Value>>)
    requires AllBelow(a, key + 1) && key < q
    requires Above(x, q) && KidsSearch(x, q) == Some(l) && Adjoin(LeavesOf(y), l, kvs)
    ensures KidsSearch(a + x + b, q) == Some(l) && Adjoin(LeavesOf(a + y + b), l, kvs)
  {
    UpperIs(a, q, |a|);
    SearchConcat(a, x, q);
    SearchConcat(a + x, b, q);
    LeavesConcat(a, y);
    LeavesConcat(a + y, b);
    AdjoinAround(LeavesOf(a), LeavesOf(y), LeavesOf(b), l, kvs);
  }

  // ---------------------------------------------------------------- the next insertion

  lemma {:induction false} QuickSearch(t: Tree, q: int, h: nat)
    requires Quick(t, q, h)
    ensures SearchLeaf(t, q) == Some(LeafAt(t, q, h))
    decreases t
  {
    if t.Inner? {
      QuickSearch(t.kids[Upper(t.kids, q)].val, q, h - 1);
    }
  }

  lemma {:induction false} RootStale(t: Tree, key: int, value: Value, nid: PageId, q: int, l: Tree, kvs: seq<Entry<Value>>)
    requires SearchTree(WEAK, t) && KEY_MIN <= key < KEY_MAX && KidsThere(t) && LeavesSlot(CAP, t, Hi(t), key)
    requires Taken(t, Hi(t), key, q) && Halves(CAP, t, key, value, l, kvs)
    ensures SearchLeaf(Insert(CAP, t, key, value, nid).0, q) == Some(l)
    ensures Adjoin(Leaves(TidyInsert(CAP, t, key, value, nid).0), l, kvs)
  {
    var h, g, p := Height(t), Ins(CAP, t, key, value, nid), Tidy(CAP, t, key, value, nid);
    assert t.Inner?;
    Stale(WEAK, t, h, KEY_MIN, Hi(t), key, value, nid, q, l, kvs);
    InsSeps(WEAK, t, h, KEY_MIN, Hi(t), key, value, nid);
    TidyAlike(WEAK, t, h, KEY_MIN, Hi(t), key, value, nid);
    hide Ins, Tidy, Ordered, LeavesSlot;
    if g.right.Some? {
      RaiseSearch(g.nid, g.left, g.right.value, q);
      RaiseForm(p.nid, p.left, p.right.value);
      MidLeaves(Sep(p.right.value), p);
    } else {
      assert GrownLeaves(p) == Leaves(p.left);
    }
  }

  lemma {:induction false} RaiseSearch(id: PageId, l: Tree, r: Tree, q: int)
    requires Sep(l) < Sep(r) && q < Sep(r)
    ensures SearchLeaf(Raise(id, l, r), q) == if q < Sep(l) then SearchLeaf(l, q) else SearchLeaf(r, q)
  {
    RaiseForm(id, l, r);
    UpperIs([Entry(Sep(l), l), Entry(Sep(r), r)], q, if q < Sep(l) then 0 else 1);
  }

  /** What follows an insertion that left a slot behind: inserting a key that the slot takes puts it out of order in the chain. */
  lemma {:induction false} StaleNext(t: Tree, key: int, value: Value, nid: PageId, q: int, w: Value, h: nat)
    requires SearchTree(WEAK, t) && KEY_MIN <= key < KEY_MAX && KidsThere(t) && LeavesSlot(CAP, t, Hi(t), key)
    requires Taken(t, Hi(t), key, q) && Quick(Insert(CAP, t, key, value, nid).0, q, h)
    ensures var u, ls := Insert(CAP, t, key, value, nid).0, Leaves(TidyInsert(CAP, t, key, value, nid).0);
            !Sorted(AllOf(PutAll(ls, LeafAt(u, q, h).id, QuickSlots(u, q, w, h))))
  {
    var u, ls := Insert(CAP, t, key, value, nid).0, Leaves(TidyInsert(CAP, t, key, value, nid).0);
    var x := Target(t, key);
    var g := InsLeaf(CAP, x.id, x.kvs, key, value, 0);
    TargetFacts(WEAK, t, Height(t), KEY_MIN, Hi(t), key, value, q);
    var l, kvs := g.left, g.right.value.kvs;
    RootStale(t, key, value, nid, q, l, kvs);
    QuickSearch(u, q, h);
    hide Insert, TidyInsert, Leaves, SearchTree, LeavesSlot, Taken, Target, InsLeaf, KidsThere;
    OutOfOrder(ls, l, kvs, q, w);
  }

  /** The slot takes at least one key. */
  lemma {:induction false} SomeTaken(c: Config, t: Tree, h: nat, lo: int, hi: int, key: int)
    requires Fits(c) && Size(t) <= c.cap && lo <= key && Ordered(c, t, h, lo, hi) && KidsThere(t) && LeavesSlot(c.cap, t, hi, key)
    ensures |Target(t, key).kvs| > 0 && Taken(t, hi, key, NewHi(Last(Target(t, key).kvs).key + 1, key))
    decreases t
  {
    if t.Inner? {
      var kids, i := t.kids, Route(t.kids, key);
      RouteSplit(c, kids, h - 1, lo, hi, key);
      KidThere(kids, i);
      SomeTaken(c, kids[i].val, h - 1, LoOf(kids, i, lo), kids[i].key, key);
    }
  }

  lemma {:induction false} TargetFacts(c: Config, t: Tree, h: nat, lo: int, hi: int, key: int, value: Value, q: int)
    requires Fits(c) && Size(t) <= c.cap && lo <= key && Ordered(c, t, h, lo, hi) && KidsThere(t)
    requires LeavesSlot(c.cap, t, hi, key) && Taken(t, hi, key, q)
    ensures var x := Target(t, key);
            var g := InsLeaf(c.cap, x.id, x.kvs, key, value, 0);
            && g.left.Leaf? && g.right.Some? && g.right.value.Leaf?
            && |g.right.value.kvs| > 0 && AllBelow(g.right.value.kvs, q)
    decreases t
  {
    match t {
      case Leaf(_, kvs) =>
        var g := InsLeaf(c.cap, t.id, kvs, key, value, 0);
        LeafHalves(c, t, lo, hi, key, value, 0, g.left, g.right.value.kvs);
      case Inner(_, kids) =>
        var i := Route(kids, key);
        RouteSplit(c, kids, h - 1, lo, hi, key);
        KidThere(kids, i);
        TargetFacts(c, kids[i].val, h - 1, LoOf(kids, i, lo), kids[i].key, key, value, q);
    }
  }

  lemma {:induction false} OutOfOrder(ls: seq<Tree>, l: Tree, kvs: seq<Entry<Value>>, q: int, w: Value)
    requires Adjoin(ls, l, kvs) && l.Leaf? && |kvs| > 0 && AllBelow(kvs, q)
    ensures !Sorted(AllOf(PutAll(ls, l.id, Replace(l.kvs, q, w))))
  {
    var i :| 0 <= i < |ls| - 1 && AdjoinAt(ls, i, l, kvs);
    var grown := Replace(l.kvs, q, w);
    var rs, p := PutAll(ls, l.id, grown), Position(l.kvs, q);
    assert p < |grown| && grown[p] == Entry(q, w);
    assert rs[i] == Leaf(l.id, grown);
    if Sorted(AllOf(rs)) {
      if ls[i + 1].id == l.id {
        LeafOrder(rs, i, i + 1, p, p);
      } else {
        LeafOrder(rs, i, i + 1, p, 0);
      }
    }
  }
}
