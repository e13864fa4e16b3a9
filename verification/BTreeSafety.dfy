/** Whole trees: what one insertion makes of them, for safe and for unsafe keys alike. */
module BTreeSafety {
  import opened Options
  import opened Entries
  import opened BTreeShape
  import opened BTreeInsert

  const KEY_MIN := -0x8000_0000_0000_0000
  const KEY_MAX := 0x7fff_ffff_ffff_ffff

  function Height(t: Tree): nat
    decreases t
  {
    match t
    case Leaf(_, _) => 0
    case Inner(_, kids) => if |kids| == 0 then 0 else 1 + Height(kids[0].val)
  }

  /** The upper bound of a root's keys: exact for a root leaf, the last separator otherwise. */
  function Hi(t: Tree): int {
    if Size(t) == 0 then KEY_MIN else Sep(t)
  }

  /** A root page with everything below it in order. */
  ghost predicate SearchTree(c: Config, t: Tree) {
    && Fits(c)
    && Size(t) <= c.cap
    && (t.Inner? ==> Size(t) >= 2)
    && Hi(t) <= KEY_MAX
    && Ordered(c, t, Height(t), KEY_MIN, Hi(t))
  }

  ghost predicate SafeInsert(cap: nat, t: Tree, key: int)
    requires cap >= 2
  {
    Safe(cap, t, Hi(t), key)
  }

  lemma {:induction false} HeightIs(c: Config, t: Tree, h: nat, lo: int, hi: int)
    requires Ordered(c, t, h, lo, hi)
    ensures Height(t) == h
    decreases t
  {
    if t.Inner? {
      assert t.kids[0].val < t.kids[0];
      HeightIs(c, t.kids[0].val, h - 1, lo, t.kids[0].key);
    }
  }

  lemma {:induction false} OrderedSep(c: Config, t: Tree, h: nat, lo: int, hi: int)
    requires Ordered(c, t, h, lo, hi) && t.Inner?
    ensures Sep(t) == hi
  {
    ChainBounds(c, t.kids, h - 1, lo, hi);
  }

  // ---------------------------------------------------------------- insertions that go right

  /** Insertion at the root that leaves no slot behind: the tree over the leaf chain that insertion produces. */
  function TidyInsert(cap: nat, t: Tree, key: int, value: Value, nid: PageId): (Tree, PageId)
    requires cap >= 2
  {
    var g := Tidy(cap, t, key, value, nid);
    match g.right
    case None => (g.left, g.nid)
    case Some(r) => (Raise(g.nid, g.left, r), g.nid + 1)
  }

  /**
   * A safe insertion is an upsert into the tree's key list and leaves a search tree, one level higher at most; the
   * tree grows in height only when its root is cut.
   */
  lemma {:induction false} InsertGood(c: Config, t: Tree, key: int, value: Value, nid: PageId)
    requires SearchTree(c, t) && KEY_MIN <= key < KEY_MAX && SafeInsert(c.cap, t, key)
    ensures var u := Insert(c.cap, t, key, value, nid).0;
            && SearchTree(c, u)
            && Items(u) == Replace(Items(t), key, value)
            && Height(u) == Height(t) + (if Ins(c.cap, t, key, value, nid).right.Some? then 1 else 0)
            && (Height(u) > Height(t) ==> Size(t) == c.cap)
    ensures Insert(c.cap, t, key, value, nid) == TidyInsert(c.cap, t, key, value, nid)
  {
    SafeIsTidy(c, t, key, value, nid);
    hide *;
    TidyGood(c, t, key, value, nid);
  }

  lemma {:induction false} SafeIsTidy(c: Config, t: Tree, key: int, value: Value, nid: PageId)
    requires SearchTree(c, t) && KEY_MIN <= key < KEY_MAX && SafeInsert(c.cap, t, key)
    ensures !HitsHalfEnd(c.cap, t, key) && !LeavesSlot(c.cap, t, Hi(t), key)
    ensures Ins(c.cap, t, key, value, nid) == Tidy(c.cap, t, key, value, nid)
    ensures Insert(c.cap, t, key, value, nid) == TidyInsert(c.cap, t, key, value, nid)
    ensures Tidy(c.cap, t, key, value, nid).right.Some? <==> Size(t) == c.cap
  {
    hide Ins, Tidy, InsLeaf, Ordered, Grew, Safe, HitsHalfEnd, LeavesSlot, Raise;
    SafeParts(c.cap, t, Hi(t), key);
    InsTidy(c, t, Height(t), KEY_MIN, Hi(t), key, value, nid);
    TidySame(c.cap, t, key, value, nid);
  }

  /** The tree over the leaf chain is a search tree with the slot upserted, unless the key is the last of a full leaf's left half. */
  lemma {:induction false} TidyGood(c: Config, t: Tree, key: int, value: Value, nid: PageId)
    requires SearchTree(c, t) && KEY_MIN <= key < KEY_MAX
    requires !HitsHalfEnd(c.cap, t, key) && (c.tight ==> !LeavesSlot(c.cap, t, Hi(t), key))
    ensures var v := TidyInsert(c.cap, t, key, value, nid).0;
            && SearchTree(c, v)
            && Items(v) == Replace(Items(t), key, value)
            && Height(v) == Height(t) + (if Tidy(c.cap, t, key, value, nid).right.Some? then 1 else 0)
  {
    var h, g := Height(t), Tidy(c.cap, t, key, value, nid);
    TidyGrew(c, t, h, KEY_MIN, Hi(t), key, value, nid);
    TidySame(c.cap, t, key, value, nid);
    match g.right {
      case None => RootKept(c, t, h, key, value, nid);
      case Some(r) =>
        RootSep(c, t, h, key, value, nid);
        RootCut(c, g.nid, g.left, r, h);
    }
  }

  lemma {:induction false} TidySame(cap: nat, t: Tree, key: int, value: Value, nid: PageId)
    requires cap >= 2
    ensures var g := Tidy(cap, t, key, value, nid);
            && (g.right.Some? <==> Size(t) >= cap)
            && g.left.id == t.id && (g.left.Leaf? <==> t.Leaf?) && (g.right.Some? ==> (g.right.value.Leaf? <==> t.Leaf?))
    ensures t.Leaf? ==> Ins(cap, t, key, value, nid) == Tidy(cap, t, key, value, nid) == InsLeaf(cap, t.id, t.kvs, key, value, nid)
  {
  }

  lemma {:induction false} RootSep(c: Config, t: Tree, h: nat, key: int, value: Value, nid: PageId)
    requires SearchTree(c, t) && KEY_MIN <= key < KEY_MAX && h == Height(t) && Size(t) == c.cap
    requires Grew(c, t, h, KEY_MIN, Hi(t), key, value, Tidy(c.cap, t, key, value, nid))
    requires !HitsHalfEnd(c.cap, t, key)
    ensures var g := Tidy(c.cap, t, key, value, nid);
            && g.right.Some? && Sep(g.right.value) == NewHi(Hi(t), key) <= KEY_MAX
            && Chain(c, [Entry(Sep(g.left), g.left), Entry(Sep(g.right.value), g.right.value)], h, KEY_MIN, Sep(g.right.value))
            && Sep(g.left) < Sep(g.right.value)
  {
    var g := Tidy(c.cap, t, key, value, nid);
    TidySame(c.cap, t, key, value, nid);
    match t {
      case Leaf(id, kvs) => LeafCut(c, id, kvs, KEY_MIN, Hi(t), key, value, nid);
      case Inner(_, _) => TidySep(c, g, h, KEY_MIN, NewHi(Hi(t), key));
    }
    var s := TidyMid(NewHi(Hi(t), key), g);
    assert s[1..] == [s[1]] && Chain(c, s[1..], h, Sep(g.left), NewHi(Hi(t), key));
  }

  lemma {:induction false} RightOnlyWhenFull(cap: nat, t: Tree, key: int, value: Value, nid: PageId)
    requires cap >= 2
    ensures Ins(cap, t, key, value, nid).right.Some? <==> Size(t) >= cap
    ensures Ins(cap, t, key, value, nid).left.id == t.id
    ensures Ins(cap, t, key, value, nid).left.Leaf? <==> t.Leaf?
  {
  }

  lemma {:induction false} RootKept(c: Config, t: Tree, h: nat, key: int, value: Value, nid: PageId)
    requires SearchTree(c, t) && KEY_MIN <= key < KEY_MAX && h == Height(t) && Size(t) < c.cap
    requires !HitsHalfEnd(c.cap, t, key) && (c.tight ==> !LeavesSlot(c.cap, t, Hi(t), key))
    requires Grew(c, t, h, KEY_MIN, Hi(t), key, value, Tidy(c.cap, t, key, value, nid))
    ensures var u := Tidy(c.cap, t, key, value, nid).left; SearchTree(c, u) && Height(u) == h
  {
    var u := Tidy(c.cap, t, key, value, nid).left;
    TidySame(c.cap, t, key, value, nid);
    HeightIs(c, u, h, KEY_MIN, NewHi(Hi(t), key));
    if t.Leaf? {
      ReplaceShape(t.kvs, key, value);
    } else {
      OrderedSep(c, u, h, KEY_MIN, NewHi(Hi(t), key));
      TidyKidsGrew(c, t.kids, h - 1, KEY_MIN, Hi(t), key, value, nid);
    }
  }

  /** Raising a new root over two halves that follow each other. */
  lemma {:induction false} RootCut(c: Config, id: PageId, l: Tree, r: Tree, h: nat)
    requires Fits(c) && Sep(l) < Sep(r) <= KEY_MAX
    requires Chain(c, [Entry(Sep(l), l), Entry(Sep(r), r)], h, KEY_MIN, Sep(r))
    ensures var u := Raise(id, l, r);
            SearchTree(c, u) && Height(u) == h + 1 && Items(u) == Items(l) + Items(r)
  {
    var kids := [Entry(Sep(l), l), Entry(Sep(r), r)];
    RaiseForm(id, l, r);
    HeightIs(c, Inner(id, kids), h + 1, KEY_MIN, Sep(r));
    FlatTwo(kids);
  }

  lemma {:induction false} RaiseForm(id: PageId, l: Tree, r: Tree)
    requires Sep(l) < Sep(r)
    ensures Raise(id, l, r) == Inner(id, [Entry(Sep(l), l), Entry(Sep(r), r)])
  {
    PositionIs([Entry(Sep(l), l)], Sep(r), 1);
  }

  lemma {:induction false} FlatTwo(kids: seq<Entry<Tree>>)
    requires |kids| == 2
    ensures Flat(kids) == Items(kids[0].val) + Items(kids[1].val)
  {
    assert kids[1..] == [kids[1]] && kids[1..][1..] == [];
    assert Flat(kids[1..]) == Items(kids[1].val) + Flat(kids[1..][1..]) == Items(kids[1].val);
  }

  // ---------------------------------------------------------------- unsafe insertions

  /** Separators behave for every key, safe or not. */
  ghost predicate SepsFit(t: Tree, lo: int, hi: int, key: int, g: Grown) {
    g.right.Some? ==>
      && lo < Sep(g.left) < Sep(g.right.value) <= NewHi(hi, key)
      && (t.Inner? ==> Sep(g.right.value) == NewHi(hi, key))
  }

  ghost predicate KidSepsFit(lo: int, hi: int, key: int, ks: seq<Entry<Tree>>) {
    |ks| > 0 && lo < ks[0].key && Last(ks).key == NewHi(hi, key)
  }

  /** The halves of a full leaf, one of them with the slot. */
  lemma {:induction false} LeafForm(cap: nat, id: PageId, kvs: seq<Entry<Value>>, key: int, value: Value, nid: PageId)
    requires cap >= 2 && |kvs| == cap && Sorted(kvs)
    ensures var m := |kvs| / 2;
            var l, r := kvs[..m], kvs[m..];
            && |l| > 0 && |r| > 0 && Sorted(l) && Sorted(r) && Last(r) == Last(kvs) && Last(l) == kvs[m - 1]
            && Last(l).key < Last(r).key
            && InsLeaf(cap, id, kvs, key, value, nid)
               == if Last(l).key <= key then Grown(Leaf(id, l), Some(Leaf(nid, Replace(r, key, value))), nid + 1)
                  else Grown(Leaf(id, Replace(l, key, value)), Some(Leaf(nid, r)), nid + 1)
  {
    hide Replace;
  }

  lemma {:induction false} LeafSeps(cap: nat, t: Tree, lo: int, hi: int, key: int, value: Value, nid: PageId)
    requires cap >= 2 && t.Leaf? && |t.kvs| <= cap && lo <= key
    requires Sorted(t.kvs) && AllFrom(t.kvs, lo) && AllBelow(t.kvs, hi)
    ensures SepsFit(t, lo, hi, key, InsLeaf(cap, t.id, t.kvs, key, value, nid))
  {
    if |t.kvs| == cap {
      var m := |t.kvs| / 2;
      LeafForm(cap, t.id, t.kvs, key, value, nid);
      var l, r := t.kvs[..m], t.kvs[m..];
      assert lo <= Last(l).key && Last(r).key < hi;
      hide InsLeaf, Replace, Sorted, AllFrom, AllBelow;
      if Last(l).key <= key {
        ReplaceShape(r, key, value);
      } else {
        ReplaceShape(l, key, value);
      }
    }
  }

  lemma {:induction false} MidSeps(c: Config, kids: seq<Entry<Tree>>, h: nat, lo: int, hi: int, key: int, g: Grown)
    requires |kids| > 0 && Chain(c, kids, h, lo, hi) && lo <= key
    requires var i := Route(kids, key); SepsFit(kids[i].val, LoOf(kids, i, lo), kids[i].key, key, g)
    ensures KidSepsFit(lo, hi, key, Install(Bump(kids, key), Route(kids, key), g))
  {
    var i := Route(kids, key);
    var e, mid := kids[i], LoOf(kids, i, lo);
    RouteSplit(c, kids, h, lo, hi, key);
    KidsForm(c, kids, h, lo, hi, key, g);
    ChainBounds(c, kids[..i], h, lo, mid);
    ChainBounds(c, kids[i + 1..], h, e.key, hi);
    EndsOf(kids[..i], Mid(NewHi(e.key, key), g), kids[i + 1..], lo, NewHi(hi, key));
  }

  lemma {:induction false} EndsOf(a: seq<Entry<Tree>>, x: seq<Entry<Tree>>, b: seq<Entry<Tree>>, lo: int, hi: int)
    requires |x| > 0
    requires lo < if |a| > 0 then a[0].key else x[0].key
    requires hi == if |b| > 0 then Last(b).key else Last(x).key
    ensures var s := a + x + b; |s| > 0 && lo < s[0].key && Last(s).key == hi
  {
  }

  lemma {:induction false} InsSeps(c: Config, t: Tree, h: nat, lo: int, hi: int, key: int, value: Value, nid: PageId)
    requires Fits(c) && Size(t) <= c.cap && lo <= key && Ordered(c, t, h, lo, hi)
    ensures SepsFit(t, lo, hi, key, Ins(c.cap, t, key, value, nid))
    decreases t
  {
    match t {
      case Leaf(_, _) => LeafSeps(c.cap, t, lo, hi, key, value, nid);
      case Inner(_, kids) =>
        var part, n := Half(c.cap, kids, key), if |kids| < c.cap then nid else nid + 1;
        HalfChain(c, kids, h - 1, lo, hi, key);
        KidsSeps(c, part, h - 1, HalfLo(c.cap, kids, lo, key), HalfHi(c.cap, kids, hi, key), key, value, n);
        var (ks, n') := InsKids(c.cap, part, key, value, n);
        RejoinSeps(c, t, h, lo, hi, key, nid, ks, n');
    }
  }

  lemma {:induction false} RejoinSeps(c: Config, t: Tree, h: nat, lo: int, hi: int, key: int, nid: PageId,
                                      ks: seq<Entry<Tree>>, n: PageId)
    requires Fits(c) && t.Inner? && 0 < |t.kids| <= c.cap && h > 0 && Chain(c, t.kids, h - 1, lo, hi)
    requires KidSepsFit(HalfLo(c.cap, t.kids, lo, key), HalfHi(c.cap, t.kids, hi, key), key, ks)
    ensures SepsFit(t, lo, hi, key, Rejoin(c.cap, t.id, t.kids, key, nid, ks, n))
  {
    var kids, m := t.kids, |t.kids| / 2;
    if |kids| == c.cap {
      CutKids(c, kids, m, h - 1, lo, hi);
      Halved(kids, m);
      hide Chain, Rejoin;
      RejoinForm(c.cap, t.id, kids, key, nid, ks, n);
    }
  }

  /** The halves of a full internal node, one of them with the kids that took the key. */
  lemma {:induction false} RejoinForm(cap: nat, id: PageId, kids: seq<Entry<Tree>>, key: int, nid: PageId, ks: seq<Entry<Tree>>, n: PageId)
    requires cap >= 2 && |kids| == cap && |ks| > 0
    ensures var m, g := |kids| / 2, Rejoin(cap, id, kids, key, nid, ks, n);
            && g.right.Some?
            && Sep(g.left) == (if kids[m - 1].key <= key then kids[m - 1].key else Last(ks).key)
            && Sep(g.right.value) == if kids[m - 1].key <= key then Last(ks).key else Last(kids).key
  {
  }

  lemma {:induction false} KidsSeps(c: Config, kids: seq<Entry<Tree>>, h: nat, lo: int, hi: int, key: int, value: Value,
                                    nid: PageId)
    requires Fits(c) && |kids| > 0 && lo <= key && Chain(c, kids, h, lo, hi)
    ensures KidSepsFit(lo, hi, key, InsKids(c.cap, kids, key, value, nid).0)
    decreases kids
  {
    var i := Route(kids, key);
    RouteSplit(c, kids, h, lo, hi, key);
    assert kids[i].val < kids[i];
    InsSeps(c, kids[i].val, h, LoOf(kids, i, lo), kids[i].key, key, value, nid);
    MidSeps(c, kids, h, lo, hi, key, Ins(c.cap, kids[i].val, key, value, nid));
  }

  /** Leaving a slot behind changes neither separators nor page ids. */
  ghost predicate Alike(g: Grown, p: Grown) {
    && p.nid == g.nid && p.left.id == g.left.id && Sep(p.left) == Sep(g.left) && (p.right.Some? <==> g.right.Some?)
    && (g.right.Some? ==> p.right.value.id == g.right.value.id && Sep(p.right.value) == Sep(g.right.value))
  }

  lemma {:induction false} TidyAlike(c: Config, t: Tree, h: nat, lo: int, hi: int, key: int, value: Value, nid: PageId)
    requires Fits(c) && Size(t) <= c.cap && lo <= key && Ordered(c, t, h, lo, hi)
    ensures Alike(Ins(c.cap, t, key, value, nid), Tidy(c.cap, t, key, value, nid))
    decreases t
  {
    if t.Inner? {
      var kids := t.kids;
      var part, n := Half(c.cap, kids, key), if |kids| < c.cap then nid else nid + 1;
      HalfChain(c, kids, h - 1, lo, hi, key);
      KidsAlike(c, part, h - 1, HalfLo(c.cap, kids, lo, key), HalfHi(c.cap, kids, hi, key), key, value, n);
    }
  }

  lemma {:induction false} KidsAlike(c: Config, kids: seq<Entry<Tree>>, h: nat, lo: int, hi: int, key: int, value: Value,
                                     nid: PageId)
    requires Fits(c) && |kids| > 0 && lo <= key && Chain(c, kids, h, lo, hi)
    ensures var (ks, n), (ps, m) := InsKids(c.cap, kids, key, value, nid), TidyKids(c.cap, kids, key, value, nid);
            n == m && |ks| > 0 && |ps| > 0 && Last(ks).key == Last(ps).key
    decreases kids
  {
    var i := Route(kids, key);
    var e, mid := kids[i], LoOf(kids, i, lo);
    var g := Ins(c.cap, e.val, key, value, nid);
    RouteSplit(c, kids, h, lo, hi, key);
    assert e.val < e;
    TidyAlike(c, e.val, h, mid, e.key, key, value, nid);
    InsSeps(c, e.val, h, mid, e.key, key, value, nid);
    KidsForm(c, kids, h, lo, hi, key, g);
    LastOf(kids[..i], Mid(NewHi(e.key, key), g), kids[i + 1..]);
    LastOf(kids[..i], TidyMid(NewHi(e.key, key), Tidy(c.cap, e.val, key, value, nid)), kids[i + 1..]);
  }

  lemma {:induction false} LastOf(a: seq<Entry<Tree>>, x: seq<Entry<Tree>>, b: seq<Entry<Tree>>)
    requires |x| > 0
    ensures Last(a + x + b) == if |b| > 0 then Last(b) else Last(x)
  {
  }

  /** What a grown node lists. */
  function GrownItems(g: Grown): seq<Entry<Value>> {
    Items(g.left) + if g.right.Some? then Items(g.right.value) else []
  }

  lemma {:induction false} LeafTwice(cap: nat, id: PageId, kvs: seq<Entry<Value>>, key: int, value: Value, nid: PageId)
    requires cap >= 2 && |kvs| >= cap && Sorted(kvs) && kvs[|kvs| / 2 - 1].key == key
    ensures !Sorted(GrownItems(InsLeaf(cap, id, kvs, key, value, nid)))
  {
    var m := |kvs| / 2;
    PositionIs(kvs[m..], key, 0);
    var s := GrownItems(InsLeaf(cap, id, kvs, key, value, nid));
    assert s[m - 1].key == s[m].key;
  }

  lemma {:induction false} FlatMid(k: int, g: Grown)
    ensures Flat(Mid(k, g)) ==
            GrownItems(g) + if g.right.Some? && Sep(g.right.value) != k then Items(g.left) else []
  {
    var s := Mid(k, g);
    if g.right.None? {
      FlatOne(s);
    } else if Sep(g.right.value) == k {
      FlatTwo(s);
    } else {
      Halved(s, 2);
      FlatConcat(s[..2], s[2..]);
      FlatTwo(s[..2]);
      FlatOne(s[2..]);
    }
  }

  lemma {:induction false} FlatOne(kids: seq<Entry<Tree>>)
    requires |kids| == 1
    ensures Flat(kids) == Items(kids[0].val)
  {
    assert kids[1..] == [];
  }

  /** An unsafe leaf, together with the slots its parent ends up with, lists some key twice. */
  lemma {:induction false} MidBrokenLeaf(cap: nat, t: Tree, hi: int, key: int, value: Value, nid: PageId)
    requires cap >= 2 && t.Leaf? && |t.kvs| == cap && Sorted(t.kvs) && !SafeLeaf(cap, t.kvs, hi, key)
    ensures !Sorted(Flat(Mid(NewHi(hi, key), InsLeaf(cap, t.id, t.kvs, key, value, nid))))
  {
    var g, k, m := InsLeaf(cap, t.id, t.kvs, key, value, nid), NewHi(hi, key), |t.kvs| / 2;
    FlatMid(k, g);
    var rest := if Sep(g.right.value) != k then Items(g.left) else [];
    if t.kvs[m - 1].key == key {
      LeafTwice(cap, t.id, t.kvs, key, value, nid);
      UnsortedLeft(GrownItems(g), rest);
    } else {
      SepOfRight(cap, t, key, value, nid);
      UnsortedTwice(Items(g.left), Items(g.right.value));
    }
  }

  lemma {:induction false} SepOfRight(cap: nat, t: Tree, key: int, value: Value, nid: PageId)
    requires cap >= 2 && t.Leaf? && |t.kvs| == cap && Sorted(t.kvs)
    ensures var g := InsLeaf(cap, t.id, t.kvs, key, value, nid);
            Sep(g.right.value) == NewHi(Last(t.kvs).key + 1, key) && Size(g.left) > 0
  {
    LeafForm(cap, t.id, t.kvs, key, value, nid);
    hide InsLeaf, Replace, Sorted;
    ReplaceShape(t.kvs[|t.kvs| / 2..], key, value);
    ReplaceShape(t.kvs[..|t.kvs| / 2], key, value);
  }

  lemma {:induction false} KidsBroken(c: Config, kids: seq<Entry<Tree>>, h: nat, lo: int, hi: int, key: int,
                                      value: Value, nid: PageId)
    requires Fits(c) && |kids| > 0 && lo <= key && Chain(c, kids, h, lo, hi) && !KidsSafe(c.cap, kids, key)
    ensures !Sorted(Flat(InsKids(c.cap, kids, key, value, nid).0))
    decreases kids
  {
    var i := Route(kids, key);
    var e := kids[i];
    var g, k := Ins(c.cap, e.val, key, value, nid), NewHi(e.key, key);
    RouteSplit(c, kids, h, lo, hi, key);
    assert e.val < e;
    InsSeps(c, e.val, h, LoOf(kids, i, lo), e.key, key, value, nid);
    if e.val.Leaf? {
      MidBrokenLeaf(c.cap, e.val, e.key, key, value, nid);
    } else {
      InsBroken(c, e.val, h, LoOf(kids, i, lo), e.key, key, value, nid);
      FlatMid(k, g);
      assert Flat(Mid(k, g)) == GrownItems(g);
    }
    KidsForm(c, kids, h, lo, hi, key, g);
    FlatThree(kids[..i], Mid(k, g), kids[i + 1..]);
    UnsortedRight(Flat(kids[..i]), Flat(Mid(k, g)));
    UnsortedLeft(Flat(kids[..i]) + Flat(Mid(k, g)), Flat(kids[i + 1..]));
  }

  lemma {:induction false} InsBroken(c: Config, t: Tree, h: nat, lo: int, hi: int, key: int, value: Value, nid: PageId)
    requires Fits(c) && t.Inner? && Size(t) <= c.cap && lo <= key && Ordered(c, t, h, lo, hi) && !Safe(c.cap, t, hi, key)
    ensures !Sorted(GrownItems(Ins(c.cap, t, key, value, nid)))
    decreases t
  {
    var kids := t.kids;
    var part, n := Half(c.cap, kids, key), if |kids| < c.cap then nid else nid + 1;
    HalfChain(c, kids, h - 1, lo, hi, key);
    SafeHalf(c.cap, kids, key);
    KidsBroken(c, part, h - 1, HalfLo(c.cap, kids, lo, key), HalfHi(c.cap, kids, hi, key), key, value, n);
    var (ks, n') := InsKids(c.cap, part, key, value, n);
    RejoinBroken(c.cap, t, key, nid, ks, n');
  }

  lemma {:induction false} RejoinBroken(cap: nat, t: Tree, key: int, nid: PageId, ks: seq<Entry<Tree>>, n: PageId)
    requires cap >= 2 && t.Inner? && !Sorted(Flat(ks))
    ensures !Sorted(GrownItems(Rejoin(cap, t.id, t.kids, key, nid, ks, n)))
  {
    var m, g := |t.kids| / 2, Rejoin(cap, t.id, t.kids, key, nid, ks, n);
    if |t.kids| < cap {
      assert GrownItems(g) == Flat(ks);
    } else if t.kids[m - 1].key <= key {
      UnsortedRight(Flat(t.kids[..m]), Flat(ks));
      assert GrownItems(g) == Flat(t.kids[..m]) + Flat(ks);
    } else {
      UnsortedLeft(Flat(ks), Flat(t.kids[m..]));
      assert GrownItems(g) == Flat(ks) + Flat(t.kids[m..]);
    }
  }

  lemma {:induction false} TidyKidsBroken(c: Config, kids: seq<Entry<Tree>>, h: nat, lo: int, hi: int, key: int,
                                          value: Value, nid: PageId)
    requires Fits(c) && |kids| > 0 && lo <= key && Chain(c, kids, h, lo, hi) && KidsHitHalfEnd(c.cap, kids, key)
    ensures !Sorted(Flat(TidyKids(c.cap, kids, key, value, nid).0))
    decreases kids
  {
    var i := Route(kids, key);
    var e := kids[i];
    var g := Tidy(c.cap, e.val, key, value, nid);
    var x := TidyMid(NewHi(e.key, key), g);
    RouteSplit(c, kids, h, lo, hi, key);
    assert e.val < e;
    TidyBroken(c, e.val, h, LoOf(kids, i, lo), e.key, key, value, nid);
    if g.right.None? {
      FlatOne(x);
    } else {
      FlatTwo(x);
    }
    assert Flat(x) == GrownItems(g);
    FlatThree(kids[..i], x, kids[i + 1..]);
    UnsortedRight(Flat(kids[..i]), Flat(x));
    UnsortedLeft(Flat(kids[..i]) + Flat(x), Flat(kids[i + 1..]));
  }

  /** Inserting the last key of a full leaf's left half lists it twice along the leaf chain. */
  lemma {:induction false} TidyBroken(c: Config, t: Tree, h: nat, lo: int, hi: int, key: int, value: Value, nid: PageId)
    requires Fits(c) && Size(t) <= c.cap && lo <= key && Ordered(c, t, h, lo, hi) && HitsHalfEnd(c.cap, t, key)
    ensures !Sorted(GrownItems(Tidy(c.cap, t, key, value, nid)))
    decreases t
  {
    match t {
      case Leaf(id, kvs) => LeafTwice(c.cap, id, kvs, key, value, nid);
      case Inner(_, kids) =>
        var part, n := Half(c.cap, kids, key), if |kids| < c.cap then nid else nid + 1;
        HalfChain(c, kids, h - 1, lo, hi, key);
        RouteHalf(c.cap, kids, key);
        TidyKidsBroken(c, part, h - 1, HalfLo(c.cap, kids, lo, key), HalfHi(c.cap, kids, hi, key), key, value, n);
        var (ks, n') := TidyKids(c.cap, part, key, value, n);
        RejoinBroken(c.cap, t, key, nid, ks, n');
    }
  }

  /**
   * The exact conditions for an insertion, on any search tree and for any key below the type's maximum. The result is a
   * search tree iff the key is safe. The leaf chain lists the upsert iff it is sorted iff the key is not the last of a full
   * leaf's left half, even where a slot is left behind.
   */
  lemma {:induction false} InsertExact(c: Config, t: Tree, key: int, value: Value, nid: PageId)
    requires SearchTree(c, t) && KEY_MIN <= key < KEY_MAX
    ensures var u, v := Insert(c.cap, t, key, value, nid).0, TidyInsert(c.cap, t, key, value, nid).0;
            && (SafeInsert(c.cap, t, key) <==> SearchTree(c, u))
            && (SafeInsert(c.cap, t, key) ==> u == v)
            && (!HitsHalfEnd(c.cap, t, key) <==> Items(v) == Replace(Items(t), key, value))
            && (!HitsHalfEnd(c.cap, t, key) <==> Sorted(Items(v)))
            && (!HitsHalfEnd(c.cap, t, key) ==> SearchTree(Loose(c), v))
  {
    var u, v := Insert(c.cap, t, key, value, nid).0, TidyInsert(c.cap, t, key, value, nid).0;
    TidyExact(c, t, key, value, nid);
    if SafeInsert(c.cap, t, key) {
      InsertGood(c, t, key, value, nid);
    } else {
      UnsafeUnsorted(c, t, key, value, nid);
      if SearchTree(c, u) {
        ItemsSorted(c, u);
      }
    }
  }

  /** The same invariant without exact separators. */
  function Loose(c: Config): Config {
    c.(tight := false)
  }

  lemma {:induction false} TidyExact(c: Config, t: Tree, key: int, value: Value, nid: PageId)
    requires SearchTree(c, t) && KEY_MIN <= key < KEY_MAX
    ensures var v := TidyInsert(c.cap, t, key, value, nid).0;
            && (!HitsHalfEnd(c.cap, t, key) <==> Items(v) == Replace(Items(t), key, value))
            && (!HitsHalfEnd(c.cap, t, key) <==> Sorted(Items(v)))
            && (!HitsHalfEnd(c.cap, t, key) ==> SearchTree(Loose(c), v))
  {
    var v := TidyInsert(c.cap, t, key, value, nid).0;
    ItemsSorted(c, t);
    ReplaceSorted(Items(t), key, value);
    if HitsHalfEnd(c.cap, t, key) {
      TidyUnsorted(c, t, key, value, nid);
    } else {
      Relax(c, Loose(c), t, Height(t), KEY_MIN, Hi(t));
      TidyGood(Loose(c), t, key, value, nid);
    }
  }

  lemma {:induction false} TidyUnsorted(c: Config, t: Tree, key: int, value: Value, nid: PageId)
    requires SearchTree(c, t) && KEY_MIN <= key < KEY_MAX && HitsHalfEnd(c.cap, t, key)
    ensures !Sorted(Items(TidyInsert(c.cap, t, key, value, nid).0))
  {
    var h, p := Height(t), Tidy(c.cap, t, key, value, nid);
    InsSeps(c, t, h, KEY_MIN, Hi(t), key, value, nid);
    TidyAlike(c, t, h, KEY_MIN, Hi(t), key, value, nid);
    TidyBroken(c, t, h, KEY_MIN, Hi(t), key, value, nid);
    hide Tidy, Ins;
    RaisedItems(p);
  }

  /** Exact separators do not depend on node sizes, order not on separators being exact. */
  lemma {:induction false} Relax(c: Config, d: Config, t: Tree, h: nat, lo: int, hi: int)
    requires Ordered(c, t, h, lo, hi) && c.cap == d.cap && d.min <= c.min && (d.tight ==> c.tight)
    ensures Ordered(d, t, h, lo, hi)
    decreases t
  {
    if t.Inner? {
      RelaxKids(c, d, t.kids, h - 1, lo, hi);
    }
  }

  lemma {:induction false} RelaxKids(c: Config, d: Config, kids: seq<Entry<Tree>>, h: nat, lo: int, hi: int)
    requires Chain(c, kids, h, lo, hi) && c.cap == d.cap && d.min <= c.min && (d.tight ==> c.tight)
    ensures Chain(d, kids, h, lo, hi)
    decreases kids
  {
    if |kids| > 0 {
      assert kids[0].val < kids[0];
      Relax(c, d, kids[0].val, h, lo, kids[0].key);
      RelaxKids(c, d, kids[1..], h, kids[0].key, hi);
    }
  }

  lemma {:induction false} ItemsSorted(c: Config, t: Tree)
    requires SearchTree(c, t)
    ensures Sorted(Items(t))
  {
    ItemsOrdered(c, t, Height(t), KEY_MIN, Hi(t));
  }

  lemma {:induction false} UnsafeUnsorted(c: Config, t: Tree, key: int, value: Value, nid: PageId)
    requires SearchTree(c, t) && KEY_MIN <= key < KEY_MAX && !SafeInsert(c.cap, t, key)
    ensures !Sorted(Items(Insert(c.cap, t, key, value, nid).0))
  {
    UnsafeGrown(c, t, key, value, nid);
    hide Ins, Sorted, Items, GrownItems, SearchTree, SafeInsert;
    RaisedItems(Ins(c.cap, t, key, value, nid));
  }

  lemma {:induction false} UnsafeGrown(c: Config, t: Tree, key: int, value: Value, nid: PageId)
    requires SearchTree(c, t) && KEY_MIN <= key < KEY_MAX && !SafeInsert(c.cap, t, key)
    ensures var g := Ins(c.cap, t, key, value, nid);
            !Sorted(GrownItems(g)) && (g.right.Some? ==> Sep(g.left) < Sep(g.right.value))
  {
    TidySame(c.cap, t, key, value, nid);
    hide Ins, InsLeaf, Sorted, GrownItems, Tidy;
    InsSeps(c, t, Height(t), KEY_MIN, Hi(t), key, value, nid);
    if t.Leaf? {
      LeafTwice(c.cap, t.id, t.kvs, key, value, nid);
    } else {
      InsBroken(c, t, Height(t), KEY_MIN, Hi(t), key, value, nid);
    }
  }

  lemma {:induction false} RaisedItems(g: Grown)
    requires g.right.Some? ==> Sep(g.left) < Sep(g.right.value)
    ensures g.right.Some? ==> Items(Raise(g.nid, g.left, g.right.value)) == GrownItems(g)
    ensures g.right.None? ==> Items(g.left) == GrownItems(g)
  {
    if g.right.Some? {
      RaiseForm(g.nid, g.left, g.right.value);
      FlatTwo([Entry(Sep(g.left), g.left), Entry(Sep(g.right.value), g.right.value)]);
    }
  }
}
