/** Insertion into an ordered tree: when it is a sorted upsert that keeps the tree ordered, and when it is not. */
module BTreeInsert {
  import opened Options
  import opened Entries
  import opened BTreeShape

  /**
   * The insertions that go right. A full leaf is cut in two; then the key must not be the last key of the left half
   * (it would be stored twice), and the right half's separator must be the one the parent already keeps (the parent
   * would keep a second slot for the left half otherwise).
   */
  predicate Safe(cap: nat, t: Tree, hi: int, key: int)
    requires cap >= 2
    decreases t
  {
    match t
    case Leaf(_, kvs) => SafeLeaf(cap, kvs, hi, key)
    case Inner(_, kids) => KidsSafe(cap, kids, key)
  }

  predicate SafeLeaf(cap: nat, kvs: seq<Entry<Value>>, hi: int, key: int)
    requires cap >= 2
  {
    |kvs| >= cap ==> kvs[|kvs| / 2 - 1].key != key && NewHi(Last(kvs).key + 1, key) == NewHi(hi, key)
  }

  predicate KidsSafe(cap: nat, kids: seq<Entry<Tree>>, key: int)
    requires cap >= 2
    decreases kids
  {
    |kids| > 0 ==>
      var i := Route(kids, key);
      assert kids[i].val < kids[i];
      Safe(cap, kids[i].val, kids[i].key, key)
  }

  /** The search for `key` ends at a full leaf whose left half ends with `key`. */
  predicate HitsHalfEnd(cap: nat, t: Tree, key: int)
    requires cap >= 2
    decreases t
  {
    match t
    case Leaf(_, kvs) => |kvs| >= cap && kvs[|kvs| / 2 - 1].key == key
    case Inner(_, kids) => KidsHitHalfEnd(cap, kids, key)
  }

  predicate KidsHitHalfEnd(cap: nat, kids: seq<Entry<Tree>>, key: int)
    requires cap >= 2
    decreases kids
  {
    |kids| > 0 &&
      var i := Route(kids, key);
      assert kids[i].val < kids[i];
      HitsHalfEnd(cap, kids[i].val, key)
  }

  /** The search ends at a full leaf, and the parent's separator for it is not the one its right half will get. */
  predicate LeavesSlot(cap: nat, t: Tree, hi: int, key: int)
    requires cap >= 2
    decreases t
  {
    match t
    case Leaf(_, kvs) => |kvs| >= cap && NewHi(Last(kvs).key + 1, key) != NewHi(hi, key)
    case Inner(_, kids) => KidsLeaveSlot(cap, kids, key)
  }

  predicate KidsLeaveSlot(cap: nat, kids: seq<Entry<Tree>>, key: int)
    requires cap >= 2
    decreases kids
  {
    |kids| > 0 &&
      var i := Route(kids, key);
      assert kids[i].val < kids[i];
      LeavesSlot(cap, kids[i].val, kids[i].key, key)
  }

  lemma {:induction false} SafeParts(cap: nat, t: Tree, hi: int, key: int)
    requires cap >= 2
    ensures Safe(cap, t, hi, key) <==> !HitsHalfEnd(cap, t, key) && !LeavesSlot(cap, t, hi, key)
    decreases t
  {
    if t.Inner? && |t.kids| > 0 {
      var i := Route(t.kids, key);
      assert t.kids[i].val < t.kids[i];
      SafeParts(cap, t.kids[i].val, t.kids[i].key, key);
    }
  }

  /** The slots a parent ends up with for a kid that had separator `k` before and has become `g`. */
  function Mid(k: int, g: Grown): seq<Entry<Tree>> {
    match g.right
    case None => [Entry(k, g.left)]
    case Some(r) =>
      if Sep(r) == k then [Entry(Sep(g.left), g.left), Entry(k, r)]
      else [Entry(Sep(g.left), g.left), Entry(Sep(r), r), Entry(k, g.left)]
  }

  // ---------------------------------------------------------------- insertion without a slot left behind

  /**
   * The same slots without one that is left behind: the right half takes the kid's separator over. This is how the leaf
   * chain sees the kids, as it does not depend on separators.
   */
  function TidyMid(k: int, g: Grown): seq<Entry<Tree>> {
    match g.right
    case None => [Entry(k, g.left)]
    case Some(r) => [Entry(Sep(g.left), g.left), Entry(k, r)]
  }

  /** Insertion that leaves no slot behind. */
  function Tidy(cap: nat, t: Tree, key: int, value: Value, nid: PageId): Grown
    requires cap >= 2
    decreases t
  {
    match t
    case Leaf(id, kvs) => InsLeaf(cap, id, kvs, key, value, nid)
    case Inner(id, kids) =>
      var (ks, n) := TidyKids(cap, Half(cap, kids, key), key, value, if |kids| < cap then nid else nid + 1);
      Rejoin(cap, id, kids, key, nid, ks, n)
  }

  function TidyKids(cap: nat, kids: seq<Entry<Tree>>, key: int, value: Value, nid: PageId): (seq<Entry<Tree>>, PageId)
    requires cap >= 2
    decreases kids
  {
    if |kids| == 0 then (kids, nid)
    else
      var i := Route(kids, key);
      assert kids[i].val < kids[i];
      var g := Tidy(cap, kids[i].val, key, value, nid);
      (kids[..i] + TidyMid(NewHi(kids[i].key, key), g) + kids[i + 1..], g.nid)
  }

  /** `s` and `os` land next to each other in place of the kid's old slot. */
  lemma {:induction false} InstallForm(a: seq<Entry<Tree>>, e: Entry<Tree>, b: seq<Entry<Tree>>, g: Grown)
    requires g.right.Some? ==> Sep(g.left) < Sep(g.right.value) <= e.key
    requires g.right.Some? ==> AllBelow(a, Sep(g.left))
    requires AllFrom(b, e.key + 1)
    ensures Install(a + [e] + b, |a|, g) == a + Mid(e.key, g) + b
  {
    var kept := [Entry(e.key, g.left)];
    assert (a + [e] + b)[|a| := kept[0]] == a + kept + b;
    if g.right.Some? {
      var r, sl := g.right.value, Sep(g.left);
      ReplaceInfix(a, kept, b, sl, g.left);
      var two := [Entry(sl, g.left), Entry(e.key, g.left)];
      ReplaceOne(kept[0], sl, g.left);
      ReplaceInfix(a, two, b, Sep(r), r);
      ReplaceTwo(two[0], two[1], Sep(r), r);
    }
  }

  /** Bumping only touches the last kid, and only when the key is above all separators. */
  lemma {:induction false} BumpForm(kids: seq<Entry<Tree>>, key: int)
    requires |kids| > 0 && Sorted(kids)
    ensures var i := Route(kids, key);
            && Bump(kids, key) == kids[..i] + [Entry(NewHi(kids[i].key, key), kids[i].val)] + kids[i + 1..]
            && AllBelow(kids[..i], key + 1)
            && AllFrom(kids[i + 1..], NewHi(kids[i].key, key) + 1)
            && kids == kids[..i] + [kids[i]] + kids[i + 1..]
  {
  }

  /** Routing among the kids of the half that takes the key is routing among all kids. */
  lemma {:induction false} RouteHalf(cap: nat, kids: seq<Entry<Tree>>, key: int)
    requires cap >= 2 && |kids| > 0 && Sorted(kids)
    ensures |Half(cap, kids, key)| > 0
    ensures Half(cap, kids, key)[Route(Half(cap, kids, key), key)] == kids[Route(kids, key)]
  {
    var u, m := Upper(kids, key), |kids| / 2;
    if |kids| < cap {
    } else if kids[m - 1].key <= key {
      assert m <= u;
      UpperIs(kids[m..], key, u - m);
    } else {
      assert u < m;
      UpperIs(kids[..m], key, u);
    }
  }

  // ---------------------------------------------------------------- insertions that keep the order

  /** What inserting into `t` guarantees its parent. */
  ghost predicate Grew(c: Config, t: Tree, h: nat, lo: int, hi: int, key: int, value: Value, g: Grown) {
    match g.right
    case None =>
      && Ordered(c, g.left, h, lo, NewHi(hi, key))
      && Size(g.left) <= c.cap
      && (KidOk(c, hi, t) ==> KidOk(c, NewHi(hi, key), g.left))
      && Items(g.left) == Replace(Items(t), key, value)
    case Some(r) =>
      && Chain(c, TidyMid(NewHi(hi, key), g), h, lo, NewHi(hi, key))
      && Items(g.left) + Items(r) == Replace(Items(t), key, value)
  }

  ghost predicate Fits(c: Config) {
    c.cap >= 2 && c.min <= c.cap / 2
  }

  lemma {:induction false} LeafKept(c: Config, t: Tree, lo: int, hi: int, key: int, value: Value)
    requires Fits(c) && t.Leaf? && Size(t) < c.cap && lo <= key
    requires Ordered(c, t, 0, lo, hi)
    ensures var l := Leaf(t.id, Replace(t.kvs, key, value));
            && Ordered(c, l, 0, lo, NewHi(hi, key))
            && Size(l) <= c.cap
            && (KidOk(c, hi, t) ==> KidOk(c, NewHi(hi, key), l))
  {
    ReplaceShape(t.kvs, key, value);
    ReplaceBounds(t.kvs, key, value, lo, NewHi(hi, key));
  }

  lemma {:induction false} LeafCut(c: Config, id: PageId, kvs: seq<Entry<Value>>, lo: int, hi: int, key: int,
                                   value: Value, nid: PageId)
    requires Fits(c) && |kvs| == c.cap && lo <= key
    requires Sorted(kvs) && AllFrom(kvs, lo) && AllBelow(kvs, hi) && kvs[|kvs| / 2 - 1].key != key
    requires c.tight ==> NewHi(Last(kvs).key + 1, key) == NewHi(hi, key)
    ensures var g := InsLeaf(c.cap, id, kvs, key, value, nid);
            && g.right.Some? && Sep(g.right.value) == NewHi(Last(kvs).key + 1, key)
            && Chain(c, TidyMid(NewHi(hi, key), g), 0, lo, NewHi(hi, key))
  {
    var m := |kvs| / 2;
    var l, r := kvs[..m], kvs[m..];
    assert Last(l) == kvs[m - 1] && Last(r) == Last(kvs);
    if kvs[m - 1].key <= key {
      CutRight(c, id, l, nid, r, lo, NewHi(hi, key), key, value);
    } else {
      CutLeft(c, id, l, nid, r, lo, NewHi(hi, key), key, value);
    }
  }

  lemma {:induction false} CutRight(c: Config, id: PageId, l: seq<Entry<Value>>, nid: PageId, r: seq<Entry<Value>>,
                                    lo: int, hi: int, key: int, value: Value)
    requires Fits(c) && c.min <= |l| <= c.cap && c.min <= |r| < c.cap
    requires |l| > 0 && Sorted(l) && AllFrom(l, lo)
    requires |r| > 0 && Sorted(r) && AllFrom(r, Last(l).key + 1)
    requires Last(l).key < key
    requires NewHi(Last(r).key + 1, key) <= hi && (c.tight ==> NewHi(Last(r).key + 1, key) == hi)
    ensures var lt, rt := Leaf(id, l), Leaf(nid, Replace(r, key, value));
            && Sep(rt) == NewHi(Last(r).key + 1, key)
            && Chain(c, [Entry(Sep(lt), lt), Entry(hi, rt)], 0, lo, hi)
  {
    ReplaceShape(r, key, value);
    ReplaceBounds(r, key, value, Last(l).key + 1, NewHi(Last(r).key + 1, key));
    LeafPair(c, Leaf(id, l), Leaf(nid, Replace(r, key, value)), lo, hi);
  }

  lemma {:induction false} CutLeft(c: Config, id: PageId, l: seq<Entry<Value>>, nid: PageId, r: seq<Entry<Value>>,
                                   lo: int, hi: int, key: int, value: Value)
    requires Fits(c) && c.min <= |l| < c.cap && c.min <= |r| <= c.cap
    requires |l| > 0 && Sorted(l) && AllFrom(l, lo)
    requires |r| > 0 && Sorted(r) && AllFrom(r, Last(l).key + 1)
    requires lo <= key < Last(l).key && Last(r).key < hi && (c.tight ==> Last(r).key + 1 == hi)
    ensures var lt, rt := Leaf(id, Replace(l, key, value)), Leaf(nid, r);
            Chain(c, [Entry(Sep(lt), lt), Entry(hi, rt)], 0, lo, hi)
  {
    ReplaceShape(l, key, value);
    ReplaceBounds(l, key, value, lo, Last(l).key + 1);
    LeafPair(c, Leaf(id, Replace(l, key, value)), Leaf(nid, r), lo, hi);
  }

  /** Two leaves that follow each other. */
  lemma {:induction false} LeafPair(c: Config, l: Tree, r: Tree, lo: int, hi: int)
    requires Fits(c) && l.Leaf? && r.Leaf?
    requires c.min <= Size(l) <= c.cap && c.min <= Size(r) <= c.cap
    requires |l.kvs| > 0 && Sorted(l.kvs) && AllFrom(l.kvs, lo)
    requires |r.kvs| > 0 && Sorted(r.kvs) && AllFrom(r.kvs, Last(l.kvs).key + 1)
    requires Sep(r) <= hi && (c.tight ==> Sep(r) == hi)
    ensures Chain(c, [Entry(Sep(l), l), Entry(hi, r)], 0, lo, hi)
  {
    ChainTwo(c, l, r, 0, lo, hi);
  }

  lemma {:induction false} ChainTwo(c: Config, l: Tree, r: Tree, h: nat, lo: int, hi: int)
    requires lo < Sep(l) < hi
    requires Ordered(c, l, h, lo, Sep(l)) && KidOk(c, Sep(l), l)
    requires Ordered(c, r, h, Sep(l), hi) && KidOk(c, hi, r)
    ensures Chain(c, [Entry(Sep(l), l), Entry(hi, r)], h, lo, hi)
  {
    var s := [Entry(Sep(l), l), Entry(hi, r)];
    assert s[1..] == [s[1]];
  }

  lemma {:induction false} LeafItems(cap: nat, t: Tree, key: int, value: Value, nid: PageId)
    requires cap >= 2 && t.Leaf? && Sorted(t.kvs)
    requires |t.kvs| < cap || t.kvs[|t.kvs| / 2 - 1].key != key
    ensures var g := Ins(cap, t, key, value, nid);
            Items(g.left) + (if g.right.Some? then Items(g.right.value) else []) == Replace(t.kvs, key, value)
  {
    if |t.kvs| >= cap {
      var m := |t.kvs| / 2;
      var l, r := t.kvs[..m], t.kvs[m..];
      Halved(t.kvs, m);
      if t.kvs[m - 1].key <= key {
        ReplaceSuffix(l, r, key, value);
      } else {
        ReplacePrefix(l, r, key, value);
      }
    }
  }

  lemma {:induction false} LeafGrew(c: Config, t: Tree, lo: int, hi: int, key: int, value: Value, nid: PageId)
    requires Fits(c) && t.Leaf? && Size(t) <= c.cap && lo <= key
    requires Ordered(c, t, 0, lo, hi) && !HitsHalfEnd(c.cap, t, key) && (c.tight ==> !LeavesSlot(c.cap, t, hi, key))
    ensures Grew(c, t, 0, lo, hi, key, value, InsLeaf(c.cap, t.id, t.kvs, key, value, nid))
  {
    LeafItems(c.cap, t, key, value, nid);
    if |t.kvs| < c.cap {
      LeafKept(c, t, lo, hi, key, value);
    } else {
      LeafCut(c, t.id, t.kvs, lo, hi, key, value, nid);
    }
  }

  /** The kids before, at and behind the one that takes the key, and the bounds that go with them. */
  lemma {:induction false} RouteSplit(c: Config, kids: seq<Entry<Tree>>, h: nat, lo: int, hi: int, key: int)
    requires |kids| > 0 && Chain(c, kids, h, lo, hi) && lo <= key
    ensures var i := Route(kids, key);
            var e, mid := kids[i], LoOf(kids, i, lo);
            && Chain(c, kids[..i], h, lo, mid)
            && lo <= mid <= key && mid < e.key
            && Ordered(c, e.val, h, mid, e.key) && KidOk(c, e.key, e.val)
            && Chain(c, kids[i + 1..], h, e.key, hi)
            && (if |kids[i + 1..]| > 0 then key < e.key < hi else e.key == hi)
            && kids == kids[..i] + [e] + kids[i + 1..]
  {
    Parted(kids, Route(kids, key));
    ChainAt(c, kids, Route(kids, key), h, lo, hi);
  }

  /** Three consecutive stretches of kids, and what they list. */
  lemma {:induction false} ChainThree(c: Config, a: seq<Entry<Tree>>, x: seq<Entry<Tree>>, b: seq<Entry<Tree>>, h: nat,
                                      lo: int, m: int, n: int, hi: int)
    requires Chain(c, a, h, lo, m) && Chain(c, x, h, m, n) && Chain(c, b, h, n, hi)
    ensures Chain(c, a + x + b, h, lo, hi)
  {
    ChainConcat(c, a, x, h, lo, m, n);
    ChainConcat(c, a + x, b, h, lo, n, hi);
  }

  lemma {:induction false} FlatThree(a: seq<Entry<Tree>>, x: seq<Entry<Tree>>, b: seq<Entry<Tree>>)
    ensures Flat(a + x + b) == Flat(a) + Flat(x) + Flat(b)
  {
    FlatConcat(a, x);
    FlatConcat(a + x, b);
  }

  /** An upsert into what one kid lists is an upsert into what all of them list. */
  lemma {:induction false} FlatReplace(c: Config, a: seq<Entry<Tree>>, e: Entry<Tree>, b: seq<Entry<Tree>>, x: seq<Entry<Tree>>,
                    h: nat, lo: int, mid: int, hi: int, key: int, value: Value)
    requires Chain(c, a, h, lo, mid) && mid <= key
    requires Chain(c, b, h, e.key, hi) && (|b| > 0 ==> key < e.key)
    requires Flat(x) == Replace(Items(e.val), key, value)
    ensures Flat(a + x + b) == Replace(Flat(a + [e] + b), key, value)
  {
    FlatThree(a, x, b);
    FlatThree(a, [e], b);
    assert Flat([e]) == Items(e.val) + Flat([e][1..]) == Items(e.val);
    FlatOrdered(c, a, h, lo, mid);
    FlatOrdered(c, b, h, e.key, hi);
    ReplaceInfix(Flat(a), Items(e.val), Flat(b), key, value);
  }

  lemma {:induction false} MidGrew(c: Config, t: Tree, h: nat, lo: int, hi: int, key: int, value: Value, g: Grown)
    requires lo <= key && lo < hi && KidOk(c, hi, t)
    requires Grew(c, t, h, lo, hi, key, value, g)
    ensures Chain(c, TidyMid(NewHi(hi, key), g), h, lo, NewHi(hi, key))
    ensures Flat(TidyMid(NewHi(hi, key), g)) == Replace(Items(t), key, value)
    ensures g.right.Some? ==> lo < Sep(g.left) < NewHi(hi, key)
  {
    var s := TidyMid(NewHi(hi, key), g);
    match g.right {
      case None =>
        assert s[1..] == [];
        assert Flat(s) == Items(g.left) + Flat(s[1..]) == Items(g.left);
      case Some(r) =>
        assert s[1..] == [s[1]] && s[1..][1..] == [];
        assert Flat(s[1..]) == Items(r) + Flat(s[1..][1..]) == Items(r);
        assert Flat(s) == Items(g.left) + Flat(s[1..]);
        assert Chain(c, s[1..], h, Sep(g.left), NewHi(hi, key));
    }
  }

  /** Kids ordered below `hi` before have become `ks`. */
  ghost predicate KidsGrown(c: Config, kids: seq<Entry<Tree>>, h: nat, lo: int, hi: int, key: int, value: Value,
                            ks: seq<Entry<Tree>>) {
    && Chain(c, ks, h, lo, NewHi(hi, key))
    && Flat(ks) == Replace(Flat(kids), key, value)
    && |kids| <= |ks| <= |kids| + 1
  }

  lemma {:induction false} KidsAround(c: Config, a: seq<Entry<Tree>>, e: Entry<Tree>, b: seq<Entry<Tree>>, x: seq<Entry<Tree>>,
                   h: nat, lo: int, mid: int, hi: int, key: int, value: Value)
    requires Chain(c, a, h, lo, mid) && mid <= key
    requires Chain(c, x, h, mid, NewHi(e.key, key)) && 1 <= |x| <= 2
    requires Chain(c, b, h, e.key, hi) && (if |b| > 0 then key < e.key < hi else e.key == hi)
    requires Flat(x) == Replace(Items(e.val), key, value)
    ensures KidsGrown(c, a + [e] + b, h, lo, hi, key, value, a + x + b)
  {
    ChainThree(c, a, x, b, h, lo, mid, NewHi(e.key, key), NewHi(hi, key));
    FlatReplace(c, a, e, b, x, h, lo, mid, hi, key, value);
  }

  lemma {:induction false} AroundGrew(c: Config, kids: seq<Entry<Tree>>, h: nat, lo: int, hi: int, key: int,
                                      value: Value, g: Grown)
    requires |kids| > 0 && Chain(c, kids, h, lo, hi) && lo <= key
    requires var i := Route(kids, key);
             Grew(c, kids[i].val, h, LoOf(kids, i, lo), kids[i].key, key, value, g)
    ensures var i := Route(kids, key);
            KidsGrown(c, kids, h, lo, hi, key, value, kids[..i] + TidyMid(NewHi(kids[i].key, key), g) + kids[i + 1..])
  {
    var i := Route(kids, key);
    var e := kids[i];
    var mid, x := LoOf(kids, i, lo), TidyMid(NewHi(e.key, key), g);
    RouteSplit(c, kids, h, lo, hi, key);
    MidGrew(c, e.val, h, mid, e.key, key, value, g);
    KidsAround(c, kids[..i], e, kids[i + 1..], x, h, lo, mid, hi, key, value);
  }

  /** Putting the halves' separators into a node keeps its kids in order when the right half's is the old one. */
  lemma {:induction false} InstallGrew(c: Config, kids: seq<Entry<Tree>>, h: nat, lo: int, hi: int, key: int,
                                       value: Value, g: Grown)
    requires |kids| > 0 && Chain(c, kids, h, lo, hi) && lo <= key
    requires var i := Route(kids, key);
             && Grew(c, kids[i].val, h, LoOf(kids, i, lo), kids[i].key, key, value, g)
             && (g.right.Some? ==> Sep(g.right.value) == NewHi(kids[i].key, key))
    ensures var i := Route(kids, key);
            && Install(Bump(kids, key), i, g) == kids[..i] + TidyMid(NewHi(kids[i].key, key), g) + kids[i + 1..]
            && KidsGrown(c, kids, h, lo, hi, key, value, Install(Bump(kids, key), i, g))
  {
    var i := Route(kids, key);
    RouteSplit(c, kids, h, lo, hi, key);
    MidGrew(c, kids[i].val, h, LoOf(kids, i, lo), kids[i].key, key, value, g);
    KidsForm(c, kids, h, lo, hi, key, g);
    AroundGrew(c, kids, h, lo, hi, key, value, g);
  }

  lemma {:induction false} TidyKidsGrew(c: Config, kids: seq<Entry<Tree>>, h: nat, lo: int, hi: int, key: int, value: Value,
                                        nid: PageId)
    requires Fits(c) && |kids| > 0 && Chain(c, kids, h, lo, hi) && lo <= key
    requires !KidsHitHalfEnd(c.cap, kids, key) && (c.tight ==> !KidsLeaveSlot(c.cap, kids, key))
    ensures KidsGrown(c, kids, h, lo, hi, key, value, TidyKids(c.cap, kids, key, value, nid).0)
    decreases kids
  {
    var i := Route(kids, key);
    RouteSplit(c, kids, h, lo, hi, key);
    assert kids[i].val < kids[i];
    TidyGrew(c, kids[i].val, h, LoOf(kids, i, lo), kids[i].key, key, value, nid);
    AroundGrew(c, kids, h, lo, hi, key, value, Tidy(c.cap, kids[i].val, key, value, nid));
  }

  lemma {:induction false} KidsForm(c: Config, kids: seq<Entry<Tree>>, h: nat, lo: int, hi: int, key: int, g: Grown)
    requires |kids| > 0 && Chain(c, kids, h, lo, hi) && lo <= key
    requires var i := Route(kids, key);
             g.right.Some? ==> LoOf(kids, i, lo) < Sep(g.left) < Sep(g.right.value) <= NewHi(kids[i].key, key)
    ensures var i := Route(kids, key);
            Install(Bump(kids, key), i, g) == kids[..i] + Mid(NewHi(kids[i].key, key), g) + kids[i + 1..]
  {
    var i := Route(kids, key);
    ChainBounds(c, kids, h, lo, hi);
    BumpForm(kids, key);
    InstallForm(kids[..i], Entry(NewHi(kids[i].key, key), kids[i].val), kids[i + 1..], g);
  }

  /**
   * The leaf chain after an insertion: in order, and listing the upsert, whenever the key is not the last of a full leaf's
   * left half. With exact separators asked for, no slot may be left behind either.
   */
  lemma {:induction false} TidyGrew(c: Config, t: Tree, h: nat, lo: int, hi: int, key: int, value: Value, nid: PageId)
    requires Fits(c) && Size(t) <= c.cap && lo <= key && Ordered(c, t, h, lo, hi)
    requires !HitsHalfEnd(c.cap, t, key) && (c.tight ==> !LeavesSlot(c.cap, t, hi, key))
    ensures Grew(c, t, h, lo, hi, key, value, Tidy(c.cap, t, key, value, nid))
    decreases t
  {
    match t {
      case Leaf(_, _) => LeafGrew(c, t, lo, hi, key, value, nid);
      case Inner(id, kids) =>
        var part, n := Half(c.cap, kids, key), if |kids| < c.cap then nid else nid + 1;
        HalfChain(c, kids, h - 1, lo, hi, key);
        RouteHalf(c.cap, kids, key);
        TidyKidsGrew(c, part, h - 1, HalfLo(c.cap, kids, lo, key), HalfHi(c.cap, kids, hi, key), key, value, n);
        var (ks, n') := TidyKids(c.cap, part, key, value, n);
        RejoinGrew(c, t, h, lo, hi, key, value, nid, ks, n');
    }
  }

  /** Without a slot left behind the pages' tree is the tidy one. */
  lemma {:induction false} InsTidy(c: Config, t: Tree, h: nat, lo: int, hi: int, key: int, value: Value, nid: PageId)
    requires Fits(c) && Size(t) <= c.cap && lo <= key && Ordered(c, t, h, lo, hi) && Safe(c.cap, t, hi, key)
    ensures Ins(c.cap, t, key, value, nid) == Tidy(c.cap, t, key, value, nid)
    ensures var g := Ins(c.cap, t, key, value, nid);
            Grew(c, t, h, lo, hi, key, value, g) && (g.right.Some? ==> Sep(g.right.value) == NewHi(hi, key))
    decreases t, 1
  {
    SafeParts(c.cap, t, hi, key);
    if t.Leaf? {
      LeafTidy(c, t, lo, hi, key, value, nid);
    } else {
      InnerTidy(c, t, h, lo, hi, key, value, nid);
    }
    hide Tidy, Ins, Ordered, Safe, HitsHalfEnd, LeavesSlot;
    TidyGrew(c, t, h, lo, hi, key, value, nid);
    var g := Tidy(c.cap, t, key, value, nid);
    if g.right.Some? && t.Inner? {
      TidySep(c, g, h, lo, NewHi(hi, key));
    }
  }

  lemma {:induction false} LeafTidy(c: Config, t: Tree, lo: int, hi: int, key: int, value: Value, nid: PageId)
    requires Fits(c) && t.Leaf? && Size(t) <= c.cap && lo <= key && Ordered(c, t, 0, lo, hi)
    requires !HitsHalfEnd(c.cap, t, key) && !LeavesSlot(c.cap, t, hi, key)
    ensures Ins(c.cap, t, key, value, nid) == Tidy(c.cap, t, key, value, nid)
    ensures var g := Tidy(c.cap, t, key, value, nid); g.right.Some? ==> Sep(g.right.value) == NewHi(hi, key)
  {
    if Size(t) == c.cap {
      LeafCut(c, t.id, t.kvs, lo, hi, key, value, nid);
    }
  }

  lemma {:induction false} InnerTidy(c: Config, t: Tree, h: nat, lo: int, hi: int, key: int, value: Value, nid: PageId)
    requires Fits(c) && t.Inner? && Size(t) <= c.cap && lo <= key && Ordered(c, t, h, lo, hi) && Safe(c.cap, t, hi, key)
    ensures Ins(c.cap, t, key, value, nid) == Tidy(c.cap, t, key, value, nid)
    ensures var g := Tidy(c.cap, t, key, value, nid); g.right.Some? ==> g.right.value.Inner?
    decreases t, 0
  {
    var kids := t.kids;
    var part, n := Half(c.cap, kids, key), if |kids| < c.cap then nid else nid + 1;
    HalfChain(c, kids, h - 1, lo, hi, key);
    SafeHalf(c.cap, kids, key);
    KidsTidy(c, part, h - 1, HalfLo(c.cap, kids, lo, key), HalfHi(c.cap, kids, hi, key), key, value, n);
  }

  lemma {:induction false} TidySep(c: Config, g: Grown, h: nat, lo: int, hi: int)
    requires g.right.Some? && g.right.value.Inner? && Chain(c, TidyMid(hi, g), h, lo, hi)
    ensures Sep(g.right.value) == hi
  {
    var s, r := TidyMid(hi, g), g.right.value;
    assert s[1..] == [s[1]] && Chain(c, s[1..], h, s[0].key, hi);
    assert Ordered(c, r, h, s[0].key, hi);
    ChainBounds(c, r.kids, h - 1, s[0].key, hi);
  }

  lemma {:induction false} KidsTidy(c: Config, kids: seq<Entry<Tree>>, h: nat, lo: int, hi: int, key: int, value: Value,
                                    nid: PageId)
    requires Fits(c) && |kids| > 0 && Chain(c, kids, h, lo, hi) && lo <= key && KidsSafe(c.cap, kids, key)
    ensures InsKids(c.cap, kids, key, value, nid) == TidyKids(c.cap, kids, key, value, nid)
    ensures KidsGrown(c, kids, h, lo, hi, key, value, InsKids(c.cap, kids, key, value, nid).0)
    decreases kids
  {
    var i := Route(kids, key);
    RouteSplit(c, kids, h, lo, hi, key);
    assert kids[i].val < kids[i];
    InsTidy(c, kids[i].val, h, LoOf(kids, i, lo), kids[i].key, key, value, nid);
    InstallGrew(c, kids, h, lo, hi, key, value, Ins(c.cap, kids[i].val, key, value, nid));
  }

  /** What a safe insertion into `t` guarantees its parent, with the right half's separator being the old one. */
  lemma {:induction false} InsGrew(c: Config, t: Tree, h: nat, lo: int, hi: int, key: int, value: Value, nid: PageId)
    requires Fits(c) && Size(t) <= c.cap && lo <= key
    requires Ordered(c, t, h, lo, hi) && Safe(c.cap, t, hi, key)
    ensures var g := Ins(c.cap, t, key, value, nid);
            Grew(c, t, h, lo, hi, key, value, g) && (g.right.Some? ==> Sep(g.right.value) == NewHi(hi, key))
  {
    InsTidy(c, t, h, lo, hi, key, value, nid);
  }

  function HalfLo(cap: nat, kids: seq<Entry<Tree>>, lo: int, key: int): int
    requires cap >= 2
  {
    var m := |kids| / 2;
    if |kids| >= cap && kids[m - 1].key <= key then kids[m - 1].key else lo
  }

  function HalfHi(cap: nat, kids: seq<Entry<Tree>>, hi: int, key: int): int
    requires cap >= 2
  {
    var m := |kids| / 2;
    if |kids| >= cap && key < kids[m - 1].key then kids[m - 1].key else hi
  }

  lemma {:induction false} HalfChain(c: Config, kids: seq<Entry<Tree>>, h: nat, lo: int, hi: int, key: int)
    requires c.cap >= 2 && |kids| > 0 && Chain(c, kids, h, lo, hi) && lo <= key
    ensures var part, l := Half(c.cap, kids, key), HalfLo(c.cap, kids, lo, key);
            |part| > 0 && l <= key && Chain(c, part, h, l, HalfHi(c.cap, kids, hi, key))
    ensures Sorted(kids)
  {
    ChainBounds(c, kids, h, lo, hi);
    if |kids| >= c.cap {
      ChainSplit(c, kids, |kids| / 2, h, lo, hi);
    }
  }

  lemma {:induction false} SafeHalf(cap: nat, kids: seq<Entry<Tree>>, key: int)
    requires cap >= 2 && |kids| > 0 && Sorted(kids)
    ensures KidsSafe(cap, Half(cap, kids, key), key) == KidsSafe(cap, kids, key)
  {
    RouteHalf(cap, kids, key);
  }

  lemma {:induction false} CutKids(c: Config, kids: seq<Entry<Tree>>, m: nat, h: nat, lo: int, hi: int)
    requires 0 < m < |kids| && Chain(c, kids, h, lo, hi)
    ensures Chain(c, kids[..m], h, lo, kids[m - 1].key) && Chain(c, kids[m..], h, kids[m - 1].key, hi)
    ensures lo < kids[m - 1].key < hi && Last(kids).key == hi
    ensures Flat(kids) == Flat(kids[..m]) + Flat(kids[m..])
  {
    ChainSplit(c, kids, m, h, lo, hi);
    ChainBounds(c, kids, h, lo, hi);
    FlatConcat(kids[..m], kids[m..]);
    Halved(kids, m);
  }

  lemma {:induction false} RejoinGrew(c: Config, t: Tree, h: nat, lo: int, hi: int, key: int, value: Value, nid: PageId,
                                      ks: seq<Entry<Tree>>, n: PageId)
    requires Fits(c) && t.Inner? && 0 < |t.kids| <= c.cap && h > 0 && Chain(c, t.kids, h - 1, lo, hi)
    requires KidsGrown(c, Half(c.cap, t.kids, key), h - 1, HalfLo(c.cap, t.kids, lo, key), HalfHi(c.cap, t.kids, hi, key),
                       key, value, ks)
    ensures Grew(c, t, h, lo, hi, key, value, Rejoin(c.cap, t.id, t.kids, key, nid, ks, n))
  {
    var m := |t.kids| / 2;
    if |t.kids| == c.cap {
      CutKids(c, t.kids, m, h - 1, lo, hi);
      var l, r, k := t.kids[..m], t.kids[m..], t.kids[m - 1].key;
      if k <= key {
        InnerCut(c, t.id, l, nid, ks, h, lo, k, NewHi(hi, key));
        FlatOrdered(c, l, h - 1, lo, k);
        ReplaceSuffix(Flat(l), Flat(r), key, value);
      } else {
        InnerCut(c, t.id, ks, nid, r, h, lo, k, hi);
        FlatOrdered(c, r, h - 1, k, hi);
        ReplacePrefix(Flat(l), Flat(r), key, value);
      }
    }
  }

  lemma {:induction false} InnerCut(c: Config, id: PageId, l: seq<Entry<Tree>>, nid: PageId, r: seq<Entry<Tree>>,
                                    h: nat, lo: int, mid: int, hi: int)
    requires h > 0 && 0 < |l| && 0 < |r| && c.min <= |l| <= c.cap && c.min <= |r| <= c.cap
    requires Chain(c, l, h - 1, lo, mid) && Chain(c, r, h - 1, mid, hi)
    ensures var lt, rt := Inner(id, l), Inner(nid, r);
            Chain(c, [Entry(Sep(lt), lt), Entry(hi, rt)], h, lo, hi)
  {
    ChainBounds(c, l, h - 1, lo, mid);
    ChainBounds(c, r, h - 1, mid, hi);
    ChainTwo(c, Inner(id, l), Inner(nid, r), h, lo, hi);
  }
}
