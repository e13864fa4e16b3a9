/** What an insertion leaves in the pages and what the leaf chain shows of it: no empty nodes, and the same lookups. */
module BTreeTidy {
  import opened Options
  import opened Entries
  import opened BTreeShape
  import opened BTreeInsert
  import opened BTreeSafety
  import opened BTreePages
  import opened BTreeOps

  // ---------------------------------------------------------------- nodes keep kids

  /** No internal node is without kids. */
  predicate KidsThere(t: Tree)
    decreases t
  {
    t.Inner? ==> |t.kids| > 0 && AllKidsThere(t.kids)
  }

  predicate AllKidsThere(kids: seq<Entry<Tree>>)
    decreases kids
  {
    |kids| > 0 ==>
      assert kids[0].val < kids[0];
      KidsThere(kids[0].val) && AllKidsThere(kids[1..])
  }

  lemma {:induction false} OrderedKidsThere(c: Config, t: Tree, h: nat, lo: int, hi: int)
    requires Ordered(c, t, h, lo, hi)
    ensures KidsThere(t)
    decreases t
  {
    if t.Inner? {
      ChainKidsThere(c, t.kids, h - 1, lo, hi);
    }
  }

  lemma {:induction false} ChainKidsThere(c: Config, kids: seq<Entry<Tree>>, h: nat, lo: int, hi: int)
    requires Chain(c, kids, h, lo, hi)
    ensures AllKidsThere(kids)
    decreases kids
  {
    if |kids| > 0 {
      assert kids[0].val < kids[0];
      OrderedKidsThere(c, kids[0].val, h, lo, kids[0].key);
      ChainKidsThere(c, kids[1..], h, kids[0].key, hi);
    }
  }

  lemma {:induction false} ThereConcat(a: seq<Entry<Tree>>, b: seq<Entry<Tree>>)
    ensures AllKidsThere(a + b) <==> AllKidsThere(a) && AllKidsThere(b)
  {
    if |a| == 0 {
      assert a + b == b;
    } else {
      ThereConcat(a[1..], b);
      assert (a + b)[1..] == a[1..] + b;
    }
  }

  ghost predicate GrownThere(g: Grown) {
    KidsThere(g.left) && (g.right.Some? ==> KidsThere(g.right.value))
  }

  lemma {:induction false} MidThere(k: int, g: Grown, p: Grown)
    requires GrownThere(g) && GrownThere(p)
    ensures AllKidsThere(Mid(k, g)) && AllKidsThere(TidyMid(k, p))
  {
    OneThere(k, g.left);
    OneThere(k, p.left);
    if g.right.Some? {
      var d, e, f := Entry(Sep(g.left), g.left), Entry(Sep(g.right.value), g.right.value), Entry(k, g.left);
      OneThere(d.key, g.left);
      OneThere(e.key, g.right.value);
      OneThere(k, g.right.value);
      ThereConcat([d], [e]);
      ThereConcat([d] + [e], [f]);
      assert [d, e] == [d] + [e] && [d, e, f] == [d] + [e] + [f];
    }
    if p.right.Some? {
      var d, e := Entry(Sep(p.left), p.left), Entry(k, p.right.value);
      OneThere(d.key, p.left);
      OneThere(k, p.right.value);
      ThereConcat([d], [e]);
      assert [d, e] == [d] + [e];
    }
  }

  lemma {:induction false} OneThere(k: int, t: Tree)
    ensures AllKidsThere([Entry(k, t)]) <==> KidsThere(t)
  {
    assert [Entry(k, t)][1..] == [];
  }

  lemma {:induction false} InsThere(c: Config, t: Tree, h: nat, lo: int, hi: int, key: int, value: Value, nid: PageId)
    requires Fits(c) && Size(t) <= c.cap && lo <= key && Ordered(c, t, h, lo, hi)
    ensures GrownThere(Ins(c.cap, t, key, value, nid)) && GrownThere(Tidy(c.cap, t, key, value, nid))
    decreases t
  {
    if t.Inner? {
      var kids, m := t.kids, |t.kids| / 2;
      var part, n := Half(c.cap, kids, key), if |kids| < c.cap then nid else nid + 1;
      HalfChain(c, kids, h - 1, lo, hi, key);
      KidsInsThere(c, part, h - 1, HalfLo(c.cap, kids, lo, key), HalfHi(c.cap, kids, hi, key), key, value, n);
      ChainKidsThere(c, kids, h - 1, lo, hi);
      Halved(kids, m);
      ThereConcat(kids[..m], kids[m..]);
      var (ks, n') := InsKids(c.cap, part, key, value, n);
      var (ps, m') := TidyKids(c.cap, part, key, value, n);
      hide AllKidsThere, InsKids, TidyKids;
      RejoinThere(c.cap, t, key, nid, ks, n');
      RejoinThere(c.cap, t, key, nid, ps, m');
    }
  }

  lemma {:induction false} RejoinThere(cap: nat, t: Tree, key: int, nid: PageId, ks: seq<Entry<Tree>>, n: PageId)
    requires cap >= 2 && t.Inner? && |ks| > 0 && AllKidsThere(ks)
    requires var m := |t.kids| / 2; AllKidsThere(t.kids[..m]) && AllKidsThere(t.kids[m..])
    ensures GrownThere(Rejoin(cap, t.id, t.kids, key, nid, ks, n))
  {
  }

  lemma {:induction false} KidsInsThere(c: Config, kids: seq<Entry<Tree>>, h: nat, lo: int, hi: int, key: int, value: Value,
                                        nid: PageId)
    requires Fits(c) && |kids| > 0 && lo <= key && Chain(c, kids, h, lo, hi)
    ensures var ks, ps := InsKids(c.cap, kids, key, value, nid).0, TidyKids(c.cap, kids, key, value, nid).0;
            |ks| > 0 && |ps| > 0 && AllKidsThere(ks) && AllKidsThere(ps)
    decreases kids
  {
    var i := Route(kids, key);
    var e, mid := kids[i], LoOf(kids, i, lo);
    var g, p, k := Ins(c.cap, e.val, key, value, nid), Tidy(c.cap, e.val, key, value, nid), NewHi(e.key, key);
    RouteSplit(c, kids, h, lo, hi, key);
    assert e.val < e;
    InsThere(c, e.val, h, mid, e.key, key, value, nid);
    InsSeps(c, e.val, h, mid, e.key, key, value, nid);
    KidsForm(c, kids, h, lo, hi, key, g);
    MidThere(k, g, p);
    ChainKidsThere(c, kids[..i], h, lo, mid);
    ChainKidsThere(c, kids[i + 1..], h, e.key, hi);
    hide AllKidsThere, Mid, TidyMid, Ins, Tidy;
    AroundThere(kids[..i], Mid(k, g), kids[i + 1..]);
    AroundThere(kids[..i], TidyMid(k, p), kids[i + 1..]);
  }

  lemma {:induction false} AroundThere(a: seq<Entry<Tree>>, x: seq<Entry<Tree>>, b: seq<Entry<Tree>>)
    requires AllKidsThere(a) && AllKidsThere(x) && AllKidsThere(b)
    ensures AllKidsThere(a + x + b)
  {
    ThereConcat(a, x);
    ThereConcat(a + x, b);
  }

  // ---------------------------------------------------------------- lookups

  /** Some separator is above the key. */
  predicate Above(kids: seq<Entry<Tree>>, key: int) {
    Upper(kids, key) < |kids|
  }

  function KidsLookup(kids: seq<Entry<Tree>>, key: int): Option<Value> {
    var i := Upper(kids, key);
    if i == |kids| then None else Lookup(kids[i].val, key)
  }

  lemma {:induction false} LookupConcat(a: seq<Entry<Tree>>, b: seq<Entry<Tree>>, q: int)
    ensures KidsLookup(a + b, q) == if Above(a, q) then KidsLookup(a, q) else KidsLookup(b, q)
    ensures Above(a + b, q) <==> Above(a, q) || Above(b, q)
  {
    var i := Upper(a, q);
    UpperIs(a + b, q, if i < |a| then i else |a| + Upper(b, q));
  }

  /** Two stretches of kids answer alike. */
  ghost predicate SameAnswer(x: seq<Entry<Tree>>, y: seq<Entry<Tree>>, q: int) {
    (Above(x, q) <==> Above(y, q)) && KidsLookup(x, q) == KidsLookup(y, q)
  }

  lemma {:induction false} SameAround(a: seq<Entry<Tree>>, x: seq<Entry<Tree>>, y: seq<Entry<Tree>>, b: seq<Entry<Tree>>, q: int)
    requires SameAnswer(x, y, q)
    ensures SameAnswer(a + x + b, a + y + b, q)
  {
    LookupConcat(a, x, q);
    LookupConcat(a, y, q);
    LookupConcat(a + x, b, q);
    LookupConcat(a + y, b, q);
  }

  ghost predicate SameGrown(g: Grown, p: Grown, q: int) {
    && Lookup(g.left, q) == Lookup(p.left, q)
    && (g.right.Some? && p.right.Some? ==> Lookup(g.right.value, q) == Lookup(p.right.value, q))
  }

  lemma {:induction false} NotThere(s: seq<Entry<Value>>, q: int)
    requires AllBelow(s, q)
    ensures Find(s, q) == None
  {
  }

  /** The keys between the right half's separator and the one that stays are in neither half. */
  lemma {:induction false} MidAnswers(k: int, g: Grown, p: Grown, q: int)
    requires Alike(g, p) && SameGrown(g, p, q)
    requires g.right.Some? ==> Sep(g.left) < Sep(g.right.value) <= k
    requires g.right.Some? && Sep(g.right.value) < k ==>
               && g.left.Leaf? && p.right.value.Leaf?
               && AllBelow(g.left.kvs, Sep(g.left)) && AllBelow(p.right.value.kvs, Sep(p.right.value))
    ensures SameAnswer(Mid(k, g), TidyMid(k, p), q)
  {
    var x, y := Mid(k, g), TidyMid(k, p);
    match g.right {
      case None =>
        UpperIs(x, q, if q < k then 0 else 1);
        UpperIs(y, q, if q < k then 0 else 1);
      case Some(r) =>
        var sl, sr := Sep(g.left), Sep(r);
        UpperIs(y, q, if q < sl then 0 else if q < k then 1 else 2);
        UpperIs(x, q, if q < sl then 0 else if q < sr then 1 else if q < k then 2 else |x|);
        if sr <= q < k {
          NotThere(g.left.kvs, q);
          NotThere(p.right.value.kvs, q);
        }
    }
  }

  lemma {:induction false} LeafBounds(cap: nat, t: Tree, key: int, value: Value, nid: PageId)
    requires cap >= 2 && t.Leaf? && |t.kvs| == cap && Sorted(t.kvs)
    ensures var g := InsLeaf(cap, t.id, t.kvs, key, value, nid);
            && g.left.Leaf? && g.right.Some? && g.right.value.Leaf?
            && Size(g.left) > 0 && Sorted(g.left.kvs) && AllBelow(g.left.kvs, Sep(g.left))
            && Size(g.right.value) > 0 && Sorted(g.right.value.kvs) && AllBelow(g.right.value.kvs, Sep(g.right.value))
  {
    var l, r := t.kvs[..|t.kvs| / 2], t.kvs[|t.kvs| / 2..];
    LeafForm(cap, t.id, t.kvs, key, value, nid);
    hide Sorted, AllBelow, Replace, InsLeaf;
    ReplaceShape(l, key, value);
    ReplaceShape(r, key, value);
    UpTo(l);
    UpTo(r);
    UpTo(Replace(l, key, value));
    UpTo(Replace(r, key, value));
  }

  lemma {:induction false} UpTo(s: seq<Entry<Value>>)
    ensures Sorted(s) && |s| > 0 ==> AllBelow(s, Last(s).key + 1)
  {
  }

  /** A slot left behind does not change what a lookup finds. */
  lemma {:induction false} InsLookup(c: Config, t: Tree, h: nat, lo: int, hi: int, key: int, value: Value, nid: PageId, q: int)
    requires Fits(c) && Size(t) <= c.cap && lo <= key && Ordered(c, t, h, lo, hi)
    ensures SameGrown(Ins(c.cap, t, key, value, nid), Tidy(c.cap, t, key, value, nid), q)
    decreases t
  {
    if t.Inner? {
      var kids := t.kids;
      var part, n := Half(c.cap, kids, key), if |kids| < c.cap then nid else nid + 1;
      HalfChain(c, kids, h - 1, lo, hi, key);
      KidsInsLookup(c, part, h - 1, HalfLo(c.cap, kids, lo, key), HalfHi(c.cap, kids, hi, key), key, value, n, q);
      var (ks, n') := InsKids(c.cap, part, key, value, n);
      var (ps, m') := TidyKids(c.cap, part, key, value, n);
      RejoinLookup(c.cap, t, key, nid, ks, n', ps, m', q);
    }
  }

  lemma {:induction false} RejoinLookup(cap: nat, t: Tree, key: int, nid: PageId, ks: seq<Entry<Tree>>, n: PageId,
                                        ps: seq<Entry<Tree>>, m: PageId, q: int)
    requires cap >= 2 && t.Inner? && SameAnswer(ks, ps, q)
    ensures SameGrown(Rejoin(cap, t.id, t.kids, key, nid, ks, n), Rejoin(cap, t.id, t.kids, key, nid, ps, m), q)
  {
    assert forall id, id' :: Lookup(Inner(id, ks), q) == KidsLookup(ks, q) == KidsLookup(ps, q) == Lookup(Inner(id', ps), q);
  }

  lemma {:induction false} KidsInsLookup(c: Config, kids: seq<Entry<Tree>>, h: nat, lo: int, hi: int, key: int, value: Value,
                                         nid: PageId, q: int)
    requires Fits(c) && |kids| > 0 && lo <= key && Chain(c, kids, h, lo, hi)
    ensures SameAnswer(InsKids(c.cap, kids, key, value, nid).0, TidyKids(c.cap, kids, key, value, nid).0, q)
    decreases kids
  {
    var i := Route(kids, key);
    var e, mid := kids[i], LoOf(kids, i, lo);
    var g, p, k := Ins(c.cap, e.val, key, value, nid), Tidy(c.cap, e.val, key, value, nid), NewHi(e.key, key);
    RouteSplit(c, kids, h, lo, hi, key);
    assert e.val < e;
    InsLookup(c, e.val, h, mid, e.key, key, value, nid, q);
    InsSeps(c, e.val, h, mid, e.key, key, value, nid);
    TidyAlike(c, e.val, h, mid, e.key, key, value, nid);
    KidsForm(c, kids, h, lo, hi, key, g);
    if e.val.Leaf? && Size(e.val) == c.cap {
      LeafBounds(c.cap, e.val, key, value, nid);
    }
    MidAnswers(k, g, p, q);
    SameAround(kids[..i], Mid(k, g), TidyMid(k, p), kids[i + 1..], q);
  }

  /** What the pages answer for a grown node: its halves divide at the left one's separator. */
  function Answer(g: Grown, q: int): Option<Value> {
    match g.right
    case None => Lookup(g.left, q)
    case Some(r) => if q < Sep(g.left) then Lookup(g.left, q) else Lookup(r, q)
  }

  lemma {:induction false} LeafHalfEnd(cap: nat, t: Tree, key: int, value: Value, nid: PageId, q: int)
    requires cap >= 2 && t.Leaf? && |t.kvs| == cap && Sorted(t.kvs) && HitsHalfEnd(cap, t, key)
    ensures Answer(InsLeaf(cap, t.id, t.kvs, key, value, nid), q) == Find(t.kvs, q)
  {
    var m := |t.kvs| / 2;
    var l, r := t.kvs[..m], t.kvs[m..];
    HalfEndForm(cap, t, key, value, nid);
    hide InsLeaf, Sorted, AllFrom, AllBelow, Find, Replace, HitsHalfEnd;
    FindHalves(t.kvs, m, key, q);
    if q > key {
      FindOther(r, key, value, q);
    }
  }

  lemma {:induction false} HalfEndForm(cap: nat, t: Tree, key: int, value: Value, nid: PageId)
    requires cap >= 2 && t.Leaf? && |t.kvs| == cap && Sorted(t.kvs) && HitsHalfEnd(cap, t, key)
    ensures var l, r := t.kvs[..|t.kvs| / 2], t.kvs[|t.kvs| / 2..];
            && InsLeaf(cap, t.id, t.kvs, key, value, nid) == Grown(Leaf(t.id, l), Some(Leaf(nid, Replace(r, key, value))), nid + 1)
            && |l| > 0 && Last(l).key == key && AllBelow(l, key + 1) && AllFrom(r, key + 1) && Sorted(r)
  {
  }

  lemma {:induction false} FindHalves(s: seq<Entry<Value>>, m: nat, key: int, q: int)
    requires m <= |s| && AllBelow(s[..m], key + 1) && AllFrom(s[m..], key + 1)
    ensures Find(s, q) == if q <= key then Find(s[..m], q) else Find(s[m..], q)
  {
    if q <= key {
      assert s == [] + s[..m] + s[m..];
      FindInfix([], s[..m], s[m..], q);
    } else {
      assert s == s[..m] + s[m..] + [];
      FindInfix(s[..m], s[m..], [], q);
    }
  }

  lemma {:induction false} FindOther(s: seq<Entry<Value>>, key: int, value: Value, q: int)
    requires Sorted(s) && AllFrom(s, key + 1) && key < q
    ensures Find(Replace(s, key, value), q) == Find(s, q)
  {
    PositionIs(s, key, 0);
    var e := Entry(key, value);
    assert Replace(s, key, value) == [e] + s + [];
    FindInfix([e], s, [], q);
  }

  /** Inserting the last key of a full leaf's left half changes no lookup: the new slot is in the right half. */
  lemma {:induction false} TidyHalfEnd(c: Config, t: Tree, h: nat, lo: int, hi: int, key: int, value: Value, nid: PageId, q: int)
    requires Fits(c) && Size(t) <= c.cap && lo <= key < hi && Ordered(c, t, h, lo, hi) && HitsHalfEnd(c.cap, t, key)
    ensures Answer(Tidy(c.cap, t, key, value, nid), q) == Lookup(t, q)
    decreases t
  {
    match t {
      case Leaf(_, _) => LeafHalfEnd(c.cap, t, key, value, nid, q);
      case Inner(_, kids) =>
        var part, n := Half(c.cap, kids, key), if |kids| < c.cap then nid else nid + 1;
        HalfChain(c, kids, h - 1, lo, hi, key);
        RouteHalf(c.cap, kids, key);
        KidsHalfEnd(c, part, h - 1, HalfLo(c.cap, kids, lo, key), HalfHi(c.cap, kids, hi, key), key, value, n, q);
        var (ps, m') := TidyKids(c.cap, part, key, value, n);
        RejoinHalfEnd(c, t, h, lo, hi, key, nid, ps, m', q);
    }
  }

  lemma {:induction false} RejoinHalfEnd(c: Config, t: Tree, h: nat, lo: int, hi: int, key: int, nid: PageId,
                                         ps: seq<Entry<Tree>>, n: PageId, q: int)
    requires Fits(c) && t.Inner? && 0 < |t.kids| <= c.cap && h > 0 && Chain(c, t.kids, h - 1, lo, hi)
    requires |ps| > 0 && SameAnswer(ps, Half(c.cap, t.kids, key), q) && Last(ps).key == Last(Half(c.cap, t.kids, key)).key
    ensures Answer(Rejoin(c.cap, t.id, t.kids, key, nid, ps, n), q) == Lookup(t, q)
  {
    var kids, m, g := t.kids, |t.kids| / 2, Rejoin(c.cap, t.id, t.kids, key, nid, ps, n);
    assert Lookup(t, q) == KidsLookup(kids, q);
    if |kids| < c.cap {
      assert Lookup(g.left, q) == KidsLookup(ps, q);
    } else {
      var l, r := kids[..m], kids[m..];
      CutKids(c, kids, m, h - 1, lo, hi);
      Halved(kids, m);
      BelowLast(c, l, h - 1, lo, kids[m - 1].key, q);
      var x, y := if kids[m - 1].key <= key then l else ps, if kids[m - 1].key <= key then ps else r;
      assert g == Grown(Inner(t.id, x), Some(Inner(nid, y)), n);
      assert Last(x).key == kids[m - 1].key && SameAnswer(x, l, q) && SameAnswer(y, r, q);
      hide Chain, Half, Rejoin, KidsLookup, Above;
      LookupConcat(l, r, q);
      InnerAnswer(t.id, x, nid, y, n, q);
    }
  }

  lemma {:induction false} InnerAnswer(id: PageId, x: seq<Entry<Tree>>, nid: PageId, y: seq<Entry<Tree>>, n: PageId, q: int)
    requires |x| > 0
    ensures Answer(Grown(Inner(id, x), Some(Inner(nid, y)), n), q) == if q < Last(x).key then KidsLookup(x, q) else KidsLookup(y, q)
  {
  }

  lemma {:induction false} BelowLast(c: Config, kids: seq<Entry<Tree>>, h: nat, lo: int, hi: int, q: int)
    requires |kids| > 0 && Chain(c, kids, h, lo, hi)
    ensures Above(kids, q) <==> q < hi
    ensures Last(kids).key == hi
  {
    ChainBounds(c, kids, h, lo, hi);
  }

  lemma {:induction false} MidHalfEnd(e: Entry<Tree>, g: Grown, q: int)
    requires g.right.Some? ==> Sep(g.left) < e.key
    requires q < e.key ==> Answer(g, q) == Lookup(e.val, q)
    ensures SameAnswer(TidyMid(e.key, g), [e], q) && Last(TidyMid(e.key, g)).key == e.key
  {
    var x := TidyMid(e.key, g);
    UpperIs([e], q, if q < e.key then 0 else 1);
    UpperIs(x, q, if g.right.Some? && Sep(g.left) <= q < e.key then 1 else if q < e.key then 0 else |x|);
  }

  lemma {:induction false} KidsHalfEnd(c: Config, kids: seq<Entry<Tree>>, h: nat, lo: int, hi: int, key: int, value: Value,
                                       nid: PageId, q: int)
    requires Fits(c) && |kids| > 0 && lo <= key < hi && Chain(c, kids, h, lo, hi) && KidsHitHalfEnd(c.cap, kids, key)
    ensures var ps := TidyKids(c.cap, kids, key, value, nid).0;
            |ps| > 0 && SameAnswer(ps, kids, q) && Last(ps).key == Last(kids).key
    decreases kids
  {
    var i := Route(kids, key);
    var e := kids[i];
    var g := Tidy(c.cap, e.val, key, value, nid);
    RouteSplit(c, kids, h, lo, hi, key);
    assert e.val < e;
    HalfEndBelow(c, e.val, h, LoOf(kids, i, lo), e.key, key);
    TidyHalfEnd(c, e.val, h, LoOf(kids, i, lo), e.key, key, value, nid, q);
    InsSeps(c, e.val, h, LoOf(kids, i, lo), e.key, key, value, nid);
    TidyAlike(c, e.val, h, LoOf(kids, i, lo), e.key, key, value, nid);
    var x := TidyMid(e.key, g);
    assert TidyKids(c.cap, kids, key, value, nid).0 == kids[..i] + x + kids[i + 1..];
    hide Tidy, TidyKids, TidyMid, Ins, Chain, Ordered, Route, KidsLookup, Above, KidsHitHalfEnd;
    MidHalfEnd(e, g, q);
    SameAround(kids[..i], x, [e], kids[i + 1..], q);
    LastOf(kids[..i], x, kids[i + 1..]);
    LastOf(kids[..i], [e], kids[i + 1..]);
  }

  // ---------------------------------------------------------------- whole trees

  lemma {:induction false} RaiseLookup(id: PageId, l: Tree, r: Tree, q: int)
    requires Sep(l) < Sep(r)
    ensures Lookup(Raise(id, l, r), q) == if q < Sep(l) then Lookup(l, q) else if q < Sep(r) then Lookup(r, q) else None
  {
    var s := [Entry(Sep(l), l), Entry(Sep(r), r)];
    RaiseForm(id, l, r);
    UpperIs(s, q, if q < Sep(l) then 0 else if q < Sep(r) then 1 else 2);
  }

  lemma {:induction false} InsertLookup(c: Config, t: Tree, key: int, value: Value, nid: PageId, q: int)
    requires SearchTree(c, t) && KEY_MIN <= key < KEY_MAX
    ensures Lookup(Insert(c.cap, t, key, value, nid).0, q) == Lookup(TidyInsert(c.cap, t, key, value, nid).0, q)
  {
    var g, p := Ins(c.cap, t, key, value, nid), Tidy(c.cap, t, key, value, nid);
    InsLookup(c, t, Height(t), KEY_MIN, Hi(t), key, value, nid, q);
    TidyAlike(c, t, Height(t), KEY_MIN, Hi(t), key, value, nid);
    InsSeps(c, t, Height(t), KEY_MIN, Hi(t), key, value, nid);
    hide Ins, Tidy, Ordered;
    if g.right.Some? {
      RaiseLookup(g.nid, g.left, g.right.value, q);
      RaiseLookup(p.nid, p.left, p.right.value, q);
    }
  }

  /** What lookups find after an insertion: the upsert, or what there was before when the key is the last of a full leaf's left half. */
  lemma {:induction false} InsertAnswers(c: Config, t: Tree, key: int, value: Value, nid: PageId, q: int)
    requires SearchTree(c, t) && KEY_MIN <= key < KEY_MAX
    ensures Lookup(Insert(c.cap, t, key, value, nid).0, q)
            == if HitsHalfEnd(c.cap, t, key) then Find(Items(t), q) else Find(Replace(Items(t), key, value), q)
  {
    InsertLookup(c, t, key, value, nid, q);
    if HitsHalfEnd(c.cap, t, key) {
      RootHalfEnd(c, t, key, value, nid, q);
    } else {
      TidyExact(c, t, key, value, nid);
      var v := TidyInsert(c.cap, t, key, value, nid).0;
      LookupIs(Loose(c), v, Height(v), KEY_MIN, Hi(v), q);
    }
  }

  lemma {:induction false} RootHalfEnd(c: Config, t: Tree, key: int, value: Value, nid: PageId, q: int)
    requires SearchTree(c, t) && KEY_MIN <= key < KEY_MAX && HitsHalfEnd(c.cap, t, key)
    ensures Lookup(TidyInsert(c.cap, t, key, value, nid).0, q) == Find(Items(t), q)
  {
    var h, p := Height(t), Tidy(c.cap, t, key, value, nid);
    HalfEndBelow(c, t, h, KEY_MIN, Hi(t), key);
    TidyHalfEnd(c, t, h, KEY_MIN, Hi(t), key, value, nid, q);
    LookupIs(c, t, h, KEY_MIN, Hi(t), q);
    ItemsOrdered(c, t, h, KEY_MIN, Hi(t));
    HalfEndSep(c, t, h, key, value, nid);
    hide Tidy, Ordered, HitsHalfEnd, Items, Find;
    if p.right.Some? {
      RaiseLookup(p.nid, p.left, p.right.value, q);
      if Sep(p.right.value) <= q {
        NotThere(Items(t), q);
      }
    }
  }

  lemma {:induction false} HalfEndSep(c: Config, t: Tree, h: nat, key: int, value: Value, nid: PageId)
    requires SearchTree(c, t) && h == Height(t) && KEY_MIN <= key < Hi(t)
    ensures var p := Tidy(c.cap, t, key, value, nid); p.right.Some? ==> Sep(p.left) < Sep(p.right.value) == Hi(t)
  {
    InsSeps(c, t, h, KEY_MIN, Hi(t), key, value, nid);
    TidyAlike(c, t, h, KEY_MIN, Hi(t), key, value, nid);
    if t.Leaf? && Size(t) == c.cap {
      SepOfRight(c.cap, t, key, value, nid);
    }
  }

  lemma {:induction false} HalfEndBelow(c: Config, t: Tree, h: nat, lo: int, hi: int, key: int)
    requires c.cap >= 2 && lo <= key && Ordered(c, t, h, lo, hi) && HitsHalfEnd(c.cap, t, key)
    ensures key < hi
    decreases t
  {
    if t.Inner? {
      var i := Route(t.kids, key);
      RouteSplit(c, t.kids, h - 1, lo, hi, key);
      HalfEndBelow(c, t.kids[i].val, h - 1, LoOf(t.kids, i, lo), t.kids[i].key, key);
    }
  }
}
