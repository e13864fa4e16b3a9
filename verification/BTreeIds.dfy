/** Insertion and page ids: which pages a grown tree uses, and that safe insertions keep them apart. */
module BTreeIds {
  import opened Options
  import opened Entries
  import opened BTreeShape
  import opened BTreeInsert
  import opened BTreeSafety
  import opened BTreePages

  ghost predicate Below(ids: set<PageId>, n: PageId) {
    forall p :: p in ids ==> p < n
  }

  ghost function GrownIds(g: Grown): set<PageId> {
    Ids(g.left) + if g.right.Some? then Ids(g.right.value) else {}
  }

  ghost predicate GrownDistinct(g: Grown) {
    Distinct(g.left) && (g.right.Some? ==> Distinct(g.right.value) && Ids(g.left) !! Ids(g.right.value))
  }

  /** The slot left behind points to the left half once more. */
  lemma {:induction false} MidIds(k: int, g: Grown)
    ensures KidsIds(Mid(k, g)) == GrownIds(g)
    ensures KidsDistinct(Mid(k, g)) <==> GrownDistinct(g) && (g.right.Some? ==> Sep(g.right.value) == k)
  {
    var s := Mid(k, g);
    if g.right.None? {
      IdsOne(s[0]);
    } else if Sep(g.right.value) == k {
      IdsTwo(s[0], s[1]);
    } else {
      IdsConcat([s[0]], [s[1], s[2]]);
      assert s == [s[0]] + [s[1], s[2]];
      IdsOne(s[0]);
      IdsTwo(s[1], s[2]);
      assert g.left.id in Ids(s[0].val) && g.left.id in Ids(s[2].val);
    }
  }

  lemma {:induction false} TidyMidIds(k: int, g: Grown)
    ensures KidsIds(TidyMid(k, g)) == GrownIds(g)
    ensures KidsDistinct(TidyMid(k, g)) <==> GrownDistinct(g)
  {
    var s := TidyMid(k, g);
    if g.right.None? {
      IdsOne(s[0]);
    } else {
      IdsTwo(s[0], s[1]);
    }
  }

  /** What insertion does to ids; pages stay apart exactly when it is `clean`. */
  ghost predicate IdsGrew(ids: set<PageId>, nid: PageId, n: PageId, ids': set<PageId>, distinct': bool, clean: bool) {
    && nid <= n
    && (forall p :: p in ids' <==> p in ids || nid <= p < n)
    && (clean <==> distinct')
  }

  lemma {:induction false} InsIds(c: Config, t: Tree, h: nat, lo: int, hi: int, key: int, value: Value, nid: PageId)
    requires Fits(c) && Size(t) <= c.cap && lo <= key && Ordered(c, t, h, lo, hi)
    requires Distinct(t) && Below(Ids(t), nid)
    ensures var g := Ins(c.cap, t, key, value, nid);
            && IdsGrew(Ids(t), nid, g.nid, GrownIds(g), GrownDistinct(g), t.Inner? ==> !LeavesSlot(c.cap, t, hi, key))
            && g.left.id == t.id && (g.right.Some? ==> g.right.value.id == nid)
            && FirstLeaf(g.left) == FirstLeaf(t)
    decreases t
  {
    match t {
      case Leaf(_, _) =>
        LeafIds(c.cap, t, key, value, nid);
      case Inner(_, kids) =>
        var part, n := Half(c.cap, kids, key), if |kids| < c.cap then nid else nid + 1;
        HalfChain(c, kids, h - 1, lo, hi, key);
        RouteHalf(c.cap, kids, key);
        HalfIds(c.cap, kids, key);
        KidsInsIds(c, part, h - 1, HalfLo(c.cap, kids, lo, key), HalfHi(c.cap, kids, hi, key), key, value, n);
        var (ks, n') := InsKids(c.cap, part, key, value, n);
        RejoinIds(c.cap, t, key, nid, ks, n', !KidsLeaveSlot(c.cap, kids, key));
    }
  }

  /** The leaf chain never reaches a page twice. */
  lemma {:induction false} TidyIds(c: Config, t: Tree, h: nat, lo: int, hi: int, key: int, value: Value, nid: PageId)
    requires Fits(c) && Size(t) <= c.cap && lo <= key && Ordered(c, t, h, lo, hi)
    requires Distinct(t) && Below(Ids(t), nid)
    ensures var g := Tidy(c.cap, t, key, value, nid);
            && IdsGrew(Ids(t), nid, g.nid, GrownIds(g), GrownDistinct(g), true)
            && FirstLeaf(g.left) == FirstLeaf(t)
    decreases t
  {
    match t {
      case Leaf(_, _) =>
        LeafIds(c.cap, t, key, value, nid);
      case Inner(_, kids) =>
        var part, n := Half(c.cap, kids, key), if |kids| < c.cap then nid else nid + 1;
        HalfChain(c, kids, h - 1, lo, hi, key);
        HalfIds(c.cap, kids, key);
        TidyKidsIds(c, part, h - 1, HalfLo(c.cap, kids, lo, key), HalfHi(c.cap, kids, hi, key), key, value, n);
        var (ks, n') := TidyKids(c.cap, part, key, value, n);
        RejoinIds(c.cap, t, key, nid, ks, n', true);
    }
  }

  lemma {:induction false} LeafIds(cap: nat, t: Tree, key: int, value: Value, nid: PageId)
    requires cap >= 2 && t.Leaf? && t.id < nid
    ensures var g := InsLeaf(cap, t.id, t.kvs, key, value, nid);
            && IdsGrew({t.id}, nid, g.nid, GrownIds(g), GrownDistinct(g), true)
  {
  }

  lemma {:induction false} HalfIds(cap: nat, kids: seq<Entry<Tree>>, key: int)
    requires cap >= 2 && KidsDistinct(kids)
    ensures KidsDistinct(Half(cap, kids, key)) && KidsIds(Half(cap, kids, key)) <= KidsIds(kids)
  {
    if |kids| >= cap {
      var m := |kids| / 2;
      Halved(kids, m);
      IdsConcat(kids[..m], kids[m..]);
    }
  }

  lemma {:induction false} RejoinIds(cap: nat, t: Tree, key: int, nid: PageId, ks: seq<Entry<Tree>>, n: PageId, safe: bool)
    requires cap >= 2 && t.Inner? && |t.kids| > 0 && Distinct(t) && Below(Ids(t), nid)
    requires var part := Half(cap, t.kids, key);
             && IdsGrew(KidsIds(part), if |t.kids| < cap then nid else nid + 1, n, KidsIds(ks), KidsDistinct(ks), safe)
             && |ks| > 0 && |part| > 0 && FirstLeaf(ks[0].val) == FirstLeaf(part[0].val)
    ensures var g := Rejoin(cap, t.id, t.kids, key, nid, ks, n);
            && IdsGrew(Ids(t), nid, n, GrownIds(g), GrownDistinct(g), safe)
            && FirstLeaf(g.left) == FirstLeaf(t)
  {
    if |t.kids| >= cap {
      var m := |t.kids| / 2;
      Halved(t.kids, m);
      IdsConcat(t.kids[..m], t.kids[m..]);
      CutIds(t.id, t.kids[..m], t.kids[m..], nid, ks, n, safe);
    }
  }

  lemma {:induction false} CutIds(id: PageId, l: seq<Entry<Tree>>, r: seq<Entry<Tree>>, nid: PageId,
                                  ks: seq<Entry<Tree>>, n: PageId, safe: bool)
    requires KidsDistinct(l) && KidsDistinct(r) && KidsIds(l) !! KidsIds(r)
    requires id !in KidsIds(l) && id !in KidsIds(r)
    requires Below(KidsIds(l), nid) && Below(KidsIds(r), nid) && id < nid
    ensures IdsGrew(KidsIds(r), nid + 1, n, KidsIds(ks), KidsDistinct(ks), safe) ==>
              var g := Grown(Inner(id, l), Some(Inner(nid, ks)), n);
              IdsGrew({id} + KidsIds(l) + KidsIds(r), nid, n, GrownIds(g), GrownDistinct(g), safe)
    ensures IdsGrew(KidsIds(l), nid + 1, n, KidsIds(ks), KidsDistinct(ks), safe) ==>
              var g := Grown(Inner(id, ks), Some(Inner(nid, r)), n);
              IdsGrew({id} + KidsIds(l) + KidsIds(r), nid, n, GrownIds(g), GrownDistinct(g), safe)
  {
    if IdsGrew(KidsIds(r), nid + 1, n, KidsIds(ks), KidsDistinct(ks), safe) {
      SetsApart({id} + KidsIds(l), KidsIds(r), KidsIds(ks), nid, n);
    }
    if IdsGrew(KidsIds(l), nid + 1, n, KidsIds(ks), KidsDistinct(ks), safe) {
      SetsApart({id} + KidsIds(r), KidsIds(l), KidsIds(ks), nid, n);
    }
  }

  /** Growing by new ids keeps apart what was apart. */
  lemma {:induction false} StayApart(a: set<PageId>, x: set<PageId>, x': set<PageId>, nid: PageId, n: PageId)
    requires a !! x && Below(a, nid)
    requires forall p :: p in x' <==> p in x || nid <= p < n
    ensures a !! x'
  {
    forall p | p in a ensures p !in x' {
    }
  }

  lemma {:induction false} SetsApart(a: set<PageId>, x: set<PageId>, x': set<PageId>, nid: PageId, n: PageId)
    requires a !! x && Below(a, nid) && Below(x, nid) && nid < n
    requires forall p :: p in x' <==> p in x || nid + 1 <= p < n
    ensures forall p :: p in a + x' + {nid} <==> p in a + x || nid <= p < n
    ensures a !! x' && nid !in x' && nid !in a
  {
    StayApart(a, x, x', nid + 1, n);
  }

  lemma {:induction false} KidsInsIds(c: Config, kids: seq<Entry<Tree>>, h: nat, lo: int, hi: int, key: int,
                                      value: Value, nid: PageId)
    requires Fits(c) && |kids| > 0 && lo <= key && Chain(c, kids, h, lo, hi)
    requires KidsDistinct(kids) && Below(KidsIds(kids), nid)
    ensures var (ks, n) := InsKids(c.cap, kids, key, value, nid);
            && IdsGrew(KidsIds(kids), nid, n, KidsIds(ks), KidsDistinct(ks), !KidsLeaveSlot(c.cap, kids, key))
            && |ks| > 0 && FirstLeaf(ks[0].val) == FirstLeaf(kids[0].val)
    decreases kids
  {
    var i := Route(kids, key);
    var e, mid := kids[i], LoOf(kids, i, lo);
    RouteSplit(c, kids, h, lo, hi, key);
    assert e.val < e;
    IdsThree(kids[..i], [e], kids[i + 1..]);
    IdsOne(e);
    InsIds(c, e.val, h, mid, e.key, key, value, nid);
    InsSeps(c, e.val, h, mid, e.key, key, value, nid);
    var g, k := Ins(c.cap, e.val, key, value, nid), NewHi(e.key, key);
    KidsForm(c, kids, h, lo, hi, key, g);
    SlotLeft(c, e.val, h, mid, e.key, key, value, nid);
    MidIds(k, g);
    InstallIds(kids[..i], e, kids[i + 1..], Mid(k, g), nid, g.nid, !KidsLeaveSlot(c.cap, kids, key));
  }

  /** A cut leaf leaves its slot behind exactly when its right half gets another separator. */
  lemma {:induction false} SlotLeft(c: Config, t: Tree, h: nat, lo: int, hi: int, key: int, value: Value, nid: PageId)
    requires Fits(c) && Size(t) <= c.cap && lo <= key && Ordered(c, t, h, lo, hi)
    ensures var g := Ins(c.cap, t, key, value, nid);
            && (t.Leaf? ==> (LeavesSlot(c.cap, t, hi, key) <==> g.right.Some? && Sep(g.right.value) != NewHi(hi, key)))
            && (t.Inner? && g.right.Some? ==> Sep(g.right.value) == NewHi(hi, key))
  {
    match t {
      case Leaf(_, _) =>
        if Size(t) == c.cap {
          SepOfRight(c.cap, t, key, value, nid);
        }
      case Inner(_, _) => InsSeps(c, t, h, lo, hi, key, value, nid);
    }
  }

  lemma {:induction false} TidyKidsIds(c: Config, kids: seq<Entry<Tree>>, h: nat, lo: int, hi: int, key: int,
                                       value: Value, nid: PageId)
    requires Fits(c) && |kids| > 0 && lo <= key && Chain(c, kids, h, lo, hi)
    requires KidsDistinct(kids) && Below(KidsIds(kids), nid)
    ensures var (ks, n) := TidyKids(c.cap, kids, key, value, nid);
            && IdsGrew(KidsIds(kids), nid, n, KidsIds(ks), KidsDistinct(ks), true)
            && |ks| > 0 && FirstLeaf(ks[0].val) == FirstLeaf(kids[0].val)
    decreases kids
  {
    var i := Route(kids, key);
    var e := kids[i];
    RouteSplit(c, kids, h, lo, hi, key);
    assert e.val < e;
    IdsThree(kids[..i], [e], kids[i + 1..]);
    IdsOne(e);
    TidyIds(c, e.val, h, LoOf(kids, i, lo), e.key, key, value, nid);
    var g, k := Tidy(c.cap, e.val, key, value, nid), NewHi(e.key, key);
    TidyMidIds(k, g);
    InstallIds(kids[..i], e, kids[i + 1..], TidyMid(k, g), nid, g.nid, true);
  }

  lemma {:induction false} InstallIds(a: seq<Entry<Tree>>, e: Entry<Tree>, b: seq<Entry<Tree>>, x: seq<Entry<Tree>>,
                                      nid: PageId, n: PageId, clean: bool)
    requires KidsDistinct(a + [e] + b) && Below(KidsIds(a + [e] + b), nid)
    requires IdsGrew(Ids(e.val), nid, n, KidsIds(x), KidsDistinct(x), clean)
    requires |x| > 0 && FirstLeaf(x[0].val) == FirstLeaf(e.val)
    ensures var ks := a + x + b;
            && IdsGrew(KidsIds(a + [e] + b), nid, n, KidsIds(ks), KidsDistinct(ks), clean)
            && |ks| > 0 && FirstLeaf(ks[0].val) == FirstLeaf((a + [e] + b)[0].val)
  {
    IdsThree(a, [e], b);
    IdsThree(a, x, b);
    IdsOne(e);
    StayApart(KidsIds(a), Ids(e.val), KidsIds(x), nid, n);
    StayApart(KidsIds(b), Ids(e.val), KidsIds(x), nid, n);
  }
}
