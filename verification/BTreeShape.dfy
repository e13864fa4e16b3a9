/** The tree a set of linked B+ tree pages stands for, and what one insertion makes of it. */
module BTreeShape {
  import opened Options
  import opened Entries

  type Value = int
  type PageId = int

  /** A kid's entry key is the separator its parent keeps for it: an upper bound of the keys below. */
  datatype Tree =
    | Leaf(id: PageId, kvs: seq<Entry<Value>>)
    | Inner(id: PageId, kids: seq<Entry<Tree>>)

  /** One page, perhaps cut in two, and the next page id to hand out. */
  datatype Grown = Grown(left: Tree, right: Option<Tree>, nid: PageId)

  function Size(t: Tree): nat {
    if t.Leaf? then |t.kvs| else |t.kids|
  }

  /** The separator a parent keeps for `t`: one past a leaf's last key, an internal node's last separator. */
  function Sep(t: Tree): int {
    if Size(t) == 0 then 0 else if t.Leaf? then Last(t.kvs).key + 1 else Last(t.kids).key
  }

  // ---------------------------------------------------------------- insertion

  /** The kid that takes `key`: the last one when the key is above every separator. */
  function Route(kids: seq<Entry<Tree>>, key: int): (i: nat)
    requires |kids| > 0
    ensures i < |kids|
  {
    var i := Upper(kids, key);
    if i == |kids| then i - 1 else i
  }

  function NewHi(hi: int, key: int): int {
    if key < hi then hi else key + 1
  }

  /** Raise the last separator above `key`. */
  function Bump(kids: seq<Entry<Tree>>, key: int): (r: seq<Entry<Tree>>)
    requires |kids| > 0
    ensures |r| == |kids|
  {
    if Upper(kids, key) < |kids| then kids else kids[..|kids| - 1] + [Entry(key + 1, Last(kids).val)]
  }

  /** Put what became of kid `i` back: the kid's page keeps its slot, then both halves of a cut kid are upserted. */
  function Install(kids: seq<Entry<Tree>>, i: nat, g: Grown): seq<Entry<Tree>>
    requires i < |kids|
  {
    var kept := kids[i := Entry(kids[i].key, g.left)];
    match g.right
    case None => kept
    case Some(r) => Replace(Replace(kept, Sep(g.left), g.left), Sep(r), r)
  }

  /** Put a slot into a leaf, cutting the leaf in two first when it is full. */
  function InsLeaf(cap: nat, id: PageId, kvs: seq<Entry<Value>>, key: int, value: Value, nid: PageId): Grown
    requires cap >= 2
  {
    var m := |kvs| / 2;
    if |kvs| < cap then Grown(Leaf(id, Replace(kvs, key, value)), None, nid)
    else if kvs[m - 1].key <= key then
      Grown(Leaf(id, kvs[..m]), Some(Leaf(nid, Replace(kvs[m..], key, value))), nid + 1)
    else
      Grown(Leaf(id, Replace(kvs[..m], key, value)), Some(Leaf(nid, kvs[m..])), nid + 1)
  }

  /** The kids an internal node keeps on the side that takes `key`: all of them unless the node is full. */
  function Half(cap: nat, kids: seq<Entry<Tree>>, key: int): seq<Entry<Tree>>
    requires cap >= 2
  {
    var m := |kids| / 2;
    if |kids| < cap then kids else if kids[m - 1].key <= key then kids[m..] else kids[..m]
  }

  /** The node, or its two halves, once the kids on the side that takes the key have become `ks`. */
  function Rejoin(cap: nat, id: PageId, kids: seq<Entry<Tree>>, key: int, nid: PageId, ks: seq<Entry<Tree>>, n: PageId): Grown
    requires cap >= 2
  {
    var m := |kids| / 2;
    if |kids| < cap then Grown(Inner(id, ks), None, n)
    else if kids[m - 1].key <= key then Grown(Inner(id, kids[..m]), Some(Inner(nid, ks)), n)
    else Grown(Inner(id, ks), Some(Inner(nid, kids[m..])), n)
  }

  /** Insert below `t`, cutting a full node in two on the way down. */
  function Ins(cap: nat, t: Tree, key: int, value: Value, nid: PageId): Grown
    requires cap >= 2
    decreases t
  {
    match t
    case Leaf(id, kvs) => InsLeaf(cap, id, kvs, key, value, nid)
    case Inner(id, kids) =>
      var (ks, n) := InsKids(cap, Half(cap, kids, key), key, value, if |kids| < cap then nid else nid + 1);
      Rejoin(cap, id, kids, key, nid, ks, n)
  }

  function InsKids(cap: nat, kids: seq<Entry<Tree>>, key: int, value: Value, nid: PageId): (seq<Entry<Tree>>, PageId)
    requires cap >= 2
    decreases kids
  {
    if |kids| == 0 then (kids, nid)
    else
      var i := Route(kids, key);
      assert kids[i].val < kids[i];
      var g := Ins(cap, kids[i].val, key, value, nid);
      (Install(Bump(kids, key), i, g), g.nid)
  }

  /** Insert at the root: a cut root gets a new root above it. */
  function Insert(cap: nat, t: Tree, key: int, value: Value, nid: PageId): (Tree, PageId)
    requires cap >= 2
  {
    var g := Ins(cap, t, key, value, nid);
    match g.right
    case None => (g.left, g.nid)
    case Some(r) => (Raise(g.nid, g.left, r), g.nid + 1)
  }

  /** A new root over the two halves of the old one. */
  function Raise(id: PageId, l: Tree, r: Tree): Tree {
    Inner(id, InsertNew([Entry(Sep(l), l)], Sep(r), r))
  }

  // ---------------------------------------------------------------- deletion and lookup

  function Delete(t: Tree, key: int): Tree
    decreases t
  {
    match t
    case Leaf(id, kvs) => Leaf(id, Remove(kvs, key))
    case Inner(id, kids) =>
      var i := Upper(kids, key);
      if i == |kids| then t else Inner(id, kids[i := Entry(kids[i].key, Delete(kids[i].val, key))])
  }

  function Lookup(t: Tree, key: int): Option<Value>
    decreases t
  {
    match t
    case Leaf(_, kvs) => Find(kvs, key)
    case Inner(_, kids) =>
      var i := Upper(kids, key);
      if i == |kids| then None else Lookup(kids[i].val, key)
  }

  // ---------------------------------------------------------------- the slots of a tree, in order

  function Items(t: Tree): seq<Entry<Value>>
    decreases t
  {
    match t
    case Leaf(_, kvs) => kvs
    case Inner(_, kids) => Flat(kids)
  }

  function Flat(kids: seq<Entry<Tree>>): seq<Entry<Value>>
    decreases kids
  {
    if |kids| == 0 then []
    else
      assert kids[0].val < kids[0];
      Items(kids[0].val) + Flat(kids[1..])
  }

  lemma {:induction false} FlatConcat(a: seq<Entry<Tree>>, b: seq<Entry<Tree>>)
    ensures Flat(a + b) == Flat(a) + Flat(b)
  {
    if |a| == 0 {
      assert a + b == b;
    } else {
      FlatConcat(a[1..], b);
      assert (a + b)[1..] == a[1..] + b;
      assert Flat(a + b) == Items(a[0].val) + (Flat(a[1..]) + Flat(b));
    }
  }

  // ---------------------------------------------------------------- search-tree invariant

  /** What is asked of a tree beyond its order: node sizes, and whether leaf separators are exact. */
  datatype Config = Config(cap: nat, min: nat, tight: bool)

  /** Below a parent slot with separator `k`, node `t` is well filled and, when `tight`, its separator is exact. */
  ghost predicate KidOk(c: Config, k: int, t: Tree) {
    && c.min <= Size(t) <= c.cap
    && (c.tight && t.Leaf? ==> Size(t) > 0 && Sep(t) == k)
  }

  /** All leaves are `h` levels down and all keys lie in `[lo, hi)`; an internal node's last separator is `hi`. */
  ghost predicate Ordered(c: Config, t: Tree, h: nat, lo: int, hi: int)
    decreases t
  {
    match t
    case Leaf(_, kvs) => h == 0 && Sorted(kvs) && AllFrom(kvs, lo) && AllBelow(kvs, hi)
    case Inner(_, kids) => h > 0 && |kids| > 0 && Chain(c, kids, h - 1, lo, hi)
  }

  /** The kids divide `[lo, hi)` between them, in order. */
  ghost predicate Chain(c: Config, kids: seq<Entry<Tree>>, h: nat, lo: int, hi: int)
    decreases kids
  {
    if |kids| == 0 then lo == hi
    else
      assert kids[0].val < kids[0];
      && lo < kids[0].key
      && Ordered(c, kids[0].val, h, lo, kids[0].key)
      && KidOk(c, kids[0].key, kids[0].val)
      && Chain(c, kids[1..], h, kids[0].key, hi)
  }

  lemma {:induction false} ChainConcat(c: Config, a: seq<Entry<Tree>>, b: seq<Entry<Tree>>, h: nat, lo: int, mid: int, hi: int)
    requires Chain(c, a, h, lo, mid) && Chain(c, b, h, mid, hi)
    ensures Chain(c, a + b, h, lo, hi)
    decreases |a|
  {
    if |a| == 0 {
      assert a + b == b;
    } else {
      ChainConcat(c, a[1..], b, h, a[0].key, mid, hi);
      assert (a + b)[1..] == a[1..] + b;
    }
  }

  /** The separator before kid `i`. */
  function LoOf(kids: seq<Entry<Tree>>, i: nat, lo: int): int
    requires i <= |kids|
  {
    if i == 0 then lo else kids[i - 1].key
  }

  lemma {:induction false} ChainSplit(c: Config, kids: seq<Entry<Tree>>, i: nat, h: nat, lo: int, hi: int)
    requires i <= |kids| && Chain(c, kids, h, lo, hi)
    ensures Chain(c, kids[..i], h, lo, LoOf(kids, i, lo))
    ensures Chain(c, kids[i..], h, LoOf(kids, i, lo), hi)
    ensures lo <= LoOf(kids, i, lo) <= hi
    decreases i
  {
    if i == 0 {
      assert kids[0..] == kids && kids[..0] == [];
      ChainBounds(c, kids, h, lo, hi);
    } else {
      ChainSplit(c, kids[1..], i - 1, h, kids[0].key, hi);
      assert kids[..i][1..] == kids[1..][..i - 1];
      assert kids[i..] == kids[1..][i - 1..];
    }
  }

  lemma {:induction false} ChainBounds(c: Config, kids: seq<Entry<Tree>>, h: nat, lo: int, hi: int)
    requires Chain(c, kids, h, lo, hi)
    ensures Sorted(kids) && AllFrom(kids, lo + 1) && AllBelow(kids, hi + 1)
    ensures |kids| > 0 ==> Last(kids).key == hi
    ensures |kids| > 0 ==> lo < hi
    ensures |kids| == 0 ==> lo == hi
    decreases |kids|
  {
    if |kids| > 0 {
      ChainBounds(c, kids[1..], h, kids[0].key, hi);
      assert kids == [kids[0]] + kids[1..];
    }
  }

  lemma {:induction false} ChainAt(c: Config, kids: seq<Entry<Tree>>, i: nat, h: nat, lo: int, hi: int)
    requires i < |kids| && Chain(c, kids, h, lo, hi)
    ensures Chain(c, kids[..i], h, lo, LoOf(kids, i, lo))
    ensures lo <= LoOf(kids, i, lo) < kids[i].key <= hi
    ensures Ordered(c, kids[i].val, h, LoOf(kids, i, lo), kids[i].key) && KidOk(c, kids[i].key, kids[i].val)
    ensures Chain(c, kids[i + 1..], h, kids[i].key, hi)
    ensures if i + 1 < |kids| then kids[i].key < hi else kids[i].key == hi
    decreases i
  {
    ChainBounds(c, kids[1..], h, kids[0].key, hi);
    if i > 0 {
      ChainAt(c, kids[1..], i - 1, h, kids[0].key, hi);
      assert kids[..i][1..] == kids[1..][..i - 1];
      assert kids[i + 1..] == kids[1..][i..];
    }
  }

  /** An ordered tree lists its keys in strictly increasing order, within its bounds. */
  lemma {:induction false} ItemsOrdered(c: Config, t: Tree, h: nat, lo: int, hi: int)
    requires Ordered(c, t, h, lo, hi)
    ensures Sorted(Items(t)) && AllFrom(Items(t), lo) && AllBelow(Items(t), hi)
    decreases t
  {
    if t.Inner? {
      FlatOrdered(c, t.kids, h - 1, lo, hi);
    }
  }

  lemma {:induction false} FlatOrdered(c: Config, kids: seq<Entry<Tree>>, h: nat, lo: int, hi: int)
    requires Chain(c, kids, h, lo, hi)
    ensures Sorted(Flat(kids)) && AllFrom(Flat(kids), lo) && AllBelow(Flat(kids), hi)
    decreases kids
  {
    if |kids| > 0 {
      assert kids[0].val < kids[0];
      ItemsOrdered(c, kids[0].val, h, lo, kids[0].key);
      FlatOrdered(c, kids[1..], h, kids[0].key, hi);
      ChainBounds(c, kids[1..], h, kids[0].key, hi);
      SortedConcat(Items(kids[0].val), Flat(kids[1..]), kids[0].key);
    }
  }
}
