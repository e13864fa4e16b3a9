/** Deletion, lookup, listing and range queries on ordered trees. */
module BTreeOps {
  import opened Entries
  import opened BTreeShape
  import opened BTreeInsert
  import opened BTreeSafety

  // ---------------------------------------------------------------- lookup

  lemma {:induction false} KidInfix(c: Config, kids: seq<Entry<Tree>>, i: nat, h: nat, lo: int, hi: int, key: int)
    requires Chain(c, kids, h, lo, hi) && i < |kids| && i == Upper(kids, key)
    ensures Flat(kids) == Flat(kids[..i]) + Items(kids[i].val) + Flat(kids[i + 1..])
    ensures AllBelow(Flat(kids[..i]), key + 1) && AllFrom(Flat(kids[i + 1..]), key + 1)
    ensures LoOf(kids, i, lo) > key ==> i == 0
    ensures i > 0 ==> AllBelow(Flat(kids[..i]), key)
  {
    ChainAt(c, kids, i, h, lo, hi);
    Parted(kids, i);
    FlatThree(kids[..i], [kids[i]], kids[i + 1..]);
    FlatOne([kids[i]]);
    FlatOrdered(c, kids[..i], h, lo, LoOf(kids, i, lo));
    FlatOrdered(c, kids[i + 1..], h, kids[i].key, hi);
  }

  /** Routing from the root finds what a linear search through the tree's listing finds. */
  lemma {:induction false} LookupIs(c: Config, t: Tree, h: nat, lo: int, hi: int, key: int)
    requires Ordered(c, t, h, lo, hi)
    ensures Lookup(t, key) == Find(Items(t), key)
    decreases t
  {
    if t.Inner? {
      var kids, i := t.kids, Upper(t.kids, key);
      if i == |kids| {
        ChainBounds(c, kids, h - 1, lo, hi);
        FlatOrdered(c, kids, h - 1, lo, hi);
        FindIndex(Flat(kids), key);
      } else {
        ChainAt(c, kids, i, h - 1, lo, hi);
        LookupIs(c, kids[i].val, h - 1, LoOf(kids, i, lo), kids[i].key, key);
        KidInfix(c, kids, i, h - 1, lo, hi, key);
        FindInfix(Flat(kids[..i]), Items(kids[i].val), Flat(kids[i + 1..]), key);
      }
    }
  }

  // ---------------------------------------------------------------- deletion

  /** `key` is not the greatest key of the leaf that a search for it ends at. */
  predicate KeepsMax(t: Tree, key: int)
    decreases t
  {
    match t
    case Leaf(_, kvs) => |kvs| > 0 && Last(kvs).key != key
    case Inner(_, kids) =>
      var i := Upper(kids, key);
      i == |kids| || KeepsMax(kids[i].val, key)
  }

  lemma {:induction false} RemoveShape<T>(s: seq<Entry<T>>, key: int, lo: int, hi: int)
    requires Sorted(s) && AllFrom(s, lo) && AllBelow(s, hi)
    ensures var r := Remove(s, key);
            && Sorted(r) && |r| <= |s| && AllFrom(r, lo) && AllBelow(r, hi)
            && (|s| > 0 && Last(s).key != key ==> |r| > 0 && Last(r) == Last(s))
  {
    var p := IndexOf(s, key);
    if p < |s| {
      DropOne(s, p, lo, hi);
    }
  }

  lemma {:induction false} DropOne<T>(s: seq<Entry<T>>, p: nat, lo: int, hi: int)
    requires Sorted(s) && AllFrom(s, lo) && AllBelow(s, hi) && p < |s|
    ensures var r := s[..p] + s[p + 1..];
            && Sorted(r) && |r| == |s| - 1 && AllFrom(r, lo) && AllBelow(r, hi)
            && (p < |s| - 1 ==> Last(r) == Last(s))
  {
    var r := s[..p] + s[p + 1..];
    assert forall i :: 0 <= i < |r| ==> r[i] == if i < p then s[i] else s[i + 1];
  }

  /** Deletion removes the key from the listing and keeps the tree in order. */
  lemma {:induction false} DeleteIs(c: Config, t: Tree, h: nat, lo: int, hi: int, key: int)
    requires c.min == 0 && Ordered(c, t, h, lo, hi) && (c.tight ==> t.Leaf? || KeepsMax(t, key))
    ensures Ordered(c, Delete(t, key), h, lo, hi)
    ensures Items(Delete(t, key)) == Remove(Items(t), key)
    ensures Size(Delete(t, key)) <= Size(t) && (t.Inner? ==> Size(Delete(t, key)) == Size(t))
    ensures KidOk(c, hi, t) && (c.tight ==> KeepsMax(t, key)) ==> KidOk(c, hi, Delete(t, key))
    decreases t
  {
    match t {
      case Leaf(_, kvs) => RemoveShape(kvs, key, lo, hi);
      case Inner(id, kids) =>
        var i := Upper(kids, key);
        if i == |kids| {
          ChainBounds(c, kids, h - 1, lo, hi);
          FlatOrdered(c, kids, h - 1, lo, hi);
          RemoveAbsent(Flat(kids), key);
        } else {
          ChainAt(c, kids, i, h - 1, lo, hi);
          DeleteIs(c, kids[i].val, h - 1, LoOf(kids, i, lo), kids[i].key, key);
          DeleteKid(c, kids, i, h - 1, lo, hi, key, Delete(kids[i].val, key));
        }
    }
  }

  lemma {:induction false} RemoveAbsent<T>(s: seq<Entry<T>>, key: int)
    requires AllBelow(s, key)
    ensures Remove(s, key) == s
  {
  }

  lemma {:induction false} DeleteKid(c: Config, kids: seq<Entry<Tree>>, i: nat, h: nat, lo: int, hi: int, key: int, u: Tree)
    requires Chain(c, kids, h, lo, hi) && i == Upper(kids, key) < |kids|
    requires Ordered(c, u, h, LoOf(kids, i, lo), kids[i].key) && KidOk(c, kids[i].key, u)
    requires Items(u) == Remove(Items(kids[i].val), key)
    ensures var ks := kids[i := Entry(kids[i].key, u)];
            Chain(c, ks, h, lo, hi) && Flat(ks) == Remove(Flat(kids), key)
  {
    var e, mid := Entry(kids[i].key, u), LoOf(kids, i, lo);
    var a, b := kids[..i], kids[i + 1..];
    assert kids[i := e] == a + [e] + b;
    ChainAt(c, kids, i, h, lo, hi);
    assert Chain(c, [e], h, mid, e.key) by {
      assert [e][1..] == [];
    }
    ChainThree(c, a, [e], b, h, lo, mid, e.key, hi);
    FlatThree(a, [e], b);
    FlatOne([e]);
    KidInfix(c, kids, i, h, lo, hi, key);
    RemoveInfix(Flat(a), Items(kids[i].val), Flat(b), key);
  }

  // ---------------------------------------------------------------- leaves, left to right

  function Leaves(t: Tree): seq<Tree>
    decreases t
  {
    match t
    case Leaf(_, _) => [t]
    case Inner(_, kids) => LeavesOf(kids)
  }

  function LeavesOf(kids: seq<Entry<Tree>>): seq<Tree>
    decreases kids
  {
    if |kids| == 0 then []
    else
      assert kids[0].val < kids[0];
      Leaves(kids[0].val) + LeavesOf(kids[1..])
  }

  /** The leaves from the one a search for `key` ends at; none when the search leaves the tree. */
  function LeavesFrom(t: Tree, key: int): seq<Tree>
    decreases t
  {
    match t
    case Leaf(_, _) => [t]
    case Inner(_, kids) =>
      var i := Upper(kids, key);
      if i == |kids| then [] else LeavesFrom(kids[i].val, key) + LeavesOf(kids[i + 1..])
  }

  function AllOf(ls: seq<Tree>): seq<Entry<Value>> {
    if |ls| == 0 then [] else Items(ls[0]) + AllOf(ls[1..])
  }

  lemma {:induction false} AllOfConcat(a: seq<Tree>, b: seq<Tree>)
    ensures AllOf(a + b) == AllOf(a) + AllOf(b)
  {
    if |a| == 0 {
      assert a + b == b;
    } else {
      AllOfConcat(a[1..], b);
      assert (a + b)[1..] == a[1..] + b;
      assert AllOf(a + b) == Items(a[0]) + (AllOf(a[1..]) + AllOf(b));
    }
  }

  lemma {:induction false} LeavesItems(t: Tree)
    ensures AllOf(Leaves(t)) == Items(t)
    ensures forall i :: 0 <= i < |Leaves(t)| ==> Leaves(t)[i].Leaf?
    decreases t
  {
    match t {
      case Leaf(_, _) => assert Leaves(t)[1..] == [];
      case Inner(_, kids) => LeavesFlat(kids);
    }
  }

  lemma {:induction false} LeavesFlat(kids: seq<Entry<Tree>>)
    ensures AllOf(LeavesOf(kids)) == Flat(kids)
    ensures forall i :: 0 <= i < |LeavesOf(kids)| ==> LeavesOf(kids)[i].Leaf?
    decreases kids
  {
    if |kids| > 0 {
      assert kids[0].val < kids[0];
      LeavesItems(kids[0].val);
      LeavesFlat(kids[1..]);
      AllOfConcat(Leaves(kids[0].val), LeavesOf(kids[1..]));
    }
  }

  // ---------------------------------------------------------------- range queries

  /** What a range query takes from one leaf: skip keys below `from`, then take keys up to `to`. */
  function Window<T>(s: seq<Entry<T>>, from: int, to: int): seq<Entry<T>> {
    var r := s[Position(s, from)..];
    r[..Upper(r, to)]
  }

  /** Walk the leaves, stopping for good at the first one that contributes nothing. */
  function RangeOver(ls: seq<Tree>, from: int, to: int): seq<Entry<Value>> {
    if |ls| == 0 then []
    else
      var w := Window(Items(ls[0]), from, to);
      if w == [] then [] else w + RangeOver(ls[1..], from, to)
  }

  lemma {:induction false} WindowIs<T>(s: seq<Entry<T>>, from: int, to: int)
    requires Sorted(s)
    ensures Window(s, from, to) == Between(s, from, to)
  {
    var p := Position(s, from);
    if p == 0 {
      TakeIs(s, from, to);
      assert s[0..] == s;
    } else {
      PositionIs(s[1..], from, p - 1);
      assert s[1..][p - 1..] == s[p..];
      WindowIs(s[1..], from, to);
    }
  }

  lemma {:induction false} TakeIs<T>(r: seq<Entry<T>>, from: int, to: int)
    requires Sorted(r) && AllFrom(r, from)
    ensures r[..Upper(r, to)] == Between(r, from, to)
  {
    var q := Upper(r, to);
    if q == 0 {
      BetweenNone(r, from, to);
    } else {
      UpperIs(r[1..], to, q - 1);
      TakeIs(r[1..], from, to);
      assert r[..q] == [r[0]] + r[1..][..q - 1];
    }
  }

  /** No leaf that contributes stands behind one that does not. */
  ghost predicate NoGap(ls: seq<Tree>, from: int, to: int) {
    forall i, j :: 0 <= i < j < |ls| && Between(Items(ls[j]), from, to) != [] ==> Between(Items(ls[i]), from, to) != []
  }

  lemma {:induction false} SilentRest(ls: seq<Tree>, from: int, to: int)
    ensures Between(AllOf(ls), from, to) == [] <==> forall i :: 0 <= i < |ls| ==> Between(Items(ls[i]), from, to) == []
  {
    if |ls| > 0 {
      SilentRest(ls[1..], from, to);
      BetweenConcat(Items(ls[0]), AllOf(ls[1..]), from, to);
      assert forall i :: 1 <= i < |ls| ==> ls[i] == ls[1..][i - 1];
    }
  }

  ghost predicate SortedLeaves(ls: seq<Tree>) {
    forall i :: 0 <= i < |ls| ==> Sorted(Items(ls[i]))
  }

  /**
   * Walking a leaf list yields the answer exactly when there is no gap: the walk returns a prefix of the slots in range,
   * cut short by the first silent leaf.
   */
  lemma {:induction false} RangeExact(ls: seq<Tree>, from: int, to: int)
    requires SortedLeaves(ls)
    ensures RangeOver(ls, from, to) <= Between(AllOf(ls), from, to)
    ensures RangeOver(ls, from, to) == Between(AllOf(ls), from, to) <==> NoGap(ls, from, to)
  {
    if |ls| > 0 {
      var x, rest := Items(ls[0]), ls[1..];
      WindowIs(x, from, to);
      BetweenConcat(x, AllOf(rest), from, to);
      if Between(x, from, to) == [] {
        SilentRest(rest, from, to);
        NoGapSilent(ls, from, to);
      } else {
        assert SortedLeaves(rest);
        RangeExact(rest, from, to);
        NoGapRest(ls, from, to);
      }
    }
  }

  lemma {:induction false} NoGapSilent(ls: seq<Tree>, from: int, to: int)
    requires |ls| > 0 && Between(Items(ls[0]), from, to) == []
    ensures NoGap(ls, from, to) <==> forall i :: 0 <= i < |ls[1..]| ==> Between(Items(ls[1..][i]), from, to) == []
  {
    var rest := ls[1..];
    assert forall i :: 1 <= i < |ls| ==> ls[i] == rest[i - 1];
    if NoGap(ls, from, to) {
      forall i | 0 <= i < |rest| ensures Between(Items(rest[i]), from, to) == [] {
        assert rest[i] == ls[i + 1];
      }
    }
  }

  lemma {:induction false} NoGapRest(ls: seq<Tree>, from: int, to: int)
    requires |ls| > 0 && Between(Items(ls[0]), from, to) != []
    ensures NoGap(ls, from, to) <==> NoGap(ls[1..], from, to)
  {
    var rest := ls[1..];
    assert forall i :: 1 <= i < |ls| ==> ls[i] == rest[i - 1];
    if NoGap(rest, from, to) {
      forall i, j | 0 <= i < j < |ls| && Between(Items(ls[j]), from, to) != [] ensures Between(Items(ls[i]), from, to) != [] {
        if i > 0 {
          assert Between(Items(rest[j - 1]), from, to) != [];
          assert Between(Items(rest[i - 1]), from, to) != [];
        }
      }
    }
    if NoGap(ls, from, to) {
      forall i, j | 0 <= i < j < |rest| && Between(Items(rest[j]), from, to) != [] ensures Between(Items(rest[i]), from, to) != [] {
        assert Between(Items(ls[j + 1]), from, to) != [];
        assert Between(Items(ls[i + 1]), from, to) != [];
      }
    }
  }
}
