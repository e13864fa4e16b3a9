/** Range queries on whole trees: always a prefix of the answer, and all of it when leaf separators are exact. */
module BTreeRange {
  import opened Entries
  import opened BTreeShape
  import opened BTreeInsert
  import opened BTreeSafety
  import opened BTreeOps

  /** What a range query on `t` returns. */
  function RangeTree(t: Tree, from: int, to: int): seq<Entry<Value>> {
    RangeOver(LeavesFrom(t, from), from, to)
  }

  /** Starting at the leaf a search for `from` ends at loses nothing. */
  lemma {:induction false} LeavesFromIs(c: Config, t: Tree, h: nat, lo: int, hi: int, from: int, to: int)
    requires Ordered(c, t, h, lo, hi)
    ensures Between(AllOf(LeavesFrom(t, from)), from, to) == Between(Items(t), from, to)
    ensures Sorted(AllOf(LeavesFrom(t, from))) && AllFrom(AllOf(LeavesFrom(t, from)), lo) && AllBelow(AllOf(LeavesFrom(t, from)), hi)
    decreases t
  {
    match t {
      case Leaf(_, kvs) => assert AllOf([t]) == kvs + AllOf([t][1..]) == kvs;
      case Inner(_, kids) =>
        var i := Upper(kids, from);
        if i == |kids| {
          ChainBounds(c, kids, h - 1, lo, hi);
          FlatOrdered(c, kids, h - 1, lo, hi);
          BetweenNone(Flat(kids), from, to);
        } else {
          ChainAt(c, kids, i, h - 1, lo, hi);
          LeavesFromIs(c, kids[i].val, h - 1, LoOf(kids, i, lo), kids[i].key, from, to);
          LeavesFromKid(c, kids, i, h - 1, lo, hi, from, to);
        }
    }
  }

  lemma {:induction false} LeavesFromKid(c: Config, kids: seq<Entry<Tree>>, i: nat, h: nat, lo: int, hi: int, from: int, to: int)
    requires Chain(c, kids, h, lo, hi) && i == Upper(kids, from) < |kids|
    requires var x := AllOf(LeavesFrom(kids[i].val, from));
             && Between(x, from, to) == Between(Items(kids[i].val), from, to)
             && Sorted(x) && AllFrom(x, LoOf(kids, i, lo)) && AllBelow(x, kids[i].key)
    ensures var y := AllOf(LeavesFrom(kids[i].val, from) + LeavesOf(kids[i + 1..]));
            && Between(y, from, to) == Between(Flat(kids), from, to)
            && Sorted(y) && AllFrom(y, lo) && AllBelow(y, hi)
  {
    var x, a, e, b := AllOf(LeavesFrom(kids[i].val, from)), Flat(kids[..i]), Items(kids[i].val), Flat(kids[i + 1..]);
    AllOfConcat(LeavesFrom(kids[i].val, from), LeavesOf(kids[i + 1..]));
    LeavesFlat(kids[i + 1..]);
    ChainAt(c, kids, i, h, lo, hi);
    FlatOrdered(c, kids[i + 1..], h, kids[i].key, hi);
    Join(x, b, LoOf(kids, i, lo), kids[i].key, hi);
    KidInfix(c, kids, i, h, lo, hi, from);
    BetweenJoin(a, e, x, b, from, to);
  }

  lemma {:induction false} Join<T>(x: seq<Entry<T>>, b: seq<Entry<T>>, lo: int, mid: int, hi: int)
    requires Sorted(x) && AllFrom(x, lo) && AllBelow(x, mid)
    requires Sorted(b) && AllFrom(b, mid) && AllBelow(b, hi) && lo <= mid <= hi
    ensures Sorted(x + b) && AllFrom(x + b, lo) && AllBelow(x + b, hi)
  {
  }

  lemma {:induction false} BetweenJoin<T>(a: seq<Entry<T>>, e: seq<Entry<T>>, x: seq<Entry<T>>, b: seq<Entry<T>>,
                                          from: int, to: int)
    requires AllBelow(a, from) && Between(x, from, to) == Between(e, from, to)
    ensures Between(x + b, from, to) == Between(a + e + b, from, to)
  {
    BetweenConcat(x, b, from, to);
    BetweenConcat(e, b, from, to);
    BetweenSuffix(a, e + b, from, to);
    assert a + e + b == a + (e + b);
  }

  /** On any search tree a range query returns a prefix of the answer, and the answer iff no leaf stands silent in between. */
  lemma {:induction false} RangeIsPrefix(c: Config, t: Tree, from: int, to: int)
    requires SearchTree(c, t)
    ensures RangeTree(t, from, to) <= Between(Items(t), from, to)
    ensures RangeTree(t, from, to) == Between(Items(t), from, to) <==> NoGap(LeavesFrom(t, from), from, to)
  {
    var ls := LeavesFrom(t, from);
    LeavesFromIs(c, t, Height(t), KEY_MIN, Hi(t), from, to);
    SortedParts(ls);
    RangeExact(ls, from, to);
  }

  lemma {:induction false} SortedParts(ls: seq<Tree>)
    requires Sorted(AllOf(ls))
    ensures SortedLeaves(ls)
  {
    if |ls| > 0 {
      if !Sorted(Items(ls[0])) {
        UnsortedLeft(Items(ls[0]), AllOf(ls[1..]));
      }
      if !Sorted(AllOf(ls[1..])) {
        UnsortedRight(Items(ls[0]), AllOf(ls[1..]));
      }
      SortedParts(ls[1..]);
      assert forall i :: 1 <= i < |ls| ==> ls[i] == ls[1..][i - 1];
    }
  }

  // ---------------------------------------------------------------- exact separators leave no gap

  ghost predicate AllFilled(ls: seq<Tree>) {
    forall i :: 0 <= i < |ls| ==> |Items(ls[i])| > 0
  }

  lemma {:induction false} TightLeaves(c: Config, kids: seq<Entry<Tree>>, h: nat, lo: int, hi: int)
    requires c.tight && Chain(c, kids, h, lo, hi)
    ensures AllFilled(LeavesOf(kids))
    decreases kids
  {
    if |kids| > 0 {
      assert kids[0].val < kids[0];
      if kids[0].val.Inner? {
        TightLeaves(c, kids[0].val.kids, h - 1, lo, kids[0].key);
      }
      TightLeaves(c, kids[1..], h, kids[0].key, hi);
    }
  }

  /** With exact separators the leaf a search ends at holds a key that is not below the searched one. */
  lemma {:induction false} TightStart(c: Config, t: Tree, h: nat, lo: int, hi: int, from: int)
    requires c.tight && Ordered(c, t, h, lo, hi) && from < hi && (t.Leaf? ==> KidOk(c, hi, t))
    ensures var ls := LeavesFrom(t, from); |ls| > 0 && AllFilled(ls) && from <= Last(Items(ls[0])).key
    decreases t
  {
    if t.Inner? {
      var kids, i := t.kids, Upper(t.kids, from);
      ChainBounds(c, kids, h - 1, lo, hi);
      ChainAt(c, kids, i, h - 1, lo, hi);
      TightStart(c, kids[i].val, h - 1, LoOf(kids, i, lo), kids[i].key, from);
      TightLeaves(c, kids[i + 1..], h - 1, kids[i].key, hi);
    }
  }

  lemma {:induction false} BetweenSome<T>(s: seq<Entry<T>>, from: int, to: int)
    ensures Between(s, from, to) != [] <==> exists i :: 0 <= i < |s| && from <= s[i].key <= to
  {
    if |s| > 0 {
      BetweenSome(s[1..], from, to);
      assert forall i :: 1 <= i < |s| ==> s[i] == s[1..][i - 1];
      if i :| 0 <= i < |s[1..]| && from <= s[1..][i].key <= to {
        assert from <= s[i + 1].key <= to;
      }
    }
  }

  /** Keys of different leaves are in leaf order. */
  lemma {:induction false} LeafOrder(ls: seq<Tree>, i: nat, j: nat, p: nat, q: nat)
    requires Sorted(AllOf(ls)) && i < j < |ls| && p < |Items(ls[i])| && q < |Items(ls[j])|
    ensures Items(ls[i])[p].key < Items(ls[j])[q].key
    decreases i, j
  {
    var a, b := Items(ls[0]), AllOf(ls[1..]);
    if i > 0 {
      if !Sorted(b) {
        UnsortedRight(a, b);
      }
      LeafOrder(ls[1..], i - 1, j - 1, p, q);
    } else {
      var k := InAll(ls[1..], j - 1, q);
      assert (a + b)[p] == a[p] && (a + b)[|a| + k] == b[k];
    }
  }

  lemma {:induction false} InAll(ls: seq<Tree>, j: nat, q: nat) returns (k: nat)
    requires j < |ls| && q < |Items(ls[j])|
    ensures k < |AllOf(ls)| && AllOf(ls)[k] == Items(ls[j])[q]
    decreases j
  {
    if j == 0 {
      k := q;
    } else {
      k := InAll(ls[1..], j - 1, q);
      k := k + |Items(ls[0])|;
    }
  }

  lemma {:induction false} FilledNoGap(ls: seq<Tree>, from: int, to: int)
    requires Sorted(AllOf(ls)) && AllFilled(ls) && |ls| > 0 && from <= Last(Items(ls[0])).key
    ensures NoGap(ls, from, to)
  {
    forall i, j | 0 <= i < j < |ls| && Between(Items(ls[j]), from, to) != [] ensures Between(Items(ls[i]), from, to) != [] {
      FilledBetween(ls, i, j, from, to);
    }
  }

  lemma {:induction false} FilledBetween(ls: seq<Tree>, i: nat, j: nat, from: int, to: int)
    requires Sorted(AllOf(ls)) && AllFilled(ls) && i < j < |ls| && from <= Last(Items(ls[0])).key
    requires Between(Items(ls[j]), from, to) != []
    ensures Between(Items(ls[i]), from, to) != []
  {
    var x, y := Items(ls[i]), Items(ls[j]);
    BetweenSome(y, from, to);
    var q :| 0 <= q < |y| && from <= y[q].key <= to;
    LeafOrder(ls, i, j, |x| - 1, q);
    if i > 0 {
      LeafOrder(ls, 0, i, |Items(ls[0])| - 1, |x| - 1);
    }
    BetweenSome(x, from, to);
  }

  /** On a tree with exact separators a range query is the listing filtered to the range, early stop included. */
  lemma {:induction false} RangeTight(c: Config, t: Tree, from: int, to: int)
    requires SearchTree(c, t) && c.tight
    ensures RangeTree(t, from, to) == Between(Items(t), from, to)
  {
    RangeIsPrefix(c, t, from, to);
    if t.Inner? && from < Hi(t) {
      TightStart(c, t, Height(t), KEY_MIN, Hi(t), from);
      LeavesFromIs(c, t, Height(t), KEY_MIN, Hi(t), from, to);
      FilledNoGap(LeavesFrom(t, from), from, to);
    } else if t.Inner? {
      LeavesAbove(c, t, Height(t), KEY_MIN, Hi(t), from);
    }
  }

  lemma {:induction false} LeavesAbove(c: Config, t: Tree, h: nat, lo: int, hi: int, from: int)
    requires Ordered(c, t, h, lo, hi) && t.Inner? && hi <= from
    ensures LeavesFrom(t, from) == []
  {
    ChainBounds(c, t.kids, h - 1, lo, hi);
  }
}
