/** How full and how high trees are. */
module BTreeFill {
  import opened Entries
  import opened BTreeShape
  import opened BTreeInsert
  import opened BTreeSafety

  function Pow(b: nat, n: nat): nat {
    if n == 0 then 1 else b * Pow(b, n - 1)
  }

  lemma {:induction false} KidsCount(c: Config, kids: seq<Entry<Tree>>, h: nat, lo: int, hi: int)
    requires Chain(c, kids, h, lo, hi)
    ensures |kids| * Pow(c.min, h + 1) <= |Flat(kids)| <= |kids| * Pow(c.cap, h + 1)
    decreases kids
  {
    if |kids| > 0 {
      assert kids[0].val < kids[0];
      KidCount(c, kids[0].val, h, lo, kids[0].key);
      KidsCount(c, kids[1..], h, kids[0].key, hi);
      Add(|kids|, Pow(c.min, h + 1));
      Add(|kids|, Pow(c.cap, h + 1));
    }
  }

  lemma {:induction false} Add(n: nat, x: nat)
    requires n > 0
    ensures n * x == x + (n - 1) * x
  {
  }

  lemma {:induction false} KidCount(c: Config, t: Tree, h: nat, lo: int, hi: int)
    requires Ordered(c, t, h, lo, hi) && c.min <= Size(t) <= c.cap
    ensures Pow(c.min, h + 1) <= |Items(t)| <= Pow(c.cap, h + 1)
    decreases t
  {
    match t {
      case Leaf(_, kvs) =>
        assert Pow(c.min, 1) == c.min * Pow(c.min, 0) && Pow(c.cap, 1) == c.cap * Pow(c.cap, 0);
      case Inner(_, kids) =>
        KidsCount(c, kids, h - 1, lo, hi);
        Mul(c.min, |kids|, Pow(c.min, h));
        Mul(|kids|, c.cap, Pow(c.cap, h));
    }
  }

  lemma {:induction false} Mul(a: nat, b: nat, x: nat)
    requires a <= b
    ensures a * x <= b * x
  {
  }

  /** A tree with `h >= 1` internal levels holds at least `2 * min^h` and at most `cap^(h + 1)` keys. */
  lemma {:induction false} HeightBound(c: Config, t: Tree)
    requires SearchTree(c, t) && t.Inner?
    ensures 2 * Pow(c.min, Height(t)) <= |Items(t)| <= Pow(c.cap, Height(t) + 1)
  {
    var h := Height(t);
    KidsCount(c, t.kids, h - 1, KEY_MIN, Hi(t));
    Mul(2, |t.kids|, Pow(c.min, h));
    Mul(|t.kids|, c.cap, Pow(c.cap, h));
  }
}
