/** Histories of operations: a B+ tree answers like a map. */
module BTreeRuns {
  import opened Options
  import opened Entries
  import opened BTreeShape
  import opened BTreeInsert
  import opened BTreeSafety
  import opened BTreeNode
  import opened BTreeOps
  import opened BTreeRange
  import opened BTreeStep
  import opened BTreeChains
  import opened BTree

  // ---------------------------------------------------------------- which keys are safe when separators are exact

  lemma {:induction false} ExactSafeBelow(c: Config, t: Tree, h: nat, lo: int, hi: int, key: int)
    requires c.tight && c.cap >= 2 && Ordered(c, t, h, lo, hi) && lo <= key && (t.Leaf? ==> Size(t) > 0 ==> Sep(t) == hi)
    ensures Safe(c.cap, t, hi, key) <==> !HitsHalfEnd(c.cap, t, key)
    decreases t
  {
    if t.Inner? {
      var i := Route(t.kids, key);
      RouteSplit(c, t.kids, h - 1, lo, hi, key);
      ExactSafeBelow(c, t.kids[i].val, h - 1, LoOf(t.kids, i, lo), t.kids[i].key, key);
    }
  }

  lemma {:induction false} HalfEndListed(c: Config, t: Tree, h: nat, lo: int, hi: int, key: int)
    requires c.cap >= 2 && Ordered(c, t, h, lo, hi) && lo <= key && HitsHalfEnd(c.cap, t, key)
    ensures exists e :: e in Items(t) && e.key == key
    decreases t
  {
    match t {
      case Leaf(_, kvs) => assert kvs[|kvs| / 2 - 1] in kvs;
      case Inner(_, kids) =>
        var i := Route(kids, key);
        RouteSplit(c, kids, h - 1, lo, hi, key);
        HalfEndListed(c, kids[i].val, h - 1, LoOf(kids, i, lo), kids[i].key, key);
        FlatThree(kids[..i], [kids[i]], kids[i + 1..]);
        FlatOne([kids[i]]);
    }
  }

  /**
   * With exact separators an insertion works for every key except one kind of present key: the last of the left half of
   * a full leaf. In particular it works for every absent key.
   */
  lemma {:induction false} ExactSafe(c: Config, t: Tree, key: int)
    requires c.tight && SearchTree(c, t) && KEY_MIN <= key
    ensures SafeInsert(c.cap, t, key) <==> !HitsHalfEnd(c.cap, t, key)
    ensures Find(Items(t), key).None? ==> SafeInsert(c.cap, t, key)
  {
    ExactSafeBelow(c, t, Height(t), KEY_MIN, Hi(t), key);
    if HitsHalfEnd(c.cap, t, key) {
      HalfEndListed(c, t, Height(t), KEY_MIN, Hi(t), key);
      FindIndex(Items(t), key);
    }
  }

  // ---------------------------------------------------------------- maps in key order

  ghost predicate IsGreatest(ks: set<int>, k: int) {
    k in ks && forall x :: x in ks ==> x <= k
  }

  lemma {:induction false} GreatestExists(ks: set<int>, w: int)
    requires w in ks
    ensures exists k :: IsGreatest(ks, k)
    decreases |ks|
  {
    var rest := ks - {w};
    if v :| v in rest {
      GreatestExists(rest, v);
      var m :| IsGreatest(rest, m);
      var g := if m < w then w else m;
      assert forall x :: x in ks ==> x in rest || x == w;
      assert IsGreatest(ks, g);
    } else {
      assert forall x :: x in ks && x != w ==> x in rest;
      assert IsGreatest(ks, w);
    }
  }

  ghost function Greatest(ks: set<int>): (k: int)
    requires exists w :: w in ks
    ensures IsGreatest(ks, k)
  {
    var w :| w in ks;
    GreatestExists(ks, w);
    var k :| IsGreatest(ks, k);
    k
  }

  /** The slots of a map in increasing key order. */
  ghost function ListOf(m: map<int, Value>): (s: seq<Entry<Value>>)
    ensures Sorted(s)
    ensures forall e :: e in s <==> e.key in m && m[e.key] == e.val
    decreases |m|
  {
    if !exists w :: w in m.Keys then []
    else
      var k := Greatest(m.Keys);
      var rest := m - {k};
      assert |rest| < |m| by {
        CountLess(rest, m, k);
      }
      var s := ListOf(rest);
      assert AllBelow(s, k) by {
        forall i | 0 <= i < |s| ensures s[i].key < k {
          assert s[i] in s;
        }
      }
      s + [Entry(k, m[k])]
  }

  lemma {:induction false} CountLess(a: map<int, Value>, b: map<int, Value>, k: int)
    requires a == b - {k} && k in b
    ensures |a| < |b|
  {
    assert b.Keys == a.Keys + {k} && |a.Keys| == |a| && |b.Keys| == |b|;
  }

  /** A sorted list is determined by the slots it holds. */
  lemma {:induction false} SortedUnique(s: seq<Entry<Value>>, u: seq<Entry<Value>>)
    requires Sorted(s) && Sorted(u) && forall e :: e in s <==> e in u
    ensures s == u
    decreases |s|
  {
    BothEmpty(s, u);
    BothEmpty(u, s);
    if |s| > 0 {
      LastsMeet(s, u);
      var s', u' := s[..|s| - 1], u[..|u| - 1];
      assert s == s' + [Last(s)] && u == u' + [Last(u)];
      forall e ensures e in s' <==> e in u' {
        if e in s' {
          assert e in s && e.key < Last(s).key;
        }
        if e in u' {
          assert e in u && e.key < Last(u).key;
        }
      }
      SortedUnique(s', u');
    }
  }

  lemma {:induction false} BothEmpty(s: seq<Entry<Value>>, u: seq<Entry<Value>>)
    requires forall e :: e in s ==> e in u
    ensures |s| > 0 ==> |u| > 0
  {
    if |s| > 0 {
      assert s[0] in s;
    }
  }

  lemma {:induction false} LastsMeet(s: seq<Entry<Value>>, u: seq<Entry<Value>>)
    requires Sorted(s) && Sorted(u) && |s| > 0 && |u| > 0 && forall e :: e in s <==> e in u
    ensures Last(s) == Last(u)
  {
    assert Last(s) in s && Last(u) in u;
    var i :| 0 <= i < |u| && u[i] == Last(s);
    var j :| 0 <= j < |s| && s[j] == Last(u);
  }

  lemma {:induction false} ListOfMap(s: seq<Entry<Value>>)
    requires Sorted(s)
    ensures ListOf(ToMap(s)) == s
  {
    ToMapIs(s);
    SortedUnique(ListOf(ToMap(s)), s);
  }

  ghost function Within(m: map<int, Value>, from: int, to: int): map<int, Value> {
    map k | k in m && from <= k <= to :: m[k]
  }

  lemma {:induction false} BetweenHolds(s: seq<Entry<Value>>, from: int, to: int)
    ensures forall e :: e in Between(s, from, to) <==> e in s && from <= e.key <= to
    ensures Sorted(s) ==> Sorted(Between(s, from, to))
  {
    if |s| > 0 {
      BetweenHolds(s[1..], from, to);
      assert s == [s[0]] + s[1..];
      var r := Between(s[1..], from, to);
      if Sorted(s) {
        forall i | 0 <= i < |r| ensures s[0].key < r[i].key {
          assert r[i] in s[1..];
        }
      }
    }
  }

  lemma {:induction false} ListWithin(s: seq<Entry<Value>>, from: int, to: int)
    requires Sorted(s)
    ensures Between(s, from, to) == ListOf(Within(ToMap(s), from, to))
  {
    BetweenHolds(s, from, to);
    ToMapIs(s);
    SortedUnique(Between(s, from, to), ListOf(Within(ToMap(s), from, to)));
  }

  // ---------------------------------------------------------------- histories

  datatype Op = InsertOp(key: int, value: Value) | DeleteOp(key: int) | GetOp(key: int) | ScanOp | RangeOp(from: int, to: int)

  datatype Answer = Inserted | Deleted(found: bool) | Got(slot: Option<Slot>) | Listed(slots: seq<Entry<Value>>)

  /** What an operation makes of a map. */
  function After(m: map<int, Value>, op: Op): map<int, Value> {
    match op
    case InsertOp(k, v) => m[k := v]
    case DeleteOp(k) => m - {k}
    case _ => m
  }

  /** What a map answers. */
  ghost function AnswerOf(m: map<int, Value>, op: Op): Answer {
    match op
    case InsertOp(_, _) => Inserted
    case DeleteOp(k) => Deleted(k in m)
    case GetOp(k) => Got(if k in m then Some(Entry(k, Val(m[k]))) else None)
    case ScanOp => Listed(ListOf(m))
    case RangeOp(from, to) => Listed(ListOf(Within(m, from, to)))
  }

  ghost function Answers(m: map<int, Value>, ops: seq<Op>): seq<Answer>
    decreases |ops|
  {
    if |ops| == 0 then [] else [AnswerOf(m, ops[0])] + Answers(After(m, ops[0]), ops[1..])
  }

  function MapAfter(m: map<int, Value>, ops: seq<Op>): map<int, Value>
    decreases |ops|
  {
    if |ops| == 0 then m else MapAfter(After(m, ops[0]), ops[1..])
  }

  /** What is stored: no root yet or a tree, and the next free page id. */
  datatype Shape = Shape(tree: Option<Tree>, nid: PageId)

  /** What an operation makes of it. */
  function Step(s: Shape, op: Op): Shape {
    match op
    case InsertOp(k, v) =>
      (match s.tree
       case None => Shape(Some(Leaf(s.nid, [Entry(k, v)])), s.nid + 1)
       case Some(t) => var (u, n) := BTreeShape.Insert(CAP, t, k, v, s.nid); Shape(Some(u), n))
    case DeleteOp(k) => if s.tree.None? then s else Shape(Some(Delete(s.tree.value, k)), s.nid)
    case _ => s
  }

  function Reached(s: Shape, ops: seq<Op>): Shape
    decreases |ops|
  {
    if |ops| == 0 then s else Reached(Step(s, ops[0]), ops[1..])
  }

  function Listing(s: Shape): seq<Entry<Value>> {
    if s.tree.None? then [] else Items(s.tree.value)
  }

  ghost predicate Satisfies(c: Config, s: Shape) {
    s.tree.Some? ==> SearchTree(c, s.tree.value)
  }

  /**
   * What an operation asks for: a safe key for an insertion or an overwrite; for a range query a root, and no leaf without
   * a key in the range before one with such a key. All other operations are always fine.
   */
  ghost predicate Fine(s: Shape, op: Op) {
    match op
    case InsertOp(k, _) => KEY_MIN <= k < KEY_MAX && (s.tree.Some? ==> SafeInsert(CAP, s.tree.value, k))
    case RangeOp(from, to) => s.tree.Some? && NoGap(LeavesFrom(s.tree.value, from), from, to)
    case _ => true
  }

  ghost predicate AllFine(s: Shape, ops: seq<Op>)
    decreases |ops|
  {
    |ops| > 0 ==> Fine(s, ops[0]) && AllFine(Step(s, ops[0]), ops[1..])
  }

  lemma {:induction false} ListingSorted(s: Shape)
    requires Satisfies(WEAK, s)
    ensures Sorted(Listing(s))
  {
    if s.tree.Some? {
      ItemsOrdered(WEAK, s.tree.value, Height(s.tree.value), KEY_MIN, Hi(s.tree.value));
    }
  }

  /** A root leaf with one slot is as tight as a tree can be. */
  lemma {:induction false} FirstTree(id: PageId, key: int, value: Value)
    requires KEY_MIN <= key < KEY_MAX
    ensures var t := Leaf(id, [Entry(key, value)]); SearchTree(TIGHT, t) && SearchTree(EXACT, t) && SearchTree(WEAK, t)
  {
  }

  /** An insertion that is fine updates the map that is stored, and keeps exact separators and half-full nodes. */
  lemma {:induction false} InsertStep(s: Shape, k: int, v: Value)
    requires Satisfies(WEAK, s) && Fine(s, InsertOp(k, v))
    ensures var s' := Step(s, InsertOp(k, v));
            && Satisfies(WEAK, s') && ToMap(Listing(s')) == ToMap(Listing(s))[k := v]
            && (Satisfies(EXACT, s) ==> Satisfies(EXACT, s')) && (Satisfies(TIGHT, s) ==> Satisfies(TIGHT, s'))
  {
    ListingSorted(s);
    match s.tree {
      case None =>
        FirstTree(s.nid, k, v);
        OneSlot(Entry(k, v));
      case Some(t) =>
        InsertMeans(t, k, v, s.nid);
        ToMapReplace(Items(t), k, v);
    }
  }

  lemma {:induction false} OneSlot(e: Entry<Value>)
    ensures ToMap([e]) == map[][e.key := e.val]
  {
    assert [e][..0] == [];
  }

  lemma {:induction false} DeleteStep(s: Shape, k: int)
    requires Satisfies(WEAK, s)
    ensures var s' := Step(s, DeleteOp(k)); Satisfies(WEAK, s') && ToMap(Listing(s')) == ToMap(Listing(s)) - {k}
  {
    assert Step(s, DeleteOp(k)).tree == if s.tree.None? then None else Some(Delete(s.tree.value, k));
    assert ToMap<Value>([]) == map[];
    hide Items, Delete, Remove, ToMap, SearchTree, Sorted, Step;
    ListingSorted(s);
    if s.tree.Some? {
      DeleteMeans(s.tree.value, k);
      ToMapRemove(Items(s.tree.value), k);
    }
  }

  /** One operation that is fine: the invariant is kept and the map stored is the updated one. */
  lemma {:induction false} StepKept(s: Shape, op: Op)
    requires Satisfies(WEAK, s) && Fine(s, op)
    ensures Satisfies(WEAK, Step(s, op)) && ToMap(Listing(Step(s, op))) == After(ToMap(Listing(s)), op)
  {
    match op {
      case InsertOp(k, v) => InsertStep(s, k, v);
      case DeleteOp(k) => DeleteStep(s, k);
      case _ =>
    }
  }

  /**
   * What is not fine goes wrong: an insertion leaves pages that show no search tree, a range query misses slots. What the
   * leaf chain lists after an insertion is the upsert unless the key is the last of a full leaf's left half.
   */
  lemma {:induction false} FineExact(s: Shape, op: Op)
    requires Satisfies(WEAK, s) && s.tree.Some? && (op.InsertOp? ==> KEY_MIN <= op.key < KEY_MAX)
    ensures op.InsertOp? ==> (Fine(s, op) <==> Satisfies(WEAK, Step(s, op)))
    ensures op.InsertOp? ==> (!HitsHalfEnd(CAP, s.tree.value, op.key) <==> ListedAfter(s, op) == Replace(Listing(s), op.key, op.value))
    ensures op.InsertOp? ==> (!HitsHalfEnd(CAP, s.tree.value, op.key) <==> Sorted(ListedAfter(s, op)))
    ensures op.RangeOp? ==> (Fine(s, op) <==> RangeTree(s.tree.value, op.from, op.to) == Between(Listing(s), op.from, op.to))
  {
    match op {
      case InsertOp(k, v) => InsertExact(WEAK, s.tree.value, k, v, s.nid);
      case RangeOp(from, to) => RangeIsPrefix(WEAK, s.tree.value, from, to);
      case _ =>
    }
  }

  /** What the leaf chain lists after an insertion into a tree, fine or not. */
  function ListedAfter(s: Shape, op: Op): seq<Entry<Value>>
    requires s.tree.Some? && op.InsertOp?
  {
    Items(TidyInsert(CAP, s.tree.value, op.key, op.value, s.nid).0)
  }

  /** Histories of fine operations keep the invariant, and the map stored is what they make of a map. */
  lemma {:induction false} HistoryKept(s: Shape, ops: seq<Op>)
    requires Satisfies(WEAK, s) && AllFine(s, ops)
    ensures Satisfies(WEAK, Reached(s, ops)) && Sorted(Listing(Reached(s, ops)))
    ensures ToMap(Listing(Reached(s, ops))) == MapAfter(ToMap(Listing(s)), ops)
    decreases |ops|
  {
    hide Step, Listing, Fine, Satisfies;
    if |ops| == 0 {
      ListingSorted(s);
    } else {
      StepKept(s, ops[0]);
      HistoryKept(Step(s, ops[0]), ops[1..]);
    }
  }

  // ---------------------------------------------------------------- the class answers like a map

  ghost predicate Represents(t: BTree, s: Shape)
    reads t
  {
    && t.Valid() && t.nextPageId == s.nid
    && (t.root == -1 <==> s.tree.None?)
    && (s.tree.Some? ==> t.tree == s.tree.value)
  }

  lemma {:induction false} RepresentsFacts(t: BTree, s: Shape)
    requires Represents(t, s)
    ensures Satisfies(WEAK, s) && t.Readable() && t.Contents() == Listing(s) && Sorted(Listing(s))
  {
    t.ValidReadable();
    ListingSorted(s);
  }

  /**
   * Every answer a new tree gives over a history of fine operations, with overwrites and insertions after deletions, is
   * the answer of a map.
   */
  method Run(ops: seq<Op>) returns (answers: seq<Answer>)
    requires AllFine(Shape(None, 0), ops)
    ensures answers == Answers(map[], ops)
  {
    var t := new BTree(map[], 0);
    answers := RunFrom(t, ops, Shape(None, 0));
  }

  method RunFrom(t: BTree, ops: seq<Op>, ghost s: Shape) returns (answers: seq<Answer>)
    requires Represents(t, s) && AllFine(s, ops)
    modifies t
    ensures answers == Answers(ToMap(Listing(s)), ops)
    ensures Represents(t, Reached(s, ops))
    decreases |ops|
  {
    if |ops| == 0 {
      return [];
    }
    RepresentsFacts(t, s);
    StepKept(s, ops[0]);
    hide Represents, Fine, Step, Listing;
    var a := Do(t, ops[0], s);
    var rest := RunFrom(t, ops[1..], Step(s, ops[0]));
    answers := [a] + rest;
  }

  method DoGet(t: BTree, key: int) returns (a: Answer)
    requires t.Valid() && t.Readable() && Sorted(t.Contents())
    ensures a == AnswerOf(ToMap(t.Contents()), GetOp(key))
  {
    FindIs(t.Contents(), key);
    hide ShowsTree, Walkable, AllOf, Items, Leaves, Sorted, ToMap, Find;
    var r := t.Get(key);
    a := Got(r);
  }

  method Do(t: BTree, op: Op, ghost s: Shape) returns (a: Answer)
    requires Represents(t, s) && Fine(s, op)
    modifies t
    ensures a == AnswerOf(ToMap(Listing(s)), op)
    ensures Represents(t, Step(s, op))
  {
    RepresentsFacts(t, s);
    ghost var l := Listing(s);
    hide ShowsTree, Walkable, AllOf, Items, Leaves, Sorted, ToMap, Find, ListOf, Within;
    match op {
      case InsertOp(k, v) =>
        t.Insert(k, v);
        a := Inserted;
      case DeleteOp(k) =>
        FindIs(l, k);
        var found := t.Delete(k);
        a := Deleted(found);
      case GetOp(k) =>
        a := DoGet(t, k);
      case ScanOp =>
        ListOfMap(l);
        var r := t.Scan();
        a := Listed(r);
      case RangeOp(from, to) =>
        ListWithin(l, from, to);
        var r := t.Range(from, to);
        a := Listed(r);
    }
  }

  // ---------------------------------------------------------------- histories that are fine by themselves

  /**
   * Histories that insert absent keys below the greatest of the type, then delete at will; lookups and listings may come
   * at any time, range queries while nothing was deleted and something is stored.
   */
  ghost predicate BuiltThenDeleted(m: map<int, Value>, ops: seq<Op>, deleting: bool)
    decreases |ops|
  {
    |ops| > 0 ==>
      && (match ops[0]
          case InsertOp(k, _) => !deleting && KEY_MIN <= k < KEY_MAX && k !in m
          case RangeOp(_, _) => !deleting && exists k :: k in m
          case _ => true)
      && BuiltThenDeleted(After(m, ops[0]), ops[1..], deleting || ops[0].DeleteOp?)
  }

  /** With exact separators absent keys and all range queries are fine. */
  lemma {:induction false} ExactFine(s: Shape, op: Op)
    requires Satisfies(EXACT, s) && Satisfies(WEAK, s)
    requires op.InsertOp? ==> KEY_MIN <= op.key < KEY_MAX && op.key !in ToMap(Listing(s))
    requires op.RangeOp? ==> exists k :: k in ToMap(Listing(s))
    ensures Fine(s, op)
  {
    ListingSorted(s);
    match op {
      case InsertOp(k, _) =>
        FindIs(Listing(s), k);
        if s.tree.Some? {
          ExactSafe(EXACT, s.tree.value, k);
        }
      case RangeOp(from, to) =>
        RangeTight(EXACT, s.tree.value, from, to);
        RangeIsPrefix(EXACT, s.tree.value, from, to);
      case _ =>
    }
  }

  /** So what an index does, a bulk of insertions and then deletions and queries, is always fine. */
  lemma {:induction false} BuiltFine(s: Shape, ops: seq<Op>, deleting: bool)
    requires Satisfies(WEAK, s) && (!deleting ==> Satisfies(EXACT, s))
    requires BuiltThenDeleted(ToMap(Listing(s)), ops, deleting)
    ensures AllFine(s, ops)
    decreases |ops|
  {
    if |ops| > 0 {
      if !deleting {
        ExactFine(s, ops[0]);
      }
      StepKept(s, ops[0]);
      if ops[0].InsertOp? {
        InsertStep(s, ops[0].key, ops[0].value);
      }
      BuiltFine(Step(s, ops[0]), ops[1..], deleting || ops[0].DeleteOp?);
    }
  }

  /** Insertions of absent keys and deletions of keys that are not the greatest of their leaf, in any mix, with all queries. */
  ghost predicate KeepsSeparators(s: Shape, ops: seq<Op>)
    decreases |ops|
  {
    |ops| > 0 ==>
      && (match ops[0]
          case InsertOp(k, _) => KEY_MIN <= k < KEY_MAX && Find(Listing(s), k).None?
          case DeleteOp(k) => s.tree.Some? && s.tree.value.Inner? ==> KeepsMax(s.tree.value, k)
          case RangeOp(_, _) => Listing(s) != []
          case _ => true)
      && KeepsSeparators(Step(s, ops[0]), ops[1..])
  }

  /** Such histories are always fine. */
  lemma {:induction false} MixedFine(s: Shape, ops: seq<Op>)
    requires Satisfies(WEAK, s) && Satisfies(EXACT, s) && KeepsSeparators(s, ops)
    ensures AllFine(s, ops) && Satisfies(EXACT, Reached(s, ops))
    decreases |ops|
  {
    if |ops| > 0 {
      MixedStep(s, ops[0]);
      StepKept(s, ops[0]);
      hide Fine, Step, Listing, Satisfies;
      MixedFine(Step(s, ops[0]), ops[1..]);
    }
  }

  lemma {:induction false} MixedStep(s: Shape, op: Op)
    requires Satisfies(WEAK, s) && Satisfies(EXACT, s)
    requires op.InsertOp? ==> KEY_MIN <= op.key < KEY_MAX && Find(Listing(s), op.key).None?
    requires op.DeleteOp? && s.tree.Some? && s.tree.value.Inner? ==> KeepsMax(s.tree.value, op.key)
    requires op.RangeOp? ==> Listing(s) != []
    ensures Fine(s, op) && Satisfies(EXACT, Step(s, op))
  {
    ListingSorted(s);
    match op {
      case InsertOp(k, v) =>
        FindIs(Listing(s), k);
        ExactFine(s, op);
        InsertStep(s, k, v);
      case DeleteOp(k) =>
        if s.tree.Some? {
          DeleteMeans(s.tree.value, k);
        }
      case RangeOp(_, _) =>
        ToMapIs(Listing(s));
        assert Listing(s)[0].key in ToMap(Listing(s));
        ExactFine(s, op);
      case _ =>
    }
  }

  /** An insert-only history of absent keys. */
  ghost predicate AbsentInserts(m: map<int, Value>, ops: seq<Op>)
    decreases |ops|
  {
    |ops| > 0 ==>
      ops[0].InsertOp? && KEY_MIN <= ops[0].key < KEY_MAX && ops[0].key !in m && AbsentInserts(After(m, ops[0]), ops[1..])
  }

  /** Such a history is always fine and leaves a tree with exact separators and half-full nodes. */
  lemma {:induction false} InsertOnlyTight(s: Shape, ops: seq<Op>)
    requires Satisfies(TIGHT, s) && Satisfies(EXACT, s) && Satisfies(WEAK, s) && AbsentInserts(ToMap(Listing(s)), ops)
    ensures AllFine(s, ops) && Satisfies(TIGHT, Reached(s, ops)) && Satisfies(EXACT, Reached(s, ops))
    decreases |ops|
  {
    if |ops| > 0 {
      ExactFine(s, ops[0]);
      InsertStep(s, ops[0].key, ops[0].value);
      hide Fine, Step, Listing, Satisfies;
      InsertOnlyTight(Step(s, ops[0]), ops[1..]);
    }
  }
}
