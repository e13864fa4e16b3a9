/** Where the B+ tree does not do what a map does: histories from an empty tree that end in an operation that goes wrong. */
module BTreeLimits {
  import opened Options
  import opened Entries
  import opened BTreeShape
  import opened BTreeInsert
  import opened BTreeSafety
  import opened BTreeNode
  import opened BTreePages
  import opened BTreeIds
  import opened BTreeTidy
  import opened BTreeQuick
  import opened BTreeStale
  import opened BTreeOps
  import opened BTreeRange
  import opened BTreeStep
  import opened BTreeRuns

  const EMPTY := Shape(None, 0)

  /** The keys `from`, `from + 1`, … in `n` slots. */
  function Slots(from: int, n: nat): (s: seq<Entry<Value>>)
    ensures |s| == n && Sorted(s) && forall i :: 0 <= i < n ==> s[i] == Entry(from + i, 0)
  {
    seq(n, i requires 0 <= i < n => Entry(from + i, 0))
  }

  /** Insertions of the keys `from`, `from + 1`, …, or downwards. */
  function Up(from: int, n: nat): seq<Op>
    decreases n
  {
    if n == 0 then [] else [InsertOp(from, 0)] + Up(from + 1, n - 1)
  }

  function Down(from: int, n: nat): seq<Op>
    decreases n
  {
    if n == 0 then [] else [InsertOp(from, 0)] + Down(from - 1, n - 1)
  }

  lemma {:induction false} First(s: Shape, ops: seq<Op>)
    requires |ops| > 0
    ensures Reached(s, ops) == Reached(Step(s, ops[0]), ops[1..])
    ensures AllFine(s, ops) <==> Fine(s, ops[0]) && AllFine(Step(s, ops[0]), ops[1..])
  {
  }

  lemma {:induction false} Joined(s: Shape, a: seq<Op>, b: seq<Op>)
    ensures Reached(s, a + b) == Reached(Reached(s, a), b)
    ensures AllFine(s, a + b) <==> AllFine(s, a) && AllFine(Reached(s, a), b)
    decreases |a|
  {
    hide Step, Fine, Up, Down;
    if |a| == 0 {
      assert a + b == b;
    } else {
      Joined(Step(s, a[0]), a[1..], b);
      assert (a + b)[1..] == a[1..] + b;
    }
  }

  // ---------------------------------------------------------------- a full root leaf

  function Root(from: int, n: nat): Shape {
    Shape(Some(Leaf(0, Slots(from, n))), 1)
  }

  lemma {:induction false} AppendStep(from: int, n: nat)
    requires n < CAP && KEY_MIN <= from && from + n < KEY_MAX
    ensures var op := InsertOp(from + n, 0); Fine(Root(from, n), op) && Step(Root(from, n), op) == Root(from, n + 1)
  {
    PositionIs(Slots(from, n), from + n, n);
    assert Replace(Slots(from, n), from + n, 0) == Slots(from, n + 1);
  }

  lemma {:induction false} Appended(from: int, n: nat, m: nat)
    requires n + m <= CAP && KEY_MIN <= from && from + CAP < KEY_MAX
    ensures AllFine(Root(from, n), Up(from + n, m)) && Reached(Root(from, n), Up(from + n, m)) == Root(from, n + m)
    decreases m
  {
    hide Fine, Step, Root;
    if m > 0 {
      AppendStep(from, n);
      var ops, next := Up(from + n, m), from + (n + 1);
      assert ops[0] == InsertOp(from + n, 0) && ops[1..] == Up(next, m - 1);
      hide Up;
      Appended(from, n + 1, m - 1);
      First(Root(from, n), ops);
    }
  }

  /** Inserting 0 to 255 fills the root leaf. */
  lemma {:induction false} FullRoot()
    ensures AllFine(EMPTY, Up(0, CAP)) && Reached(EMPTY, Up(0, CAP)) == Root(0, CAP)
  {
    var first := InsertOp(0, 0);
    assert Slots(0, 1) == [Entry(0, 0)];
    assert Fine(EMPTY, first) && Step(EMPTY, first) == Root(0, 1);
    hide Fine, Step;
    Appended(0, 1, CAP - 1);
    assert Up(0, CAP)[0] == first && Up(0, CAP)[1..] == Up(1, CAP - 1);
  }

  /** Overwriting the last key of the left half of a full leaf puts a second slot for it into the right half, where lookups
      do not find it. */
  lemma {:induction false} OverwriteDoubles(value: Value)
    ensures var s, op := Reached(EMPTY, Up(0, CAP)), InsertOp(CAP / 2 - 1, value);
            && AllFine(EMPTY, Up(0, CAP)) && Find(Listing(s), CAP / 2 - 1) == Some(0) && s.tree.Some?
            && !Fine(s, op) && !Sorted(ListedAfter(s, op))
            && Step(s, op).tree.Some? && Lookup(Step(s, op).tree.value, CAP / 2 - 1) == Some(0)
  {
    var s, op := Reached(EMPTY, Up(0, CAP)), InsertOp(CAP / 2 - 1, value);
    FullRoot();
    HistoryStarts();
    HistoryKept(EMPTY, Up(0, CAP));
    assert Slots(0, CAP)[CAP / 2 - 1] == Entry(CAP / 2 - 1, 0);
    FindIndex(Slots(0, CAP), CAP / 2 - 1);
    assert HitsHalfEnd(CAP, s.tree.value, CAP / 2 - 1) && !Fine(s, op);
    assert Listing(s) == Slots(0, CAP) && SearchTree(WEAK, s.tree.value);
    assert Step(s, op).tree == Some(Insert(CAP, s.tree.value, op.key, value, s.nid).0);
    hide Slots, Sorted, Insert, TidyInsert, Fine, Step, HitsHalfEnd, Find, ListedAfter;
    FineExact(s, op);
    InsertAnswers(WEAK, s.tree.value, op.key, value, s.nid, op.key);
  }

  // ---------------------------------------------------------------- two leaves

  /** A root with two leaves: the left one under separator 128, the right one with the keys 128 to 256. */
  function Pair(from: int, n: nat): Shape {
    Shape(Some(Inner(2, [Entry(128, Leaf(0, Slots(from, n))), Entry(257, Leaf(1, Slots(128, 129)))])), 3)
  }

  lemma {:induction false} CutLeaf(kvs: seq<Entry<Value>>)
    requires kvs == Slots(0, CAP)
    ensures Ins(CAP, Leaf(0, kvs), CAP, 0, 1) == Grown(Leaf(0, Slots(0, 128)), Some(Leaf(1, Slots(128, 129))), 2)
  {
    assert kvs[..128] == Slots(0, 128) && kvs[128..] == Slots(128, 128);
    PositionIs(Slots(128, 128), CAP, 128);
    assert Replace(Slots(128, 128), CAP, 0) == Slots(128, 129);
    hide Slots, Replace;
  }

  /** Inserting 256 cuts the full root leaf. */
  lemma {:induction false} CutStep()
    ensures Fine(Root(0, CAP), InsertOp(CAP, 0)) && Step(Root(0, CAP), InsertOp(CAP, 0)) == Pair(0, 128)
  {
    hide Slots, Ins;
    var l, r := Leaf(0, Slots(0, 128)), Leaf(1, Slots(128, 129));
    CutLeaf(Slots(0, CAP));
    assert Sep(l) == 128 && Sep(r) == 257;
    PositionIs([Entry(128, l)], 257, 1);
    assert InsertNew([Entry(128, l)], 257, r) == [Entry(128, l), Entry(257, r)];
    hide InsertNew;
    assert Last(Slots(0, CAP)).key == 255;
  }

  lemma {:induction false} TwoLeaves()
    ensures AllFine(EMPTY, Up(0, CAP) + [InsertOp(CAP, 0)]) && Reached(EMPTY, Up(0, CAP) + [InsertOp(CAP, 0)]) == Pair(0, 128)
  {
    FullRoot();
    CutStep();
    OneMore(EMPTY, Up(0, CAP), InsertOp(CAP, 0));
  }

  lemma {:induction false} OneMore(s: Shape, ops: seq<Op>, op: Op)
    ensures AllFine(s, ops + [op]) <==> AllFine(s, ops) && Fine(Reached(s, ops), op)
    ensures Reached(s, ops + [op]) == Step(Reached(s, ops), op)
  {
    hide Step, Fine;
    Joined(s, ops, [op]);
    assert [op][1..] == [];
  }

  /** Deleting 127, the left leaf's largest key, leaves its separator. */
  lemma {:induction false} DeleteLargest()
    ensures Step(Pair(0, 128), DeleteOp(127)) == Pair(0, 127)
  {
    var kids := Pair(0, 128).tree.value.kids;
    UpperIs(kids, 127, 0);
    var s := Slots(0, 128);
    assert s[127] == Entry(127, 0) && IndexOf(s, 127) == 127;
    assert s[..127] == Slots(0, 127) && s[128..] == [];
    assert Remove(s, 127) == Slots(0, 127);
    hide Slots, Remove, IndexOf;
    assert kids[0 := Entry(128, Leaf(0, Slots(0, 127)))] == Pair(0, 127).tree.value.kids;
  }

  /** 257 insertions in increasing order, then the deletion of key 127. */
  function Shortened(): seq<Op> {
    Up(0, CAP) + [InsertOp(CAP, 0)] + [DeleteOp(127)]
  }

  lemma {:induction false} ShortenedReached()
    ensures AllFine(EMPTY, Shortened()) && Reached(EMPTY, Shortened()) == Pair(0, 127)
  {
    TwoLeaves();
    DeleteLargest();
    OneMore(EMPTY, Up(0, CAP) + [InsertOp(CAP, 0)], DeleteOp(127));
  }

  lemma {:induction false} PairItems(from: int, n: nat)
    ensures Listing(Pair(from, n)) == Slots(from, n) + Slots(128, 129)
  {
    hide Slots;
    var kids := Pair(from, n).tree.value.kids;
    assert kids[0].val < kids[0];
    assert kids[1..] == [kids[1]] && kids[1..][1..] == [];
    assert Flat(kids[1..]) == Slots(128, 129) + Flat(kids[1..][1..]) == Slots(128, 129);
    assert Flat(kids) == Slots(from, n) + Flat(kids[1..]);
  }

  /** The left leaf has no key from 127 on. */
  lemma {:induction false} StopsAtLeft()
    ensures RangeTree(Pair(0, 127).tree.value, 127, 128) == []
  {
    var l, t := Slots(0, 127), Pair(0, 127).tree.value;
    UpperIs(t.kids, 127, 0);
    assert t.kids[0].val == Leaf(0, l);
    hide Slots;
    assert t.kids[0].val < t.kids[0];
    assert LeavesFrom(t, 127) == [Leaf(0, l)] + LeavesOf(t.kids[1..]);
    NothingFrom127();
    hide LeavesOf, LeavesFrom, Window, Pair;
    assert LeavesFrom(t, 127)[0] == Leaf(0, l);
  }

  lemma {:induction false} NothingFrom127()
    ensures Window(Slots(0, 127), 127, 128) == []
  {
    WindowIs(Slots(0, 127), 127, 128);
    BetweenNone(Slots(0, 127), 127, 128);
    hide Window, Between;
  }

  /** After that deletion a range query that starts at key 127 stops at the left leaf and misses key 128. */
  lemma {:induction false} RangeStopsShort()
    ensures var s := Reached(EMPTY, Shortened());
            && AllFine(EMPTY, Shortened()) && !Fine(s, RangeOp(127, 128))
            && s.tree.Some? && RangeTree(s.tree.value, 127, 128) == [] && Entry(128, 0) in Between(Listing(s), 127, 128)
  {
    hide Shortened, Reached, AllFine, Slots, RangeTree, Fine, Between, Listing, Satisfies;
    ShortenedReached();
    HistoryStarts();
    HistoryKept(EMPTY, Shortened());
    StopsAtLeft();
    PairItems(0, 127);
    assert (Slots(0, 127) + Slots(128, 129))[127] == Entry(128, 0);
    BetweenHolds(Slots(0, 127) + Slots(128, 129), 127, 128);
    FineExact(Pair(0, 127), RangeOp(127, 128));
  }

  lemma {:induction false} HistoryStarts()
    ensures Satisfies(WEAK, EMPTY)
  {
  }

  // ---------------------------------------------------------------- a separator that is left behind

  lemma {:induction false} PrependStep(from: int, n: nat)
    requires 0 < n < CAP && KEY_MIN < from < 128
    ensures var op := InsertOp(from - 1, 0); Fine(Pair(from, n), op) && Step(Pair(from, n), op) == Pair(from - 1, n + 1)
  {
    var kids := Pair(from, n).tree.value.kids;
    UpperIs(kids, from - 1, 0);
    PositionIs(Slots(from, n), from - 1, 0);
    assert Replace(Slots(from, n), from - 1, 0) == Slots(from - 1, n + 1);
    hide Slots, Replace;
    var g := Grown(Leaf(0, Slots(from - 1, n + 1)), None, 3);
    assert kids[0].val < kids[0];
    assert Ins(CAP, kids[0].val, from - 1, 0, 3) == g;
    assert Safe(CAP, kids[0].val, 128, from - 1);
    assert KidsSafe(CAP, kids, from - 1);
    assert SafeInsert(CAP, Pair(from, n).tree.value, from - 1);
    assert Install(kids, 0, g) == Pair(from - 1, n + 1).tree.value.kids;
    assert InsKids(CAP, kids, from - 1, 0, 3) == (Pair(from - 1, n + 1).tree.value.kids, 3);
  }

  lemma {:induction false} Prepended(from: int, n: nat, m: nat)
    requires 0 < n && n + m <= CAP && KEY_MIN + m < from < 128
    ensures AllFine(Pair(from, n), Down(from - 1, m)) && Reached(Pair(from, n), Down(from - 1, m)) == Pair(from - m, n + m)
    decreases m
  {
    if m > 0 {
      PrependStep(from, n);
      var ops := Down(from - 1, m);
      assert ops[0] == InsertOp(from - 1, 0) && ops[1..] == Down(from - 2, m - 1);
      hide Fine, Step, Pair, Down;
      Prepended(from - 1, n + 1, m - 1);
      First(Pair(from, n), ops);
    }
  }

  /** Then the left leaf is filled again with the keys -1 to -129. */
  function Refilled(): seq<Op> {
    Shortened() + Down(-1, 129)
  }

  lemma {:induction false} RefilledReached()
    ensures AllFine(EMPTY, Refilled()) && Reached(EMPTY, Refilled()) == Pair(-129, CAP)
  {
    hide Shortened, Down, Pair, Reached, AllFine;
    ShortenedReached();
    Prepended(0, 127, 129);
    Joined(EMPTY, Shortened(), Down(-1, 129));
  }

  /**
   * After that deletion the left leaf is filled again with the keys -1 to -129. Inserting the absent key -130 cuts it; its
   * right half now has another separator than the leaf had, so the leaf's old slot stays and its page is reached twice. The
   * leaf chain still lists the upsert, but inserting the absent key 127 next puts it into the left half, out of order.
   */
  lemma {:induction false} StaleSeparator(value: Value, other: Value)
    ensures var s, op := Reached(EMPTY, Refilled()), InsertOp(-130, value);
            && AllFine(EMPTY, Refilled()) && Find(Listing(s), -130).None? && Find(Listing(s), 127).None? && s.tree.Some?
            && !Fine(s, op) && ListedAfter(s, op) == Replace(Listing(s), -130, value)
            && var u, v := Insert(CAP, s.tree.value, -130, value, s.nid).0, TidyInsert(CAP, s.tree.value, -130, value, s.nid).0;
            && Step(s, op).tree == Some(u) && !Distinct(u) && Quick(u, 127, 1)
            && !Sorted(AllOf(PutAll(Leaves(v), LeafAt(u, 127, 1).id, QuickSlots(u, 127, other, 1))))
  {
    hide Refilled, Reached, AllFine, Slots, Fine, Listing, Satisfies, Find, Replace, Insert, TidyInsert, Leaves, AllOf, PutAll;
    RefilledReached();
    HistoryStarts();
    HistoryKept(EMPTY, Refilled());
    var s, t := Pair(-129, CAP), Pair(-129, CAP).tree.value;
    SlotIsLeft();
    PairSearch();
    FineExact(s, InsertOp(-130, value));
    NotFine(value);
    AbsentThere();
    PageTwice(value);
    QuickAfter(value);
    StaleNext(t, -130, value, 3, 127, other, 1);
  }

  /** The left leaf is full, its half does not end with -130, and its separator is 128 but should be 127. */
  lemma {:induction false} SlotIsLeft()
    ensures var t := Pair(-129, CAP).tree.value;
            && KidsThere(t) && LeavesSlot(CAP, t, Hi(t), -130) && !HitsHalfEnd(CAP, t, -130) && Taken(t, Hi(t), -130, 127)
  {
    hide Slots;
    var kids := Pair(-129, CAP).tree.value.kids;
    UpperIs(kids, -130, 0);
    assert Last(Slots(-129, CAP)).key == 126;
    assert kids[0].val < kids[0];
    OneThere(128, kids[0].val);
    OneThere(257, kids[1].val);
    ThereConcat([kids[0]], [kids[1]]);
    assert kids == [kids[0]] + [kids[1]];
    assert LeavesSlot(CAP, kids[0].val, 128, -130) && !HitsHalfEnd(CAP, kids[0].val, -130);
    assert KidsLeaveSlot(CAP, kids, -130) && !KidsHitHalfEnd(CAP, kids, -130);
    KidThere(kids, 0);
    assert Target(kids[0].val, -130) == kids[0].val && Bound(kids[0].val, 128, -130) == 128;
  }

  lemma {:induction false} PairSearch()
    ensures Satisfies(WEAK, Pair(-129, CAP)) ==> SearchTree(WEAK, Pair(-129, CAP).tree.value)
  {
    hide SearchTree;
  }

  lemma {:induction false} NotFine(value: Value)
    ensures !Fine(Pair(-129, CAP), InsertOp(-130, value))
  {
    var t := Pair(-129, CAP).tree.value;
    SlotIsLeft();
    SafeParts(CAP, t, Hi(t), -130);
  }

  lemma {:induction false} AbsentThere()
    ensures var s := Pair(-129, CAP); Find(Listing(s), -130).None? && Find(Listing(s), 127).None?
  {
    hide Slots, Pair;
    PairItems(-129, CAP);
    var l := Slots(-129, CAP) + Slots(128, 129);
    assert forall i :: 0 <= i < |l| ==> l[i].key == if i < CAP then -129 + i else i - CAP + 128;
    FindIndex(l, -130);
    FindIndex(l, 127);
  }

  lemma {:induction false} PageTwice(value: Value)
    ensures var t := Pair(-129, CAP).tree.value;
            && Insert(CAP, t, -130, value, 3).0 == Ins(CAP, t, -130, value, 3).left
            && (SearchTree(WEAK, t) ==> !Distinct(Insert(CAP, t, -130, value, 3).0))
  {
    hide Slots;
    var t := Pair(-129, CAP).tree.value;
    RightOnlyWhenFull(CAP, t, -130, value, 3);
    if SearchTree(WEAK, t) {
      PairIds();
      SlotIsLeft();
      hide Ins;
      InsIds(WEAK, t, Height(t), KEY_MIN, Hi(t), -130, value, 3);
    }
  }

  lemma {:induction false} PairIds()
    ensures var t := Pair(-129, CAP).tree.value; Distinct(t) && Below(Ids(t), 3)
  {
    hide Slots;
    var kids := Pair(-129, CAP).tree.value.kids;
    IdsTwo(kids[0], kids[1]);
    assert kids == [kids[0], kids[1]];
  }

  lemma {:induction false} InstallThree(d: Entry<Tree>, e: Entry<Tree>, g: Grown)
    requires g.right.Some? && Sep(g.left) < Sep(g.right.value) < d.key < e.key
    ensures Install([d, e], 0, g) == [Entry(Sep(g.left), g.left), Entry(Sep(g.right.value), g.right.value), Entry(d.key, g.left), e]
  {
    InstallForm([], d, [e], g);
    assert [] + [d] + [e] == [d, e];
  }

  /** The root now has a slot for page 0 twice. */
  lemma {:induction false} RootAfter(value: Value)
    ensures var t, g := Pair(-129, CAP).tree.value, InsLeaf(CAP, 0, Slots(-129, CAP), -130, value, 3);
            && g.right.Some?
            && Insert(CAP, t, -130, value, 3).0
               == Inner(2, [Entry(-1, g.left), Entry(127, g.right.value), Entry(128, g.left), t.kids[1]])
  {
    var t := Pair(-129, CAP).tree.value;
    var kids := t.kids;
    var g := InsLeaf(CAP, 0, Slots(-129, CAP), -130, value, 3);
    LeftGrown(value);
    UpperIs(kids, -130, 0);
    assert kids[0].val < kids[0];
    assert Ins(CAP, kids[0].val, -130, value, 3) == g;
    assert Bump(kids, -130) == kids;
    hide Slots, InsLeaf, Bump, Ins;
    InstallThree(kids[0], kids[1], g);
    assert kids == [kids[0], kids[1]];
    hide Install;
    assert InsKids(CAP, kids, -130, value, 3).0 == [Entry(-1, g.left), Entry(127, g.right.value), Entry(128, g.left), kids[1]];
    assert Half(CAP, kids, -130) == kids;
    hide InsKids;
    PageTwice(value);
    InnerLeft(t, -130, value, 3);
  }

  lemma {:induction false} InnerLeft(t: Tree, key: int, value: Value, nid: PageId)
    requires t.Inner? && |t.kids| < CAP
    ensures Ins(CAP, t, key, value, nid).left == Inner(t.id, InsKids(CAP, t.kids, key, value, nid).0)
  {
  }

  /** The root is not full, nor is the left half, which the key 127 is routed to. */
  lemma {:induction false} QuickAfter(value: Value)
    ensures Quick(Insert(CAP, Pair(-129, CAP).tree.value, -130, value, 3).0, 127, 1)
  {
    var g, e := InsLeaf(CAP, 0, Slots(-129, CAP), -130, value, 3), Pair(-129, CAP).tree.value.kids[1];
    RootAfter(value);
    LeftGrown(value);
    hide Insert, InsLeaf, Slots, Pair;
    UpperIs([Entry(-1, g.left), Entry(127, g.right.value), Entry(128, g.left), e], 127, 2);
  }

  lemma {:induction false} LeftGrown(value: Value)
    ensures var g := InsLeaf(CAP, 0, Slots(-129, CAP), -130, value, 3);
            && g.left.Leaf? && Size(g.left) == 129 && g.right.Some? && g.nid == 4
            && Sep(g.left) == -1 && Sep(g.right.value) == 127
  {
    var l, r := Slots(-129, CAP)[..128], Slots(-129, CAP)[128..];
    assert Last(l).key == -2 && Last(r).key == 126;
    PositionIs(l, -130, 0);
    assert Last(Replace(l, -130, value)) == Last(l);
  }
}
