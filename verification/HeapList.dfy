/** The heap table: a chain of slotted pages in the page cache, and iterators over it. */
module HeapList {
  import opened Options
  import opened Bytes
  import opened Buffers
  import opened PageStore
  import opened PagePolicy
  import opened PageCache
  import opened HeapPage
  import opened HeapChain

  /** A frame can be had for page `id`. */
  ghost predicate CanOpen(live: multiset<Pin>, id: PageId) {
    id in Held(live) || |Held(live)| < CACHE_SIZE
  }

  /** A frame can be had for one more page while `id` is held. */
  ghost predicate CanOpenMore(live: multiset<Pin>, id: PageId) {
    |Held(live) + {id}| < CACHE_SIZE
  }

  lemma {:induction false} HeldMore(live: multiset<Pin>, p: Pin)
    ensures Held(live + multiset{p}) == Held(live) + {p.id}
    ensures live + multiset{p} - multiset{p} == live
  {
    assert forall q :: q in live + multiset{p} <==> q in live || q == p;
    assert p in live + multiset{p};
    forall id | id in Held(live) + {p.id} ensures id in Held(live + multiset{p}) {
      if id in Held(live) {
        var q :| q in live && q.id == id;
        assert q in live + multiset{p};
      }
    }
  }

  /** Removed pages were allocated, and so were held ones. */
  lemma {:induction false} Below(c: Cache)
    requires Consistent(c)
    ensures forall id :: id in c.removed ==> id < c.next
    ensures c.next !in Held(c.live) && c.next >= 0
  {
    Allocated(c);
  }

  /** What adding a tuple to a table comes to. After an underflow the table is not to be used any more. */
  datatype Insertion = Inserted(rid: RId) | NoFrame | Underflow

  /** Without an underflow it fails exactly when the tuple does not fit the last page and there is no room for a new one. */
  ghost predicate Added(chain: Chain, chain': Chain, next: PageId, data: Row, room: bool, r: Insertion) {
    && |chain| > 0 && !r.Underflow?
    && (r.Inserted? <==> FitsPage(chain[|chain| - 1].rows + [data]) || room)
    && chain' == (if r.Inserted? then Extended(chain, data, next) else chain)
    && (r.Inserted? ==> r.rid == NewRId(chain, data, next))
  }

  /** The tuple is longer than what lies before the tuples of the last page. */
  predicate TooLong(chain: Chain, data: Row) {
    |chain| > 0 && Underflows(chain[|chain| - 1].rows, data)
  }

  /** The tuple needs a new page. */
  predicate Rolls(chain: Chain, data: Row) {
    |chain| > 0 && !FitsPage(chain[|chain| - 1].rows + [data])
  }

  /** The tuple fits the last page or goes to a new one. */
  lemma {:induction false} AddedDone(chain: Chain, next: PageId, data: Row, room: bool)
    requires |chain| > 0 && (FitsPage(chain[|chain| - 1].rows + [data]) || room)
    ensures Added(chain, Extended(chain, data, next), next, data, room, Inserted(NewRId(chain, data, next)))
  {
    hide Underflows, FitsPage, Extended, NewRId;
  }

  lemma {:induction false} AddedNot(chain: Chain, next: PageId, data: Row)
    requires |chain| > 0 && !FitsPage(chain[|chain| - 1].rows + [data])
    ensures Added(chain, chain, next, data, false, NoFrame)
  {
    hide Underflows, FitsPage, Extended, NewRId;
  }

  /** Once the old last page and the new one are written, the table is extended. */
  lemma {:induction false} BothWritten(chain: Chain, c: Cache, c0: Cache, c1: Cache, c2: Cache, data: Row)
    requires TableOk(chain, c) && |data| <= MAX_TUPLE && 0 <= c.next < MAX_PAGES && c2.next == c.next + 1
    requires c2.removed == c.removed && SamePages(c, c0, c.removed) && forall id :: id in c.removed ==> id < c.next
    requires FitsPage([data]) && Fits(0, Pow256(4)) && Fits(c.next, Pow256(4))
    requires var last := chain[|chain| - 1];
             && last.id < c.next && !FitsPage(last.rows + [data]) && FitsPage(last.rows)
             && forall r :: Shown(c1, r) == if r == last.id then PageOf(c.next, last.rows) else Shown(c0, r)
    requires forall r :: Shown(c2, r) == if r == c.next then PageOf(0, [data]) else Shown(c1, r)
    ensures TableOk(Extended(chain, data, c.next), c2) && OthersSame(c, c2, chain[|chain| - 1].id)
  {
    hide Shown, PageOf, FitsPage, TableOk, Extended;
    TableRolled(chain, c, c2, data);
  }

  /** Then the listing grows by the tuple, or not at all. */
  lemma {:induction false} AddedListed(chain: Chain, chain': Chain, next: PageId, data: Row, room: bool, r: Insertion)
    requires Added(chain, chain', next, data, room, r) && ChainOk(chain, next) && |data| <= MAX_TUPLE && next < MAX_PAGES
    ensures All(chain') == All(chain) + if r.Inserted? then [Tuple(r.rid, data)] else []
    ensures !r.Inserted? ==> chain' == chain
  {
    hide ChainOk, All, Extended, NewRId, FitsPage, Underflows;
    ExtendedAll(chain, data, next);
    assert All(chain) + [] == All(chain);
  }

  class List {
    const pc: PageCache
    const firstPageId: PageId
    var lastPageId: PageId

    /** The pages of the table. */
    ghost var chain: Chain

    ghost function Repr(): set<object> {
      {this} + pc.Repr()
    }

    ghost predicate Valid()
      reads Repr()
    {
      && pc.Valid() && pc.replacer.k >= 2
      && TableOk(chain, pc.Now())
      && firstPageId == chain[0].id && lastPageId == chain[|chain| - 1].id
    }

    ghost function Contents(): seq<Tuple>
      reads this
    {
      All(chain)
    }

    constructor (pc: PageCache, id: PageId)
      ensures this.pc == pc && firstPageId == id && lastPageId == id && chain == [TablePage(id, [])]
    {
      this.pc, firstPageId, lastPageId := pc, id, id;
      chain := [TablePage(id, [])];
    }

    /** An empty table on a page of its own; pages never allocated must read as zeros. */
    static method Default(pc: PageCache) returns (r: Option<List>)
      requires pc.Valid() && pc.replacer.k >= 2 && pc.nextPageId < MAX_PAGES
      requires forall q :: q >= pc.nextPageId ==> Shown(pc.Now(), q) == Blank()
      modifies pc.Repr()
      ensures pc.Valid() && pc.live == old(pc.live)
      ensures r.Some? <==> |Held(old(pc.live))| < CACHE_SIZE
      ensures r.Some? ==> fresh(r.value) && r.value.pc == pc && r.value.Valid() && r.value.Contents() == []
      ensures r.Some? ==> r.value.chain == [TablePage(old(pc.nextPageId), [])]
      ensures pc.nextPageId == old(pc.nextPageId) + 1 && SamePages(old(pc.Now()), pc.Now(), pc.removed)
    {
      hide Consistent, Held, PageOf, Shown, TableOk, CameIn, TimesOf, Unheld;
      Below(pc.Now());
      var page := pc.NewPage();
      if page.None? {
        return None;
      }
      HeldMore(old(pc.live), page.value);
      pc.Unpin(page.value);
      var list := new List(pc, page.value.id);
      NewTable(old(pc.nextPageId), old(pc.removed), pc.Now());
      r := Some(list);
    }

    // ---------------------------------------------------------------- adding tuples

    /**
     * Append a tuple. If a frame can be had, this goes wrong exactly when the tuple is longer than what lies before the tuples
     * of the last page, and then nothing is promised. Else it fails only for want of frames, adding nothing, or the listing
     * grows by the tuple, under a record id of its own.
     */
    method Insert(data: Row) returns (r: Insertion)
      requires Valid() && |data| <= MAX_TUPLE && pc.nextPageId < MAX_PAGES
      modifies Repr()
      ensures r.Underflow? <==> old(CanOpen(pc.live, lastPageId)) && TooLong(old(chain), data)
      ensures !r.Underflow? ==> Valid() && pc.live == old(pc.live)
      ensures !r.Underflow? ==>
                pc.nextPageId == old(pc.nextPageId) + if old(CanOpen(pc.live, lastPageId)) && Rolls(old(chain), data) then 1 else 0
      ensures !old(CanOpen(pc.live, lastPageId)) ==> r == NoFrame
      ensures old(CanOpen(pc.live, lastPageId)) && !r.Underflow? ==>
                Added(old(chain), chain, old(pc.nextPageId), data, old(CanOpenMore(pc.live, lastPageId)), r)
      ensures !r.Underflow? ==> Contents() == old(Contents()) + if r.Inserted? then [Tuple(r.rid, data)] else []
      ensures r.NoFrame? ==> chain == old(chain)
      ensures !r.Underflow? ==> OthersSame(old(pc.Now()), pc.Now(), old(lastPageId))
    {
      hide Consistent, Held, All, TableOk, Shown, Added, OthersSame, TooLong, Rolls;
      assert |chain| > 0 && ChainOk(chain, pc.nextPageId) by { Parts(chain, pc.Now()); }
      hide ChainOk;
      ghost var live, c := pc.live, pc.Now();
      var page := Open(lastPageId, |chain| - 1);
      OthersKept(c, pc.Now(), lastPageId);
      ghost var c' := pc.Now();
      if page.None? {
        assert All(chain) + [] == All(chain);
        return NoFrame;
      }
      HeldMore(live, page.value);
      r := InsertInto(page.value, data);
      if !r.Underflow? {
        OthersTwice(c, c', pc.Now(), page.value.id);
        AddedListed(old(chain), chain, old(pc.nextPageId), data, |Held(live) + {page.value.id}| < CACHE_SIZE, r);
      }
    }

    // ---------------------------------------------------------------- reading tuples

    /** The data of a listed tuple by its record id, unless no frame is left for its page. */
    method Get(rid: RId, ghost t: Tuple) returns (r: Option<Row>)
      requires Valid() && t in Contents() && t.rid == rid
      modifies pc.Repr()
      ensures Valid() && pc.live == old(pc.live) && pc.nextPageId == old(pc.nextPageId)
      ensures r == if old(CanOpen(pc.live, rid.pageId)) then Some(t.data) else None
    {
      ghost var i := TupleFrom(chain, t);
      hide Consistent, Held, TableOk, All, Shown, Node.Valid;
      r := Read(rid, i);
    }

    method Read(rid: RId, ghost i: nat) returns (r: Option<Row>)
      requires Valid() && i < |chain| && chain[i].id == rid.pageId && rid.slotId < |chain[i].rows|
      modifies pc.Repr()
      ensures Valid() && pc.live == old(pc.live) && pc.nextPageId == old(pc.nextPageId)
      ensures r == if old(CanOpen(pc.live, rid.pageId)) then Some(chain[i].rows[rid.slotId]) else None
    {
      hide Consistent, Held, TableOk, All, Shown, Node.Valid;
      var page := Open(rid.pageId, i);
      if page.None? {
        return None;
      }
      HeldMore(old(pc.live), page.value);
      var node := Decode(page.value, i);
      var tuple := node.Get(rid.slotId);
      Close(page.value);
      r := Some(tuple);
    }

    /** The number of tuples on the last page. */
    method LastLen() returns (len: Option<nat>)
      requires Valid() && |chain| > 0
      modifies pc.Repr()
      ensures Valid() && pc.live == old(pc.live) && pc.nextPageId == old(pc.nextPageId)
      ensures len == if old(CanOpen(pc.live, lastPageId)) then Some(|chain[|chain| - 1].rows|) else None
    {
      hide Consistent, Held, TableOk, All, Shown, Node.Valid;
      var page := Open(lastPageId, |chain| - 1);
      if page.None? {
        return None;
      }
      HeldMore(old(pc.live), page.value);
      var node := Decode(page.value, |chain| - 1);
      var n := node.Len();
      Close(page.value);
      len := Some(n);
    }

    // ---------------------------------------------------------------- pages of the table

    /** Fetch a page of the table. */
    method Open(id: PageId, ghost i: nat) returns (r: Option<Pin>)
      requires Valid() && i < |chain| && chain[i].id == id
      modifies pc.Repr()
      ensures Valid() && Got(old(pc.live), pc.live, r, id) && pc.nextPageId == old(pc.nextPageId) && pc.removed == old(pc.removed)
      ensures SamePages(old(pc.Now()), pc.Now(), pc.removed)
    {
      hide Consistent, Held, Shown, FitsPage, PageOf, SamePages, CameIn, TimesOf, Unheld;
      ghost var c := pc.Now();
      Below(c);
      assert OnPage(chain, c, i);
      r := pc.FetchPage(id);
      TableKept(chain, c, pc.Now());
    }

    /** A page of the cache's, for the table to grow onto. */
    method Allocate() returns (r: Option<Pin>)
      requires pc.Valid() && pc.replacer.k >= 2
      modifies pc.Repr()
      ensures pc.Valid() && pc.nextPageId == old(pc.nextPageId) + 1 && pc.removed == old(pc.removed)
      ensures Got(old(pc.live), pc.live, r, old(pc.nextPageId)) && SamePages(old(pc.Now()), pc.Now(), pc.removed)
    {
      hide Consistent, Held, Shown, SamePages, CameIn, TimesOf, Unheld, Accessed, CanServe, Served;
      r := pc.NewPage();
    }

    /** Drop a handle. */
    method Close(p: Pin)
      requires Valid() && p in pc.live
      modifies pc.Repr()
      ensures Valid() && pc.live == old(pc.live) - multiset{p} && pc.nextPageId == old(pc.nextPageId) && pc.removed == old(pc.removed)
      ensures SamePages(old(pc.Now()), pc.Now(), pc.removed)
    {
      hide Consistent, Shown, TableOk, TimesOf;
      ghost var c := pc.Now();
      Below(c);
      pc.Unpin(p);
      TableKept(chain, c, pc.Now());
    }

    /** Decode a page of the table. */
    method Decode(p: Pin, ghost i: nat) returns (node: Node)
      requires Valid() && p in pc.live && i < |chain| && chain[i].id == p.id
      ensures fresh(node) && fresh(node.page) && node.Valid()
      ensures node.nextPageId == NextOf(chain, i) && node.rows == chain[i].rows
    {
      hide Consistent, Shown, FitsPage, PageOf;
      assert OnPage(chain, pc.Now(), i);
      var buf := pc.Read(p);
      node := Node.From(buf, NextOf(chain, i), chain[i].rows);
    }

    /** Append to the last page, which is held, or to a new one; drop the handle. */
    method InsertInto(p: Pin, data: Row) returns (r: Insertion)
      requires Valid() && |data| <= MAX_TUPLE && pc.nextPageId < MAX_PAGES && p in pc.live && p.id == lastPageId
      modifies Repr()
      ensures r.Underflow? <==> TooLong(old(chain), data)
      ensures !r.Underflow? ==> Valid() && pc.live == old(pc.live) - multiset{p}
      ensures !r.Underflow? ==> pc.nextPageId == old(pc.nextPageId) + if Rolls(old(chain), data) then 1 else 0
      ensures !r.Underflow? ==> Added(old(chain), chain, old(pc.nextPageId), data, |Held(old(pc.live))| < CACHE_SIZE, r)
      ensures !r.Underflow? ==> OthersSame(old(pc.Now()), pc.Now(), p.id)
    {
      hide Consistent, Held, FitsPage, Shown, Node.Valid, Extended, TableOk, OthersSame, Underflows, Added;
      Parts(chain, pc.Now());
      ghost var c := pc.Now();
      var node := Decode(p, |chain| - 1);
      var slot := node.Insert(data);
      match slot {
        case Underflow =>
          return Insertion.Underflow;
        case Done(s) =>
          AddedDone(chain, c.next, data, |Held(c.live)| < CACHE_SIZE);
          Append(p, node, data);
          return Inserted(RId(p.id, s));
        case Full =>
          Emptiness(chain, data);
          assert node.rows != [];
          r := RollOver(p, node, data);
          return;
      }
    }

    /** The tuple fitted: write the page back. */
    method Append(p: Pin, node: Node, data: Row)
      requires Valid() && |data| <= MAX_TUPLE && pc.nextPageId < MAX_PAGES && p in pc.live && p.id == lastPageId
      requires |chain| > 0 && FitsPage(chain[|chain| - 1].rows + [data])
      requires node.Valid() && node.nextPageId == 0 && node.rows == chain[|chain| - 1].rows + [data]
      modifies Repr()
      ensures Valid() && pc.live == old(pc.live) - multiset{p} && pc.nextPageId == old(pc.nextPageId)
      ensures chain == Extended(old(chain), data, old(pc.nextPageId))
      ensures OthersSame(old(pc.Now()), pc.Now(), p.id)
    {
      hide Consistent, FitsPage, TableOk, Shown, PageOf, SamePages;
      ghost var c := pc.Now();
      WriteBack(p, node);
      ghost var c' := pc.Now();
      assert OthersSame(c, c', p.id);
      hide OthersSame;
      TableAppended(chain, c, c', data);
      chain := Extended(chain, data, c.next);
      CloseLast(p, c, p.id);
    }

    /** Drop a handle after pages were written. */
    method CloseLast(p: Pin, ghost c: Cache, ghost page: PageId)
      requires Valid() && p in pc.live && OthersSame(c, pc.Now(), page)
      modifies pc.Repr()
      ensures Valid() && pc.live == old(pc.live) - multiset{p} && pc.nextPageId == old(pc.nextPageId) && pc.removed == old(pc.removed)
      ensures OthersSame(c, pc.Now(), page)
    {
      hide Consistent, TableOk, Shown, OthersSame, SamePages;
      ghost var c' := pc.Now();
      Close(p);
      OthersKept(c', pc.Now(), page);
      OthersTwice(c, c', pc.Now(), page);
    }

    /** The tuple did not fit: put it on a new page and let the old one point there. */
    method RollOver(p: Pin, node: Node, data: Row) returns (r: Insertion)
      requires Valid() && |data| <= MAX_TUPLE && pc.nextPageId < MAX_PAGES && p in pc.live && p.id == lastPageId
      requires |chain| > 0 && !FitsPage(chain[|chain| - 1].rows + [data]) && !Underflows(chain[|chain| - 1].rows, data)
      requires node.Valid() && node.rows == chain[|chain| - 1].rows && node !in Repr() && node.page !in Repr()
      modifies Repr(), node
      ensures Valid() && pc.live == old(pc.live) - multiset{p} && pc.nextPageId == old(pc.nextPageId) + 1
      ensures Added(old(chain), chain, old(pc.nextPageId), data, |Held(old(pc.live))| < CACHE_SIZE, r) && !r.Underflow?
      ensures OthersSame(old(pc.Now()), pc.Now(), p.id)
    {
      hide Consistent, Held, FitsPage, Shown, PageOf, TableOk, Extended, OthersSame, SamePages, Underflows, Added;
      ghost var c := pc.Now();
      Below(c);
      var npage := Allocate();
      if npage.None? {
        AddedNot(chain, c.next, data);
        TableKept(chain, c, pc.Now());
        OthersKept(c, pc.Now(), p.id);
        CloseLast(p, c, p.id);
        return NoFrame;
      }
      AddedDone(chain, c.next, data, |Held(c.live)| < CACHE_SIZE);
      FillNew(p, npage.value, node, data, c);
      HeldMore(old(pc.live), npage.value);
      CloseLast(npage.value, c, p.id);
      CloseLast(p, c, p.id);
      r := Inserted(RId(npage.value.id, 0));
    }

    /** Write both pages. */
    method FillNew(p: Pin, q: Pin, node: Node, data: Row, ghost c: Cache)
      requires pc.Valid() && pc.replacer.k >= 2 && TableOk(chain, c) && |data| <= MAX_TUPLE && 0 <= c.next < MAX_PAGES
      requires firstPageId == chain[0].id && lastPageId == chain[|chain| - 1].id
      requires pc.nextPageId == c.next + 1 && pc.removed == c.removed && SamePages(c, pc.Now(), c.removed)
      requires forall id :: id in c.removed ==> id < c.next
      requires p in pc.live && q in pc.live && p.id == lastPageId && q.id == c.next
      requires |chain| > 0 && !FitsPage(chain[|chain| - 1].rows + [data])
      requires node.Valid() && node.rows == chain[|chain| - 1].rows && node !in Repr() && node.page !in Repr()
      modifies Repr(), node
      ensures Valid() && pc.live == old(pc.live) && pc.nextPageId == c.next + 1
      ensures chain == Extended(old(chain), data, c.next)
      ensures OthersSame(c, pc.Now(), p.id)
    {
      hide Consistent, Shown, PageOf, FitsPage;
      assert p.id < c.next && Shown(pc.Now(), c.next) == Blank();
      ghost var c0 := pc.Now();
      IdFits(c.next);
      node.nextPageId := q.id;
      lastPageId := q.id;
      assert node.Valid();
      hide Node.Valid, ChainOk, TableOk, Extended, OthersSame, SamePages;
      WriteBack(p, node);
      ghost var c1 := pc.Now();
      FirstRow(q, data);
      BothWritten(chain, c, c0, c1, pc.Now(), data);
      chain := Extended(chain, data, c.next);
    }

    /** Encode a node into its page. */
    method WriteBack(p: Pin, node: Node)
      requires pc.Valid() && p in pc.live && node.Valid()
      modifies pc.Repr()
      ensures pc.Valid() && pc.live == old(pc.live) && pc.nextPageId == old(pc.nextPageId) && pc.removed == old(pc.removed)
      ensures FitsPage(node.rows) && Fits(node.nextPageId, Pow256(4))
      ensures forall q :: Shown(pc.Now(), q) == if q == p.id then PageOf(node.nextPageId, node.rows) else Shown(old(pc.Now()), q)
    {
      hide Consistent, Shown, PageOf;
      var page := node.ToPage();
      pc.Write(p, page);
    }

    /** The first row of a page of zeros: it always fits. */
    method FirstRow(q: Pin, data: Row)
      requires pc.Valid() && q in pc.live && |data| <= MAX_TUPLE && Shown(pc.Now(), q.id) == Blank()
      modifies pc.Repr()
      ensures pc.Valid() && pc.live == old(pc.live) && pc.nextPageId == old(pc.nextPageId) && pc.removed == old(pc.removed)
      ensures FitsPage([data]) && Fits(0, Pow256(4))
      ensures forall r :: Shown(pc.Now(), r) == if r == q.id then PageOf(0, [data]) else Shown(old(pc.Now()), r)
    {
      hide Consistent, Shown, PageOf, Node.Valid, FitsPage, Blank;
      var buf := pc.Read(q);
      var node := FirstNode(buf, data);
      WriteBack(q, node);
    }

    static method FirstNode(buf: PageBuf, data: Row) returns (node: Node)
      requires |data| <= MAX_TUPLE && buf == Blank()
      ensures fresh(node) && fresh(node.page) && node.Valid() && node.nextPageId == 0 && node.rows == [data]
    {
      hide PageOf, Node.Valid, FitsPage, Blank;
      BlankIsEmpty();
      OneFits(data);
      node := Node.From(buf, 0, []);
      assert [] + [data] == [data];
      var slot := node.Insert(data);
      assert slot.Done?;
    }
  }

  // ---------------------------------------------------------------- iterators

  /** What a call of an iterator returns: no more tuples, a tuple, or a failure for want of a frame. */
  datatype Item = End | Next(tuple: Tuple) | Failed

  class Iter {
    const list: List
    var rid: RId
    const end: RId

    /** The tuples there were when the iterator was created, and how many of them it has returned. */
    ghost const all: seq<Tuple>
    ghost var done: nat

    /** The numbers of the pages that `rid` and `end` are on. */
    ghost var at: nat
    ghost const endAt: nat

    ghost predicate Valid()
      reads this, list.Repr()
    {
      list.Valid() && Walks(list.chain, rid, end, at, endAt, all, done)
    }

    constructor (list: List, rid: RId, end: RId, ghost at: nat, ghost endAt: nat, ghost all: seq<Tuple>)
      ensures this.list == list && this.rid == rid && this.end == end
      ensures this.at == at && this.endAt == endAt && this.all == all && done == 0
    {
      this.list, this.rid, this.end, this.at, this.endAt, this.all, done := list, rid, end, at, endAt, all, 0;
    }

    /** An iterator over the tuples there are now. */
    static method Over(list: List) returns (r: Option<Iter>)
      requires list.Valid()
      modifies list.pc.Repr()
      ensures list.Valid() && list.pc.live == old(list.pc.live) && list.pc.nextPageId == old(list.pc.nextPageId)
      ensures r.Some? <==> old(CanOpen(list.pc.live, list.lastPageId))
      ensures r.Some? ==> fresh(r.value) && r.value.list == list && r.value.Valid() && r.value.done == 0 && r.value.all == list.Contents()
    {
      hide Consistent, Held, All, Shown, Node.Valid, Walks, TableOk;
      Parts(list.chain, list.pc.Now());
      ghost var n := |list.chain| - 1;
      WalkStart(list.chain, list.pc.nextPageId);
      hide ChainOk, Start;
      var len := list.LastLen();
      if len.None? {
        return None;
      }
      var iter := new Iter(list, RId(list.firstPageId, 0), RId(list.lastPageId, len.value), 0, n, list.Contents());
      r := Some(iter);
    }

    /**
     * The next of the tuples there were when the iterator was created, in the order they were added; after the last of
     * them always the end. A call that fails for want of a frame leaves the iterator where it is.
     */
    method Advance() returns (r: Item)
      requires Valid()
      modifies this, list.pc.Repr()
      ensures Valid() && list.pc.live == old(list.pc.live) && list.pc.nextPageId == old(list.pc.nextPageId)
      ensures r.Failed? <==> old(done) < |all| && !old(CanOpen(list.pc.live, rid.pageId))
      ensures !r.Failed? ==> r == if old(done) < |all| then Next(all[old(done)]) else End
      ensures done == if r.Next? then old(done) + 1 else old(done)
    {
      hide Consistent, Held, All, Shown, Walks, TableOk, ChainOk, FitsPage, NextOf, CanOpen;
      Parts(list.chain, list.pc.Now());
      WalkEnd(list.chain, list.pc.nextPageId, rid, end, at, endAt, all, done);
      if end == rid {
        return End;
      }
      WalkStep(list.chain, list.pc.nextPageId, rid, end, at, endAt, all, done);
      var data := list.Get(rid, all[done]);
      var next, len := LookBehind();
      if len.None? {
        return Failed;
      }
      r := Next(Tuple(rid, data.value));
      done := done + 1;
      if rid.pageId == end.pageId && rid.slotId == end.slotId - 1 {
        rid := RId(rid.pageId, rid.slotId + 1);
      } else if rid.slotId + 1 < len.value {
        rid := RId(rid.pageId, rid.slotId + 1);
      } else {
        // There is a page behind this one: the iteration does not stop early.
        assert next != 0;
        rid, at := RId(next, 0), at + 1;
      }
    }

    /** The page behind the current one, and the number of tuples on the current one. */
    method LookBehind() returns (next: PageId, len: Option<nat>)
      requires list.Valid() && at < |list.chain| && list.chain[at].id == rid.pageId
      modifies list.pc.Repr()
      ensures list.Valid() && list.pc.live == old(list.pc.live) && list.pc.nextPageId == old(list.pc.nextPageId)
      ensures len == if old(CanOpen(list.pc.live, rid.pageId)) then Some(|list.chain[at].rows|) else None
      ensures len.Some? ==> next == NextOf(list.chain, at)
    {
      hide Consistent, Held, All, Shown, Node.Valid, TableOk, ChainOk, FitsPage, NextOf;
      var page := list.Open(rid.pageId, at);
      if page.None? {
        return 0, None;
      }
      HeldMore(old(list.pc.live), page.value);
      var node := list.Decode(page.value, at);
      var n := node.Len();
      list.Close(page.value);
      return node.nextPageId, Some(n);
    }
  }

  lemma {:induction false} Parts(chain: Chain, c: Cache)
    requires TableOk(chain, c)
    ensures |chain| > 0 && ChainOk(chain, c.next) && NextOf(chain, |chain| - 1) == 0
  {
  }

  lemma {:induction false} NewTable(id: PageId, removed: set<PageId>, c: Cache)
    requires 0 <= id < MAX_PAGES && c.next == id + 1 && c.removed == removed && id !in removed
    requires forall q :: q >= id ==> Shown(c, q) == Blank()
    ensures TableOk([TablePage(id, [])], c) && All([TablePage(id, [])]) == []
  {
    BlankIsEmpty();
    var chain := [TablePage(id, [])];
    assert chain[..0] == [];
    assert OnPage(chain, c, 0);
  }
}
