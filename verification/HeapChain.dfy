/** The tuples of a heap table, page by page, and how an iterator walks along them. */
module HeapChain {
  import opened Bytes
  import opened Buffers
  import opened PageStore
  import opened HeapPage

  datatype RId = RId(pageId: PageId, slotId: nat)

  datatype Tuple = Tuple(rid: RId, data: Row)

  /** A page of the table. */
  datatype TablePage = TablePage(id: PageId, rows: seq<Row>)

  type Chain = seq<TablePage>

  /** The longest tuple that fits an empty page. */
  const MAX_TUPLE: nat := PAGE_SIZE - HEADER_SIZE - SLOT_SIZE

  const MAX_PAGES := 0x8000_0000

  function TuplesOf(p: TablePage): (ts: seq<Tuple>)
    ensures |ts| == |p.rows|
    ensures forall s :: 0 <= s < |ts| ==> ts[s] == Tuple(RId(p.id, s), p.rows[s])
  {
    seq(|p.rows|, s requires 0 <= s < |p.rows| => Tuple(RId(p.id, s), p.rows[s]))
  }

  /** All tuples, oldest first. */
  function All(chain: Chain): seq<Tuple> {
    if |chain| == 0 then [] else All(chain[..|chain| - 1]) + TuplesOf(chain[|chain| - 1])
  }

  /** The page a page points to; the last page points to page 0. */
  function NextOf(chain: Chain, i: nat): PageId
    requires i < |chain|
  {
    if i + 1 < |chain| then chain[i + 1].id else 0
  }

  /** Pages are in the order they were allocated, and none is empty unless it is the only one. */
  ghost predicate ChainOk(chain: Chain, next: PageId) {
    && |chain| > 0
    && (forall i :: 0 <= i < |chain| ==> 0 <= chain[i].id < next && chain[i].id < MAX_PAGES && FitsPage(chain[i].rows))
    && (forall i, j :: 0 <= i < j < |chain| ==> chain[i].id < chain[j].id)
    && (|chain| > 1 ==> forall i :: 0 <= i < |chain| ==> |chain[i].rows| > 0)
  }

  /** The chain with one more tuple: on the last page if it fits, else on a new one. */
  function Extended(chain: Chain, data: Row, newId: PageId): Chain
    requires |chain| > 0
  {
    var last := chain[|chain| - 1];
    if FitsPage(last.rows + [data]) then chain[|chain| - 1 := TablePage(last.id, last.rows + [data])]
    else chain + [TablePage(newId, [data])]
  }

  /** Where the new tuple is found. */
  function NewRId(chain: Chain, data: Row, newId: PageId): RId
    requires |chain| > 0
  {
    var last := chain[|chain| - 1];
    if FitsPage(last.rows + [data]) then RId(last.id, |last.rows|) else RId(newId, 0)
  }

  /** A new tuple becomes the last row of the last page, and slots are numbered from 0; the rows before it stay. */
  lemma {:induction false} NewRIdIs(chain: Chain, data: Row, newId: PageId)
    requires |chain| > 0
    ensures var rid, now := NewRId(chain, data, newId), Extended(chain, data, newId);
            var last := now[|now| - 1];
            && rid.pageId == last.id && rid.slotId + 1 == |last.rows| && last.rows[rid.slotId] == data
            && (if FitsPage(chain[|chain| - 1].rows + [data])
                then |now| == |chain| && last.rows[..rid.slotId] == chain[|chain| - 1].rows
                else |now| == |chain| + 1 && rid == RId(newId, 0) && now[..|chain|] == chain)
  {
    hide FitsPage;
  }

  lemma {:induction false} IdFits(id: PageId)
    requires 0 <= id < MAX_PAGES
    ensures Fits(id, Pow256(4))
  {
    Widths();
  }

  lemma {:induction false} OneFits(data: Row)
    requires |data| <= MAX_TUPLE
    ensures FitsPage([data])
  {
    assert [data][..0] == [];
    assert Total([data]) == Total([data][..0]) + |data|;
  }

  /** Adding a tuple appends it to the listing and keeps the chain in order. */
  lemma {:induction false} ExtendedAll(chain: Chain, data: Row, next: PageId)
    requires ChainOk(chain, next) && |data| <= MAX_TUPLE && next < MAX_PAGES
    ensures All(Extended(chain, data, next)) == All(chain) + [Tuple(NewRId(chain, data, next), data)]
    ensures ChainOk(Extended(chain, data, next), next + 1)
    ensures FitsPage(chain[|chain| - 1].rows + [data]) ==> ChainOk(Extended(chain, data, next), next)
  {
    var last := chain[|chain| - 1];
    if FitsPage(last.rows + [data]) {
      GrownAll(chain, data);
      GrownOk(chain, data, next);
    } else {
      OneFits(data);
      Emptiness(chain, data);
      LongerAll(chain, TablePage(next, [data]));
      LongerOk(chain, TablePage(next, [data]));
      assert TuplesOf(TablePage(next, [data])) == [Tuple(RId(next, 0), data)];
    }
    hide All, FitsPage, ChainOk;
  }

  lemma {:induction false} GrownOk(chain: Chain, data: Row, next: PageId)
    requires ChainOk(chain, next) && FitsPage(chain[|chain| - 1].rows + [data])
    ensures var n := |chain| - 1;
            var now := chain[n := TablePage(chain[n].id, chain[n].rows + [data])];
            ChainOk(now, next) && ChainOk(now, next + 1)
  {
    hide FitsPage;
  }

  lemma {:induction false} LongerOk(chain: Chain, p: TablePage)
    requires ChainOk(chain, p.id) && 0 <= p.id < MAX_PAGES && FitsPage(p.rows) && |p.rows| > 0 && |chain[|chain| - 1].rows| > 0
    ensures ChainOk(chain + [p], p.id + 1)
  {
    hide FitsPage;
  }

  lemma {:induction false} GrownAll(chain: Chain, data: Row)
    requires |chain| > 0
    ensures var n := |chain| - 1;
            var last := chain[n];
            All(chain[n := TablePage(last.id, last.rows + [data])]) == All(chain) + [Tuple(RId(last.id, |last.rows|), data)]
  {
    var n := |chain| - 1;
    var last := chain[n];
    var now := chain[n := TablePage(last.id, last.rows + [data])];
    assert now[..n] == chain[..n];
    assert TuplesOf(now[n]) == TuplesOf(last) + [Tuple(RId(last.id, |last.rows|), data)];
  }

  lemma {:induction false} LongerAll(chain: Chain, p: TablePage)
    ensures All(chain + [p]) == All(chain) + TuplesOf(p)
  {
    assert (chain + [p])[..|chain|] == chain;
  }

  /** A page that a tuple does not fit is not empty. */
  lemma {:induction false} Emptiness(chain: Chain, data: Row)
    requires |chain| > 0 && |data| <= MAX_TUPLE && !FitsPage(chain[|chain| - 1].rows + [data])
    ensures |chain[|chain| - 1].rows| > 0
  {
    if |chain[|chain| - 1].rows| == 0 {
      assert chain[|chain| - 1].rows + [data] == [data];
      OneFits(data);
    }
  }

  /** The third of three tuples of 2000 bytes: a page holds two of them, and what is left before them is too short for the
      subtraction of the third one's length. */
  lemma {:induction false} ThirdUnderflows(id: PageId, a: Row, b: Row, c: Row, next: PageId)
    requires |a| == 2000 && |b| == 2000 && |c| == 2000
    ensures var chain := Extended(Extended([TablePage(id, [])], a, next), b, next);
            && chain == [TablePage(id, [a, b])]
            && |c| <= MAX_TUPLE && Underflows(chain[0].rows, c)
  {
    hide Total, FitsPage, Underflows;
    EqualLengths([a], b, 2000);
    EqualLengths([a, b], c, 2000);
    var none: seq<Row> := [];
    assert none + [a] == [a] && [a] + [b] == [a, b];
    var first := [TablePage(id, none)];
    assert Extended(first, a, next) == [TablePage(id, [a])];
  }

  // ---------------------------------------------------------------- positions

  /** How many tuples there are before page `i`. */
  function Start(chain: Chain, i: nat): nat
    requires i <= |chain|
  {
    |All(chain[..i])|
  }

  lemma {:induction false} StartNext(chain: Chain, i: nat)
    requires i < |chain|
    ensures Start(chain, i + 1) == Start(chain, i) + |chain[i].rows|
    ensures All(chain[..i + 1]) == All(chain[..i]) + TuplesOf(chain[i])
  {
    assert chain[..i + 1][..i] == chain[..i];
  }

  lemma {:induction false} AllPrefix(chain: Chain, i: nat)
    requires i <= |chain|
    ensures All(chain[..i]) <= All(chain)
    decreases |chain| - i
  {
    if i == |chain| {
      assert chain[..i] == chain;
    } else {
      StartNext(chain, i);
      AllPrefix(chain, i + 1);
    }
  }

  lemma {:induction false} StartOrder(chain: Chain, i: nat, j: nat)
    requires i < j <= |chain|
    ensures Start(chain, i) + |chain[i].rows| <= Start(chain, j)
    decreases j - i
  {
    StartNext(chain, i);
    if i + 1 < j {
      StartOrder(chain, i + 1, j);
    }
  }

  /** The tuple in slot `s` of page `i`. */
  lemma {:induction false} TupleAt(chain: Chain, i: nat, s: nat)
    requires i < |chain| && s < |chain[i].rows|
    ensures Start(chain, i) + s < |All(chain)|
    ensures All(chain)[Start(chain, i) + s] == Tuple(RId(chain[i].id, s), chain[i].rows[s])
  {
    StartNext(chain, i);
    AllPrefix(chain, i + 1);
    assert All(chain)[Start(chain, i) + s] == All(chain[..i + 1])[Start(chain, i) + s];
  }

  /** Every listed tuple is in some slot. */
  lemma {:induction false} TupleFrom(chain: Chain, t: Tuple) returns (i: nat)
    requires t in All(chain)
    ensures i < |chain| && chain[i].id == t.rid.pageId && t.rid.slotId < |chain[i].rows| && chain[i].rows[t.rid.slotId] == t.data
  {
    var n := |chain| - 1;
    if t in All(chain[..n]) {
      i := TupleFrom(chain[..n], t);
    } else {
      assert t in TuplesOf(chain[n]);
      i := n;
    }
  }

  /** A record id names one tuple. */
  lemma {:induction false} RIdsUnique(chain: Chain, next: PageId, t: Tuple, u: Tuple)
    requires ChainOk(chain, next) && t in All(chain) && u in All(chain) && t.rid == u.rid
    ensures t == u
  {
    var i := TupleFrom(chain, t);
    var j := TupleFrom(chain, u);
    assert i == j;
  }

  // ---------------------------------------------------------------- iterators

  /**
   * An iterator stands at slot `rid`, in page number `at`, having returned `done` tuples; its end marker is behind the
   * last of the `all` tuples there were when it was created.
   */
  ghost predicate Walks(chain: Chain, rid: RId, end: RId, at: nat, endAt: nat, all: seq<Tuple>, done: nat) {
    && at < |chain| && endAt < |chain|
    && rid.pageId == chain[at].id && end.pageId == chain[endAt].id
    && rid.slotId <= |chain[at].rows| && end.slotId <= |chain[endAt].rows|
    && done == Start(chain, at) + rid.slotId <= |all|
    && |all| == Start(chain, endAt) + end.slotId
    && (|all| > 0 ==> end.slotId > 0)
    && (done < |all| ==> rid.slotId < |chain[at].rows|)
    && (done == |all| ==> rid == end)
    && all <= All(chain)
  }

  lemma {:induction false} WalkStart(chain: Chain, next: PageId)
    requires ChainOk(chain, next)
    ensures var last := |chain| - 1;
            Walks(chain, RId(chain[0].id, 0), RId(chain[last].id, |chain[last].rows|), 0, last, All(chain), 0)
  {
    var last := |chain| - 1;
    StartNext(chain, last);
    assert chain[..last + 1] == chain && chain[..0] == [];
    if |chain| == 1 {
      assert chain[..last] == [];
    } else {
      assert |chain[last].rows| > 0;
    }
  }

  /** Adding tuples does not move an iterator. */
  lemma {:induction false} WalkKept(chain: Chain, next: PageId, data: Row, rid: RId, end: RId, at: nat, endAt: nat,
                                    all: seq<Tuple>, done: nat)
    requires Walks(chain, rid, end, at, endAt, all, done)
    requires ChainOk(chain, next) && |data| <= MAX_TUPLE && next < MAX_PAGES
    ensures Walks(Extended(chain, data, next), rid, end, at, endAt, all, done)
  {
    ExtendedParts(chain, data, next, at);
    ExtendedParts(chain, data, next, endAt);
    ExtendedAll(chain, data, next);
    hide ChainOk, FitsPage, Extended, All, NewRId, Walks;
    WalkMoved(chain, Extended(chain, data, next), rid, end, at, endAt, all, done);
  }

  lemma {:induction false} WalkMoved(chain: Chain, now: Chain, rid: RId, end: RId, at: nat, endAt: nat, all: seq<Tuple>,
                                     done: nat)
    requires Walks(chain, rid, end, at, endAt, all, done)
    requires |now| >= |chain| && All(chain) <= All(now)
    requires at < |chain| ==> now[..at] == chain[..at] && now[at].id == chain[at].id && |now[at].rows| >= |chain[at].rows|
    requires endAt < |chain| ==> now[..endAt] == chain[..endAt] && now[endAt].id == chain[endAt].id && |now[endAt].rows| >= |chain[endAt].rows|
    ensures Walks(now, rid, end, at, endAt, all, done)
  {
    hide All;
  }

  lemma {:induction false} ExtendedParts(chain: Chain, data: Row, newId: PageId, i: nat)
    requires i < |chain|
    ensures var now := Extended(chain, data, newId);
            |now| >= |chain| && now[..i] == chain[..i] && now[i].id == chain[i].id && |now[i].rows| >= |chain[i].rows|
  {
  }

  /** An iterator stands at its end marker exactly when it has returned everything. */
  lemma {:induction false} WalkEnd(chain: Chain, next: PageId, rid: RId, end: RId, at: nat, endAt: nat, all: seq<Tuple>,
                                   done: nat)
    requires ChainOk(chain, next) && Walks(chain, rid, end, at, endAt, all, done)
    ensures at < |chain| && done <= |all| && (rid == end <==> done == |all|)
  {
    assert chain[at].id == chain[endAt].id ==> at == endAt;
  }

  /** What the next call of an iterator that is not at its end returns, and where it goes. */
  lemma {:induction false} WalkStep(chain: Chain, next: PageId, rid: RId, end: RId, at: nat, endAt: nat,
                                    all: seq<Tuple>, done: nat)
    requires ChainOk(chain, next) && Walks(chain, rid, end, at, endAt, all, done) && rid != end
    ensures at < |chain| && chain[at].id == rid.pageId && rid.slotId < |chain[at].rows|
    ensures done < |all| && all[done] == Tuple(rid, chain[at].rows[rid.slotId]) && all[done] in All(chain)
    ensures (rid.pageId == end.pageId && rid.slotId == end.slotId - 1) || rid.slotId + 1 < |chain[at].rows| ==>
              Walks(chain, RId(rid.pageId, rid.slotId + 1), end, at, endAt, all, done + 1)
    ensures !(rid.pageId == end.pageId && rid.slotId == end.slotId - 1) && rid.slotId + 1 >= |chain[at].rows| ==>
              && at + 1 < |chain| && NextOf(chain, at) != 0
              && Walks(chain, RId(NextOf(chain, at), 0), end, at + 1, endAt, all, done + 1)
  {
    TupleAt(chain, at, rid.slotId);
    StartNext(chain, at);
    if at < endAt {
      StartOrder(chain, at, endAt);
    } else if endAt < at {
      StartOrder(chain, endAt, at);
    }
    hide All, FitsPage;
  }

  // ---------------------------------------------------------------- the table in the cache

  /** Page `i` of the table reads as it should. */
  ghost predicate OnPage(chain: Chain, c: Cache, i: nat)
    requires i < |chain|
  {
    && chain[i].id !in c.removed
    && FitsPage(chain[i].rows) && Fits(NextOf(chain, i), Pow256(4))
    && Shown(c, chain[i].id) == PageOf(NextOf(chain, i), chain[i].rows)
  }

  /** All pages of the table read as they should, and pages not allocated yet read as zeros. */
  ghost predicate TableOk(chain: Chain, c: Cache) {
    && ChainOk(chain, c.next)
    && (forall i :: 0 <= i < |chain| ==> OnPage(chain, c, i))
    && forall q :: q >= c.next ==> Shown(c, q) == Blank()
  }

  /** Steps of the cache that write no page. */
  lemma {:induction false} TableKept(chain: Chain, c: Cache, c': Cache)
    requires TableOk(chain, c) && c'.next >= c.next && c'.removed == c.removed
    requires forall id :: id in c.removed ==> id < c.next
    requires SamePages(c, c', c.removed)
    ensures TableOk(chain, c')
  {
    hide PageOf, Shown, FitsPage;
    forall i | 0 <= i < |chain| ensures OnPage(chain, c', i) {
      assert OnPage(chain, c, i);
    }
  }

  lemma {:induction false} TableAppended(chain: Chain, c: Cache, c': Cache, data: Row)
    requires TableOk(chain, c) && |data| <= MAX_TUPLE && c.next < MAX_PAGES && c'.next == c.next && c'.removed == c.removed
    requires var last := chain[|chain| - 1];
             && FitsPage(last.rows + [data]) && Fits(0, Pow256(4))
             && forall q :: Shown(c', q) == if q == last.id then PageOf(0, last.rows + [data]) else Shown(c, q)
    ensures TableOk(Extended(chain, data, c.next), c')
  {
    ExtendedAll(chain, data, c.next);
    var now := Extended(chain, data, c.next);
    hide PageOf, Shown, All, FitsPage;
    forall i | 0 <= i < |now| ensures OnPage(now, c', i) {
      assert OnPage(chain, c, i);
      assert now[i].id == chain[i].id && NextOf(now, i) == NextOf(chain, i);
    }
  }

  lemma {:induction false} TableRolled(chain: Chain, c: Cache, c': Cache, data: Row)
    requires TableOk(chain, c) && |data| <= MAX_TUPLE && c.next < MAX_PAGES && c'.next == c.next + 1 && c'.removed == c.removed
    requires forall id :: id in c.removed ==> id < c.next
    requires FitsPage([data]) && Fits(0, Pow256(4)) && Fits(c.next, Pow256(4))
    requires var last := chain[|chain| - 1];
             && !FitsPage(last.rows + [data]) && FitsPage(last.rows)
             && forall q :: q !in c.removed ==>
                  Shown(c', q) == if q == last.id then PageOf(c.next, last.rows) else if q == c.next then PageOf(0, [data]) else Shown(c, q)
    ensures TableOk(Extended(chain, data, c.next), c')
  {
    hide PageOf, Shown, All, FitsPage, Extended, NewRId, OnPage;
    ExtendedAll(chain, data, c.next);
    var n, now := |chain|, Extended(chain, data, c.next);
    assert now == chain + [TablePage(c.next, [data])] by {
      RolledIs(chain, data, c.next);
    }
    assert chain[n - 1].id != c.next && c.next !in c.removed;
    forall i | 0 <= i < n ensures OnPage(now, c', i) {
      assert chain[i].id < c.next && (i + 1 < n ==> chain[i].id < chain[n - 1].id);
      PageThere(chain, c, i);
      RolledPage(chain, now, c, c', i);
    }
    hide ChainOk;
    LastOnPage(now, c', n);
  }

  lemma {:induction false} RolledIs(chain: Chain, data: Row, next: PageId)
    requires |chain| > 0 && !FitsPage(chain[|chain| - 1].rows + [data])
    ensures Extended(chain, data, next) == chain + [TablePage(next, [data])]
  {
    hide FitsPage;
  }

  lemma {:induction false} PageThere(chain: Chain, c: Cache, i: nat)
    requires TableOk(chain, c) && i < |chain|
    ensures chain[i].id !in c.removed
  {
    assert OnPage(chain, c, i);
    hide Shown, PageOf, FitsPage;
  }

  lemma {:induction false} LastOnPage(now: Chain, c: Cache, n: nat)
    requires n + 1 == |now| && now[n].id !in c.removed && FitsPage(now[n].rows) && Fits(0, Pow256(4))
    requires Shown(c, now[n].id) == PageOf(0, now[n].rows)
    ensures OnPage(now, c, n)
  {
  }

  lemma {:induction false} RolledPage(chain: Chain, now: Chain, c: Cache, c': Cache, i: nat)
    requires TableOk(chain, c) && i < |chain| && |now| == |chain| + 1 && now[..|chain|] == chain && now[|chain|].id == c.next
    requires c'.removed == c.removed && Fits(c.next, Pow256(4)) && FitsPage(chain[|chain| - 1].rows)
    requires Shown(c', chain[i].id) == if i + 1 == |chain| then PageOf(c.next, chain[i].rows) else Shown(c, chain[i].id)
    ensures OnPage(now, c', i)
  {
    hide PageOf, Shown, FitsPage;
    assert OnPage(chain, c, i);
    assert now[i] == now[..|chain|][i] == chain[i];
    assert i + 1 < |chain| ==> now[i + 1] == now[..|chain|][i + 1] == chain[i + 1];
  }

  /** Of the pages there were, none but `page` reads differently. */
  ghost predicate OthersSame(c: Cache, c': Cache, page: PageId) {
    && c.next <= c'.next && c.removed == c'.removed
    && forall q :: q !in c.removed && q != page && q < c.next ==> Shown(c', q) == Shown(c, q)
  }

  lemma {:induction false} OthersKept(c: Cache, c': Cache, page: PageId)
    requires SamePages(c, c', c.removed) && c.next <= c'.next && c.removed == c'.removed
    ensures OthersSame(c, c', page)
  {
    hide Shown;
  }

  lemma {:induction false} OthersTwice(c: Cache, c': Cache, c'': Cache, page: PageId)
    requires OthersSame(c, c', page) && OthersSame(c', c'', page)
    ensures OthersSame(c, c'', page)
  {
    hide Shown;
  }

  /** A table that shares no page with the one written to stays as it is. */
  lemma {:induction false} OtherTable(other: Chain, c: Cache, c': Cache, page: PageId)
    requires TableOk(other, c) && OthersSame(c, c', page) && forall i :: 0 <= i < |other| ==> other[i].id != page
    requires forall q :: q >= c'.next ==> Shown(c', q) == Blank()
    ensures TableOk(other, c')
  {
    hide PageOf, Shown, FitsPage;
    forall i | 0 <= i < |other| ensures OnPage(other, c', i) {
      assert OnPage(other, c, i);
    }
  }
}
