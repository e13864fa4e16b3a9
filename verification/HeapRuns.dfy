/** Iterating over a heap table while tuples are added to it. */
module HeapRuns {
  import opened Options
  import opened Buffers
  import opened PageStore
  import opened HeapPage
  import opened HeapChain
  import opened HeapList

  /** Something that happens to the table while it is iterated over: a tuple is added, or the iterator is called. */
  datatype Event = Add(data: Row) | Call

  /** The answers of an iterator over `all` that has returned `done` tuples: the others one by one, then the end for ever.
      Failed calls return nothing. */
  ghost predicate Listed(items: seq<Item>, all: seq<Tuple>, done: nat)
    requires done <= |all|
  {
    |items| > 0 ==>
      match items[0]
      case Failed => Listed(items[1..], all, done)
      case Next(t) => done < |all| && t == all[done] && Listed(items[1..], all, done + 1)
      case End => done == |all| && Listed(items[1..], all, done)
  }

  /** The tuples among the answers. */
  function Returned(items: seq<Item>): seq<Tuple> {
    if |items| == 0 then []
    else if items[0].Next? then [items[0].tuple] + Returned(items[1..])
    else Returned(items[1..])
  }

  /** Together the answers give the tuples in order, each once, and the end only after all of them. */
  lemma {:induction false} ListedInOrder(items: seq<Item>, all: seq<Tuple>, done: nat)
    requires done <= |all| && Listed(items, all, done)
    ensures done + |Returned(items)| <= |all| && Returned(items) == all[done..done + |Returned(items)|]
    ensures forall i :: 0 <= i < |items| && items[i].End? ==> done + |Returned(items[..i])| == |all|
    decreases |items|
  {
    if |items| > 0 {
      var next := if items[0].Next? then done + 1 else done;
      ListedInOrder(items[1..], all, next);
      forall i | 0 <= i < |items| && items[i].End? ensures done + |Returned(items[..i])| == |all| {
        if i > 0 {
          assert items[1..][i - 1] == items[i] && items[..i][1..] == items[1..][..i - 1];
        }
      }
    }
  }

  lemma {:induction false} ListedMore(items: seq<Item>, all: seq<Tuple>, done: nat, item: Item)
    requires done <= |all| && Listed(items, all, done)
    requires var now := done + |Returned(items)|;
             now <= |all| && match item case Failed => true case Next(t) => now < |all| && t == all[now] case End => now == |all|
    ensures Listed(items + [item], all, done)
    ensures |Returned(items + [item])| == |Returned(items)| + if item.Next? then 1 else 0
    decreases |items|
  {
    if |items| == 0 {
      assert items + [item] == [item] && [item][1..] == [];
    } else {
      assert (items + [item])[1..] == items[1..] + [item];
      ListedMore(items[1..], all, if items[0].Next? then done + 1 else done, item);
    }
  }

  // ---------------------------------------------------------------- additions that go wrong

  /** A frame can be had for page `id` while the pages `held` are held. */
  ghost predicate HasFrame(held: set<PageId>, id: PageId) {
    id in held || |held| < CACHE_SIZE
  }

  /** What an addition makes of the pages of a table and of the next page id. */
  ghost function Grown(chain: Chain, next: PageId, held: set<PageId>, data: Row): (r: (Chain, PageId))
    requires |chain| > 0
    ensures |r.0| > 0 && r.1 <= next + 1
  {
    var last := chain[|chain| - 1].id;
    if !HasFrame(held, last) then (chain, next)
    else if !Rolls(chain, data) then (Extended(chain, data, next), next)
    else (if |held + {last}| < CACHE_SIZE then Extended(chain, data, next) else chain, next + 1)
  }

  /** The first events that can be carried out: up to the first addition that underflows. */
  ghost function Fine(chain: Chain, next: PageId, held: set<PageId>, events: seq<Event>): (n: nat)
    requires |chain| > 0
    ensures n <= |events|
    decreases |events|
  {
    if |events| == 0 then 0
    else match events[0]
      case Call => 1 + Fine(chain, next, held, events[1..])
      case Add(data) =>
        if HasFrame(held, chain[|chain| - 1].id) && TooLong(chain, data) then 0
        else
          var (chain', next') := Grown(chain, next, held, data);
          1 + Fine(chain', next', held, events[1..])
  }

  lemma {:induction false} FineStep(chain: Chain, next: PageId, held: set<PageId>, events: seq<Event>, i: nat)
    requires |chain| > 0 && i < |events|
    ensures var n := Fine(chain, next, held, events[i..]);
            match events[i]
            case Call => n == 1 + Fine(chain, next, held, events[i + 1..])
            case Add(data) =>
              if HasFrame(held, chain[|chain| - 1].id) && TooLong(chain, data) then n == 0
              else n == 1 + Fine(Grown(chain, next, held, data).0, Grown(chain, next, held, data).1, held, events[i + 1..])
  {
    assert events[i..][0] == events[i] && events[i..][1..] == events[i + 1..];
  }

  /**
   * Create an iterator, then call it and add tuples in any order, up to the first addition that underflows. Whatever is
   * added and wherever new pages start, the iterator returns the tuples there were when it was created, in the order they
   * were added, each once, and then the end; tuples once listed stay listed under their record ids. The number of events
   * carried out is reported; if it is not all of them, the next one is an addition that left the table unusable.
   */
  method Run(list: List, events: seq<Event>) returns (started: bool, items: seq<Item>, n: nat)
    requires list.Valid() && list.pc.nextPageId + |events| < MAX_PAGES
    requires forall i :: 0 <= i < |events| && events[i].Add? ==> |events[i].data| <= MAX_TUPLE
    modifies list.Repr()
    ensures started <==> old(CanOpen(list.pc.live, list.lastPageId))
    ensures Listed(items, old(list.Contents()), 0)
    ensures n == if started then old(Fine(list.chain, list.pc.nextPageId, Held(list.pc.live), events)) else 0
    ensures !started || n == |events| ==>
              list.Valid() && list.pc.live == old(list.pc.live) && old(list.Contents()) <= list.Contents()
  {
    hide Consistent, TableOk, CanOpen, All, Walks, Listed, Extended, NewRId, Added, Held, Grown, HasFrame, TooLong, Fine;
    items, n := [], 0;
    assert Listed([], list.Contents(), 0) by { NoneListed(list.Contents()); }
    Parts(list.chain, list.pc.Now());
    var iter := Iter.Over(list);
    if iter.None? {
      return false, [], 0;
    }
    started := true;
    var it := iter.value;
    ghost var all, held := list.Contents(), Held(list.pc.live);
    ghost var limit := Fine(list.chain, list.pc.nextPageId, held, events);
    assert events[0..] == events;
    while n < |events|
      invariant 0 <= n <= |events| && it.list == list && fresh(it) && it.Valid() && it.all == all
      invariant list.pc.live == old(list.pc.live) && list.pc.nextPageId <= old(list.pc.nextPageId) + n
      invariant |list.chain| > 0 && limit == n + Fine(list.chain, list.pc.nextPageId, held, events[n..])
      invariant all <= list.Contents()
      invariant it.done == |Returned(items)| <= |all| && Listed(items, all, 0)
    {
      FineStep(list.chain, list.pc.nextPageId, held, events, n);
      match events[n] {
        case Add(data) =>
          var ok := AddTuple(it, data);
          if !ok {
            return;
          }
        case Call =>
          ghost var done := it.done;
          var item := it.Advance();
          ListedMore(items, all, 0, item);
          items := items + [item];
      }
      n := n + 1;
    }
  }

  lemma {:induction false} NoneListed(all: seq<Tuple>)
    ensures Listed([], all, 0)
  {
  }

  /** Add a tuple under a running iterator. */
  method AddTuple(it: Iter, data: Row) returns (ok: bool)
    requires it.Valid() && |data| <= MAX_TUPLE && it.list.pc.nextPageId < MAX_PAGES
    modifies it.list.Repr()
    ensures |old(it.list.chain)| > 0
    ensures ok <==> !(HasFrame(old(Held(it.list.pc.live)), old(it.list.chain)[|old(it.list.chain)| - 1].id) && TooLong(old(it.list.chain), data))
    ensures ok ==>
              && it.Valid() && it.list.pc.live == old(it.list.pc.live)
              && (it.list.chain, it.list.pc.nextPageId) == Grown(old(it.list.chain), old(it.list.pc.nextPageId), old(Held(it.list.pc.live)), data)
              && old(it.list.Contents()) <= it.list.Contents()
  {
    hide Consistent, TableOk, All, Walks, Extended, NewRId, Held, TooLong;
    Parts(it.list.chain, it.list.pc.Now());
    hide ChainOk, FitsPage;
    WalkKept(it.list.chain, it.list.pc.nextPageId, data, it.rid, it.end, it.at, it.endAt, it.all, it.done);
    var r := it.list.Insert(data);
    ok := !r.Underflow?;
  }
}
