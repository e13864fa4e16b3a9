/** The page cache: a write-back cache of 64 frames over a disk. */
module PageCache {
  import opened Options
  import opened Replacer
  import opened Buffers
  import opened PageStore
  import opened PagePolicy
  import FL = FreeList

  /** A frame can be had for page `id`: it is cached, a frame is free, or the replacement policy gives one up. */
  ghost predicate CanServe(c: Cache, k: nat, id: PageId) {
    id in c.table || c.free != [] || (k >= 2 && exists i :: Free(c.nodes, i))
  }

  /** What a request for page `id` comes to: a handle, which is live then, or nothing. */
  ghost predicate Served(before: multiset<Pin>, after: multiset<Pin>, r: Option<Pin>, id: PageId) {
    && (r.Some? ==> r.value.id == id)
    && after == if r.Some? then before + multiset{r.value} else before
  }

  /** For the policy with `k` of at least 2 a request fails exactly when 64 other pages are held. */
  ghost predicate Got(before: multiset<Pin>, after: multiset<Pin>, r: Option<Pin>, id: PageId) {
    && Served(before, after, r, id)
    && (r.Some? <==> id in Held(before) || |Held(before)| < CACHE_SIZE)
  }

  lemma {:induction false} ServesUnlessHeld(c: Cache, k: nat, id: PageId)
    requires Consistent(c) && k >= 2
    ensures CanServe(c, k, id) <==> id in Held(c.live) || |Held(c.live)| < CACHE_SIZE
  {
    Requested(c);
    if id in c.table {
      FoundHeld(c, id);
    }
  }

  /** The access to frame `i` at time `ts` is recorded and pins it once more: behind its earlier accesses when it was found
      `cached`, as its first one otherwise. */
  ghost predicate Accessed(before: Nodes, after: Nodes, ts: nat, i: FrameId, cached: bool) {
    && (cached ==> i in before)
    && after == before[i := if cached then before[i].(history := before[i].history + [ts], pin := before[i].pin + 1)
                            else LRUKNode(i, [ts], 1)]
  }

  class PageCache {
    const frames: array<Frame>
    const free: FL.FreeList
    const replacer: LRUKReplacer
    var table: Table
    var disk: Disk
    var nextPageId: PageId

    /** The handles given out and not yet dropped. */
    ghost var live: multiset<Pin>

    /** Pages removed from the cache; they must not be fetched again. */
    ghost var removed: set<PageId>

    ghost function Repr(): set<object> {
      {this, frames, free, free.free, replacer}
    }

    ghost predicate Sound()
      reads Repr()
    {
      && frames.Length == CACHE_SIZE
      && free.Valid() && free.free.Length == CACHE_SIZE
      && replacer.Valid()
    }

    ghost function Now(): (c: Cache)
      reads Repr()
      requires Sound()
      ensures c == Cache(frames[..], table, free.Contents(), nextPageId, removed, disk, replacer.nodes, live)
    {
      Cache(frames[..], table, free.Contents(), nextPageId, removed, disk, replacer.nodes, live)
    }

    ghost predicate Valid()
      reads Repr()
    {
      Sound() && Consistent(Now())
    }

    constructor (disk: Disk, k: nat, nextPageId: PageId)
      requires k >= 1 && nextPageId >= 0
      ensures Valid() && fresh(Repr())
      ensures this.nextPageId == nextPageId && live == multiset{} && removed == {} && replacer.k == k
      ensures forall q :: Shown(Now(), q) == DiskRead(disk, q)
    {
      frames := new Frame[CACHE_SIZE](_ => Frame(-1, false, Blank()));
      free := new FL.FreeList(CACHE_SIZE);
      replacer := new LRUKReplacer(k);
      table, this.disk, this.nextPageId := map[], disk, nextPageId;
      live, removed := multiset{}, {};
      new;
      Started(frames[..], free.Contents(), nextPageId, disk);
    }

    /** A handle on a page of its own. The page id is used up even when no frame is left. */
    method NewPage() returns (r: Option<Pin>)
      requires Valid()
      modifies Repr()
      ensures Valid() && nextPageId == old(nextPageId) + 1 && removed == old(removed)
      ensures r.Some? <==> CanServe(old(Now()), replacer.k, old(nextPageId))
      ensures Served(old(live), live, r, old(nextPageId)) && (replacer.k >= 2 ==> Got(old(live), live, r, old(nextPageId)))
      ensures r.None? ==> Now() == old(Now()).(next := nextPageId) && replacer.currentTs == old(replacer.currentTs)
      ensures r.Some? ==> Accessed(old(replacer.nodes), replacer.nodes, old(replacer.currentTs), r.value.i, false)
      ensures r.Some? ==>
                CameIn(old(TimesOf(Now())), old(Unheld(Now())), replacer.k, old(replacer.currentTs), old(nextPageId), TimesOf(Now()))
      ensures SamePages(old(Now()), Now(), removed)
    {
      hide Consistent, View, Held, CameIn, Recent;
      Allocated(Now());
      if replacer.k >= 2 {
        ServesUnlessHeld(Now(), replacer.k, nextPageId);
      }
      var id := nextPageId;
      nextPageId := nextPageId + 1;
      r := TryGetPage(id);
    }

    /** A handle on page `id`. */
    method FetchPage(id: PageId) returns (r: Option<Pin>)
      requires Valid() && 0 <= id < nextPageId && id !in removed
      modifies Repr()
      ensures Valid() && nextPageId == old(nextPageId) && removed == old(removed)
      ensures r.Some? <==> CanServe(old(Now()), replacer.k, id)
      ensures Served(old(live), live, r, id) && (replacer.k >= 2 ==> Got(old(live), live, r, id))
      ensures r.None? ==> Now() == old(Now()) && replacer.currentTs == old(replacer.currentTs)
      ensures r.Some? ==> Accessed(old(replacer.nodes), replacer.nodes, old(replacer.currentTs), r.value.i, id in old(table))
      ensures r.Some? ==> CameIn(old(TimesOf(Now())), old(Unheld(Now())), replacer.k, old(replacer.currentTs), id, TimesOf(Now()))
      ensures SamePages(old(Now()), Now(), removed)
    {
      hide Consistent, View, Held, LRUKReplacer.Valid, Accessed, CameIn, TimesOf, Unheld;
      if replacer.k >= 2 {
        ServesUnlessHeld(Now(), replacer.k, id);
      }
      if id in table {
        var i := table[id];
        var p := Hit(id, i);
        r := Some(p);
      } else {
        r := TryGetPage(id);
      }
    }

    /** The page is cached in frame `i`. */
    method Hit(id: PageId, i: FrameId) returns (p: Pin)
      requires Valid() && id in table && i == table[id]
      modifies Repr()
      ensures Valid() && nextPageId == old(nextPageId) && removed == old(removed)
      ensures Served(old(live), live, Some(p), id) && p.i == i
      ensures Accessed(old(replacer.nodes), replacer.nodes, old(replacer.currentTs), i, true)
      ensures CameIn(old(TimesOf(Now())), old(Unheld(Now())), replacer.k, old(replacer.currentTs), id, TimesOf(Now()))
      ensures SamePages(old(Now()), Now(), {})
    {
      hide Consistent, View, Held, LRUKReplacer.Valid, CameIn, TimesOf, Unheld;
      ghost var c := Now();
      CachedFrame(c, id);
      replacer.RecordAccess(i);
      replacer.Pin(i);
      Pinned(c, id, replacer.nodes[i]);
      assert c.nodes[i := replacer.nodes[i]] == replacer.nodes;
      p := Pin(i, id);
      live := live + multiset{p};
      FoundCameIn(c, id, replacer.nodes[i], replacer.k, old(replacer.currentTs), Now());
    }

    /** Put page `id` into a free frame, or else into the frame that the replacement policy gives up. */
    method TryGetPage(id: PageId) returns (r: Option<Pin>)
      requires Valid() && 0 <= id < nextPageId && id !in removed && id !in table
      modifies Repr()
      ensures Valid() && nextPageId == old(nextPageId) && removed == old(removed)
      ensures r.Some? <==> CanServe(old(Now()), replacer.k, id)
      ensures Served(old(live), live, r, id)
      ensures r.Some? ==> Accessed(old(replacer.nodes), replacer.nodes, old(replacer.currentTs), r.value.i, false)
      ensures r.Some? ==> CameIn(old(TimesOf(Now())), old(Unheld(Now())), replacer.k, old(replacer.currentTs), id, TimesOf(Now()))
      ensures SamePages(old(Now()), Now(), removed)
      ensures r.Some? && old(free.Contents()) == [] ==> Victim(old(replacer.nodes), replacer.k, r.value.i)
      ensures r.None? ==> Now() == old(Now()) && replacer.currentTs == old(replacer.currentTs)
    {
      hide Consistent, View, Held, LRUKReplacer.Valid, Accessed, CameIn, TimesOf, Unheld;
      ghost var c := Now();
      var i := TakeFrame();
      match i {
        case None => r := None;
        case Some(f) =>
          var p := Load(f, id, c);
          r := Some(p);
      }
    }

    /** A frame off the free list, or one to give up. */
    method TakeFrame() returns (r: Option<FrameId>)
      requires Valid()
      modifies free
      ensures Sound()
      ensures r.Some? <==> old(free.Contents()) != [] || (replacer.k >= 2 && exists i :: Free(replacer.nodes, i))
      ensures r.Some? ==>
                if old(free.Contents()) == [] then Victim(replacer.nodes, replacer.k, r.value) && free.Contents() == []
                else r == Some(old(Last(free.Contents()))) && free.Contents() == old(free.Contents())[..|old(free.Contents())| - 1]
      ensures r.None? ==> free.Contents() == old(free.Contents())
    {
      hide Consistent, Victim;
      r := free.Pop();
      if r.None? {
        r := replacer.Evict();
      }
    }

    static ghost function Last(s: seq<FrameId>): FrameId
      requires s != []
    {
      s[|s| - 1]
    }

    /** Give frame `i`, taken out of state `c`, to page `id`: write back what is dirty, swap the table entries, read the page. */
    method Load(i: FrameId, id: PageId, ghost c: Cache) returns (p: Pin)
      requires Consistent(c) && 0 <= id < c.next && id !in c.removed && id !in c.table
      requires if c.free == [] then Free(c.nodes, i) && Victim(c.nodes, replacer.k, i) else i == Last(c.free)
      requires Sound() && Now() == c.(free := if c.free == [] then [] else c.free[..|c.free| - 1])
      modifies Repr() - {free, free.free}
      ensures Valid() && p == Pin(i, id) && live == c.live + multiset{p} && nextPageId == c.next && removed == c.removed
      ensures SamePages(c, Now(), removed)
      ensures Accessed(c.nodes, replacer.nodes, old(replacer.currentTs), i, false)
      ensures CameIn(TimesOf(c), Unheld(c), replacer.k, old(replacer.currentTs), id, TimesOf(Now()))
      ensures var f := old(frames[i]); disk == if f.dirty then old(disk)[f.id := f.data] else old(disk)
    {
      hide Consistent, SamePages, LRUKReplacer.Valid, FL.FreeList.Valid, CameIn, TimesOf, Unheld, Victim, Free, DiskRead;
      ghost var n := LRUKNode(i, [replacer.currentTs], 1);
      Rebound(c, i, id, n);
      ReboundCameIn(c, i, id, n, replacer.k, replacer.currentTs);
      Track(i);
      WriteBack(i);
      hide WrittenBack;
      table := table - {frames[i].id};
      table := table[id := i];
      frames[i] := Frame(id, false, DiskRead(disk, id));
      p := Pin(i, id);
      live := live + multiset{p};
      assert Now() == Rebind(c, i, id, n);
    }

    method WriteBack(i: FrameId)
      requires i < frames.Length
      modifies this`disk
      ensures disk == WrittenBack(old(disk), frames[i])
      ensures disk == if frames[i].dirty then old(disk)[frames[i].id := frames[i].data] else old(disk)
    {
      if frames[i].dirty {
        disk := disk[frames[i].id := frames[i].data];
      }
    }

    /** Track frame `i` afresh, with one access and one pin. */
    method Track(i: FrameId)
      requires Sound()
      modifies replacer
      ensures Sound() && replacer.nodes == old(replacer.nodes)[i := LRUKNode(i, [old(replacer.currentTs)], 1)]
    {
      hide LRUKReplacer.Valid;
      replacer.Remove(i);
      replacer.RecordAccess(i);
      replacer.Pin(i);
    }

    /** Drop a handle. */
    method Unpin(p: Pin)
      requires Valid() && p in live
      modifies this`live, replacer
      ensures Valid() && live == old(live) - multiset{p} && nextPageId == old(nextPageId) && removed == old(removed)
      ensures SamePages(old(Now()), Now(), {}) && TimesOf(Now()) == old(TimesOf(Now()))
      ensures p.i in old(replacer.nodes) && replacer.currentTs == old(replacer.currentTs)
      ensures replacer.nodes == old(replacer.nodes)[p.i := old(replacer.nodes)[p.i].(pin := old(replacer.nodes)[p.i].pin - 1)]
    {
      hide Consistent, Shown, SamePages, LRUKReplacer.Valid, TimesOf;
      ghost var c := Now();
      PinnedOnce(c, p);
      ghost var n := c.nodes[p.i].(pin := c.nodes[p.i].pin - 1);
      Unpinned(c, p, n);
      replacer.Unpin(p.i);
      live := live - multiset{p};
      assert Now() == c.(nodes := c.nodes[p.i := n], live := c.live - multiset{p});
      PinKept(c, Now(), p.i);
    }

    /** Read through a handle: its frame still holds its page. */
    method Read(p: Pin) returns (data: PageBuf)
      requires Valid() && p in live
      ensures frames.Length > p.i && frames[p.i].id == p.id && data == Shown(Now(), p.id)
    {
      hide Consistent, View;
      LiveInTable(Now(), p);
      data := frames[p.i].data;
    }

    /** Write through a handle, marking the page dirty: its frame still holds its page. */
    method Write(p: Pin, data: PageBuf)
      requires Valid() && p in live
      modifies frames
      ensures Valid() && live == old(live) && nextPageId == old(nextPageId) && removed == old(removed)
      ensures forall q :: Shown(Now(), q) == if q == p.id then data else Shown(old(Now()), q)
    {
      hide Consistent, View;
      ghost var c := Now();
      LiveInTable(c, p);
      Overwritten(c, p.id, data);
      assert frames[p.i].id == p.id;
      frames[p.i] := Frame(frames[p.i].id, true, data);
      assert frames[..] == c.frames[p.i := Frame(p.id, true, data)];
    }

    /** Write a cached page to disk. */
    method FlushPage(id: PageId)
      requires Valid()
      modifies frames, this`disk
      ensures Valid() && live == old(live) && nextPageId == old(nextPageId) && removed == old(removed) && table == old(table)
      ensures SamePages(old(Now()), Now(), {})
      ensures id in table ==> DiskRead(disk, id) == Shown(Now(), id)
      ensures forall q :: q != id ==> DiskRead(disk, q) == old(DiskRead(disk, q))
    {
      hide Consistent, View;
      if id !in table {
        return;
      }
      ghost var c := Now();
      Flushed(c, id);
      var i := table[id];
      disk := disk[frames[i].id := frames[i].data];
      frames[i] := frames[i].(dirty := false);
      assert frames[..] == c.frames[i := c.frames[i].(dirty := false)];
    }

    /** Afterwards the disk holds every page. */
    method FlushAllPages()
      requires Valid()
      modifies frames, this`disk
      ensures Valid() && live == old(live) && nextPageId == old(nextPageId) && removed == old(removed)
      ensures SamePages(old(Now()), Now(), {}) && forall q :: DiskRead(disk, q) == Shown(Now(), q)
    {
      hide Consistent;
      var rest := table.Keys;
      while exists q :: q in rest
        invariant Valid() && live == old(live) && nextPageId == old(nextPageId) && removed == old(removed) && table == old(table)
        invariant SamePages(old(Now()), Now(), {})
        invariant forall q :: q in table && q !in rest ==> DiskRead(disk, q) == Shown(Now(), q)
        decreases |rest|
      {
        var id :| id in rest;
        FlushPage(id);
        rest := rest - {id};
      }
    }

    /** Forget a page that nobody holds; its frame becomes free. */
    method RemovePage(id: PageId)
      requires Valid() && id !in Held(live)
      modifies this`table, this`removed, free, free.free, replacer
      ensures Valid() && live == old(live) && nextPageId == old(nextPageId)
      ensures removed == old(removed) + if id in old(table) then {id} else {}
      ensures SamePages(old(Now()), Now(), removed) && TimesOf(Now()) == old(TimesOf(Now())) - {id}
    {
      hide Consistent, View, Held, LRUKReplacer.Valid, TimesOf;
      TimesKeys(Now());
      if id !in table {
        return;
      }
      ghost var c := Now();
      CachedFrame(c, id);
      Forgotten(c, id);
      var i := table[id];
      table := table - {id};
      replacer.Remove(i);
      free.Push(i);
      removed := removed + {id};
      PageForgotten(c, id, Now());
    }
  }
}
