/** The replacement policy as a cache's client sees it: pages and the times at which they were asked for. */
module PagePolicy {
  import opened Options
  import opened Replacer
  import opened PageStore

  ghost function Recent(table: Table, nodes: Nodes): Histories {
    map id | id in table :: if table[id] in nodes then nodes[table[id]].history else []
  }

  /** When each cached page was asked for, since it was read from disk. */
  ghost function TimesOf(c: Cache): Histories {
    Recent(c.table, c.nodes)
  }

  /** The same for the pages that nobody holds. */
  ghost function Unheld(c: Cache): Histories {
    TimesOf(c) - Held(c.live)
  }

  /**
   * What a request for page `id` at time `ts` makes of the cached pages: a cached one stays; another one comes in, and with 64
   * pages cached the one goes that the policy chooses among those that nobody holds.
   */
  ghost predicate CameIn(h: Histories, unheld: Histories, k: nat, ts: nat, id: PageId, h': Histories) {
    if id in h then h' == h[id := h[id] + [ts]]
    else if |h| < 64 then h' == h[id := [ts]]
    else exists v :: Choice(unheld, k, v) && v in h && h' == (h - {v})[id := [ts]]
  }

  ghost function UsedFrames(c: Cache): set<FrameId> {
    set id | id in c.table :: c.table[id]
  }

  /** Each cached page is in a frame of its own, which is tracked. */
  lemma {:induction false} CachedFrames(c: Cache)
    requires Consistent(c)
    ensures |c.frames| == CACHE_SIZE
    ensures forall id :: id in c.table ==>
              && c.table[id] < CACHE_SIZE && c.frames[c.table[id]].id == id && c.table[id] !in c.free && c.table[id] in c.nodes
    ensures forall i: FrameId :: i < CACHE_SIZE ==> (i in c.free <==> i !in UsedFrames(c))
  {
    forall id | id in c.table
      ensures c.table[id] < CACHE_SIZE && c.frames[c.table[id]].id == id && c.table[id] !in c.free && c.table[id] in c.nodes
    {
      CachedFrame(c, id);
    }
    forall i: FrameId | i < CACHE_SIZE && i !in c.free ensures i in UsedFrames(c) {
      assert InTable(c.frames, c.table, i);
    }
  }

  lemma {:induction false} CachedCount(c: Cache)
    requires Consistent(c)
    ensures |TimesOf(c)| <= CACHE_SIZE && (|TimesOf(c)| == CACHE_SIZE <==> c.free == [])
  {
    hide *;
    CachedFrames(c);
    InRange(c);
    RecentKeys(c.table, c.nodes);
    UsedCount(c.frames, c.table, c.free, UsedFrames(c));
    TimesAre(c);
  }

  lemma {:induction false} InRange(c: Cache)
    requires Consistent(c)
    ensures forall i :: i in c.free ==> i < CACHE_SIZE
    ensures UsedFrames(c) == set id | id in c.table :: c.table[id]
  {
  }

  lemma {:induction false} TimesAre(c: Cache)
    ensures TimesOf(c) == Recent(c.table, c.nodes)
  {
  }

  lemma {:induction false} RecentKeys(table: Table, nodes: Nodes)
    ensures Recent(table, nodes).Keys == table.Keys && |Recent(table, nodes)| == |table.Keys|
  {
    assert Recent(table, nodes).Keys == table.Keys;
  }

  lemma {:induction false} UsedCount(fs: seq<Frame>, table: Table, fl: seq<FrameId>, used: set<FrameId>)
    requires |fs| == CACHE_SIZE && used == set id | id in table :: table[id]
    requires forall id :: id in table ==> table[id] < CACHE_SIZE && fs[table[id]].id == id
    requires forall i: FrameId :: i < CACHE_SIZE ==> (i in fl <==> i !in used)
    requires forall i :: i in fl ==> i < CACHE_SIZE
    ensures |table.Keys| <= CACHE_SIZE && (|table.Keys| == CACHE_SIZE <==> fl == [])
  {
    hide AllFrames;
    var all := AllFrames(CACHE_SIZE);
    assert |fl| > 0 ==> fl[0] in fl;
    forall id | id in table ensures table[id] in used && fs[table[id]].id == id {
    }
    forall i | i in used ensures fs[i].id in table && table[fs[i].id] == i {
      var id :| id in table && table[id] == i;
    }
    HeldSizes(fs, used, table.Keys);
    SubsetSize(used, all);
  }

  /** A free frame's page is not cached. */
  lemma {:induction false} FreeFrame(c: Cache, i: FrameId)
    requires Consistent(c) && i in c.free
    ensures i < CACHE_SIZE == |c.frames| && c.frames[i].id !in c.table
  {
    assert c.frames[i].id in c.removed || c.frames[i].id == -1;
  }

  /** Frames that are not pinned hold the pages that nobody holds. */
  lemma {:induction false} UnpinnedIsUnheld(c: Cache, i: FrameId)
    requires Consistent(c)
    ensures |c.frames| == CACHE_SIZE
    ensures Free(c.nodes, i) <==> i < CACHE_SIZE && c.frames[i].id in Unheld(c) && c.table[c.frames[i].id] == i
    ensures i < CACHE_SIZE && c.frames[i].id in Unheld(c) && c.table[c.frames[i].id] == i ==>
              Unheld(c)[c.frames[i].id] == c.nodes[i].history
  {
    CachedFrames(c);
    if i in c.nodes {
      var id := c.frames[i].id;
      assert InTable(c.frames, c.table, i);
      assert c.nodes[i].pin == c.live[Pin(i, id)];
      if id in Held(c.live) {
        var p :| p in c.live && p.id == id;
        LiveInTable(c, p);
        assert p == Pin(i, id);
      }
      if Free(c.nodes, i) {
        assert Pin(i, id) !in c.live;
      } else {
        assert Pin(i, id) in c.live;
      }
    }
  }

  /** The frame that the policy gives up holds the page that it chooses. */
  lemma {:induction false} VictimPage(c: Cache, k: nat, i: FrameId)
    requires Consistent(c) && Victim(c.nodes, k, i)
    ensures i < CACHE_SIZE == |c.frames| && c.frames[i].id in c.table && c.table[c.frames[i].id] == i
    ensures Choice(Unheld(c), k, c.frames[i].id)
  {
    var hs, gs := FreeHistories(c.nodes), Unheld(c);
    UnpinnedIsUnheld(c, i);
    forall id | id in gs ensures c.table[id] in hs && c.frames[c.table[id]].id == id && hs[c.table[id]] == gs[id] {
      CachedFrame(c, id);
      UnpinnedIsUnheld(c, c.table[id]);
    }
    forall j: FrameId | j in hs ensures j < CACHE_SIZE && c.frames[j].id in gs && gs[c.frames[j].id] == hs[j] {
      UnpinnedIsUnheld(c, j);
    }
    hide Consistent, NoFarther, Sooner, FreeHistories, Unheld;
  }

  /** Reading page `id` into frame `i`, free or given up. */
  lemma {:induction false} ReboundCameIn(c: Cache, i: FrameId, id: PageId, n: LRUKNode, k: nat, ts: nat)
    requires Consistent(c) && id !in c.table && n.history == [ts]
    requires if c.free == [] then Victim(c.nodes, k, i) else i == c.free[|c.free| - 1]
    ensures i < |c.frames| && CameIn(TimesOf(c), Unheld(c), k, ts, id, TimesOf(Rebind(c, i, id, n)))
  {
    hide Consistent, TimesOf, Unheld, Choice, Rebind, Victim;
    CachedCount(c);
    TimesKeys(c);
    if c.free == [] {
      VictimPage(c, k, i);
    } else {
      assert i in c.free;
      FreeFrame(c, i);
    }
    Swapped(c, i, id, n);
  }

  lemma {:induction false} TimesKeys(c: Cache)
    ensures TimesOf(c).Keys == c.table.Keys
  {
  }

  lemma {:induction false} Swapped(c: Cache, i: FrameId, id: PageId, n: LRUKNode)
    requires Consistent(c) && id !in c.table && i < CACHE_SIZE == |c.frames|
    ensures TimesOf(Rebind(c, i, id, n)) == (TimesOf(c) - {c.frames[i].id})[id := n.history]
  {
    hide *;
    CachedFrames(c);
    TimesAre(c);
    TimesAre(Rebind(c, i, id, n));
    RebindParts(c, i, id, n);
    RecentSwapped(c.table, c.nodes, c.frames[i].id, i, id, n);
  }

  lemma {:induction false} RebindParts(c: Cache, i: FrameId, id: PageId, n: LRUKNode)
    requires i < |c.frames|
    ensures Rebind(c, i, id, n).table == (c.table - {c.frames[i].id})[id := i] && Rebind(c, i, id, n).nodes == c.nodes[i := n]
  {
  }

  lemma {:induction false} RecentSwapped(table: Table, nodes: Nodes, f: PageId, i: FrameId, id: PageId, n: LRUKNode)
    requires id !in table && forall q :: q in table && q != f ==> table[q] != i
    ensures Recent((table - {f})[id := i], nodes[i := n]) == (Recent(table, nodes) - {f})[id := n.history]
  {
    var h, g := Recent((table - {f})[id := i], nodes[i := n]), (Recent(table, nodes) - {f})[id := n.history];
    assert h.Keys == g.Keys;
    forall q | q in h ensures h[q] == g[q] {
    }
  }

  /** Finding page `id` in its frame. */
  lemma {:induction false} FoundCameIn(c: Cache, id: PageId, n: LRUKNode, k: nat, ts: nat, c': Cache)
    requires Consistent(c) && id in c.table && c.table[id] in c.nodes
    requires n.history == c.nodes[c.table[id]].history + [ts]
    requires c'.table == c.table && c'.nodes == c.nodes[c.table[id] := n]
    ensures CameIn(TimesOf(c), Unheld(c), k, ts, id, TimesOf(c'))
  {
    hide Consistent, UsedFrames, Unheld, Choice;
    CachedFrames(c);
    RecentFound(c.table, c.nodes, id, n, ts);
    hide Recent;
  }

  lemma {:induction false} RecentFound(table: Table, nodes: Nodes, id: PageId, n: LRUKNode, ts: nat)
    requires id in table && table[id] in nodes && n.history == nodes[table[id]].history + [ts]
    requires forall q :: q in table && q != id ==> table[q] != table[id]
    ensures id in Recent(table, nodes)
    ensures Recent(table, nodes[table[id] := n]) == Recent(table, nodes)[id := Recent(table, nodes)[id] + [ts]]
  {
    var h, g := Recent(table, nodes[table[id] := n]), Recent(table, nodes)[id := Recent(table, nodes)[id] + [ts]];
    assert h.Keys == g.Keys;
    forall q | q in h ensures h[q] == g[q] {
    }
  }

  /** Dropping a handle leaves the times as they are. */
  lemma {:induction false} PinKept(c: Cache, c': Cache, i: FrameId)
    requires c'.table == c.table && i in c.nodes && i in c'.nodes
    requires c'.nodes == c.nodes[i := c'.nodes[i]] && c'.nodes[i].history == c.nodes[i].history
    ensures TimesOf(c') == TimesOf(c)
  {
  }

  /** A removed page's times are forgotten. */
  lemma {:induction false} PageForgotten(c: Cache, id: PageId, c': Cache)
    requires Consistent(c) && id in c.table && c'.table == c.table - {id} && c'.nodes == c.nodes - {c.table[id]}
    ensures TimesOf(c') == TimesOf(c) - {id}
  {
    hide Consistent, UsedFrames;
    CachedFrames(c);
    RecentForgotten(c.table, c.nodes, id);
    hide Recent;
  }

  lemma {:induction false} RecentForgotten(table: Table, nodes: Nodes, id: PageId)
    requires id in table && forall q :: q in table && q != id ==> table[q] != table[id]
    ensures Recent(table - {id}, nodes - {table[id]}) == Recent(table, nodes) - {id}
  {
    var h, g := Recent(table - {id}, nodes - {table[id]}), Recent(table, nodes) - {id};
    assert h.Keys == g.Keys;
    forall q | q in h ensures h[q] == g[q] {
    }
  }
}
