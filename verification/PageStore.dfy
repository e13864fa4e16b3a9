/** What a page cache shows: pages in frames where cached, on disk otherwise. */
module PageStore {
  import opened Options
  import opened Buffers
  import opened Replacer

  const CACHE_SIZE: nat := 64

  type PageId = int

  /** A frame of the cache. */
  datatype Frame = Frame(id: PageId, dirty: bool, data: PageBuf)

  /** A handle on a cached page that keeps it from being evicted. */
  datatype Pin = Pin(i: FrameId, id: PageId)

  type Disk = map<PageId, PageBuf>

  /** A page never written reads as zeros. */
  function DiskRead(disk: Disk, id: PageId): PageBuf {
    if id in disk then disk[id] else Blank()
  }

  type Table = map<PageId, FrameId>

  ghost predicate InTable(fs: seq<Frame>, table: Table, i: FrameId)
    requires i < |fs|
  {
    fs[i].id in table && table[fs[i].id] == i
  }

  /**
   * Every frame is either on the free list, once, or holds the page that the page table says it holds. A free frame has
   * never been used, or keeps what is left of a removed page.
   */
  ghost predicate Layout(fs: seq<Frame>, table: Table, fl: seq<FrameId>, next: PageId, removed: set<PageId>) {
    && |fs| == CACHE_SIZE && next >= 0
    && (forall a, b :: 0 <= a < b < |fl| ==> fl[a] != fl[b])
    && (forall a :: 0 <= a < |fl| ==> fl[a] < CACHE_SIZE)
    && (forall id :: id in table ==> 0 <= id < next && table[id] < CACHE_SIZE && fs[table[id]].id == id)
    && (forall id :: id in table ==> id !in removed)
    && (forall id :: id in removed ==> 0 <= id < next)
    && (forall i :: 0 <= i < CACHE_SIZE ==> (i in fl <==> !InTable(fs, table, i)))
    && (forall i :: i in fl ==> fs[i].id in removed || (fs[i].id == -1 && !fs[i].dirty))
  }

  /** A cached page that is not dirty is what the disk holds. */
  ghost predicate CleanOnDisk(fs: seq<Frame>, table: Table, disk: Disk)
    requires |fs| == CACHE_SIZE
  {
    forall id :: id in table && table[id] < CACHE_SIZE && !fs[table[id]].dirty ==> fs[table[id]].data == DiskRead(disk, id)
  }

  /** Exactly the frames that are not free are tracked, with as many pins as there are live handles, all for the page the
      frame holds. */
  ghost predicate PinsCounted(fs: seq<Frame>, fl: seq<FrameId>, nodes: Nodes, live: multiset<Pin>)
    requires |fs| == CACHE_SIZE
  {
    && (forall i: FrameId :: i in nodes <==> i < CACHE_SIZE && i !in fl)
    && (forall p :: p in live ==> p.i in nodes && p.i < CACHE_SIZE && fs[p.i].id == p.id)
    && (forall i :: i in nodes && i < CACHE_SIZE ==> nodes[i].pin == live[Pin(i, fs[i].id)])
  }

  ghost function View(fs: seq<Frame>, table: Table, disk: Disk, id: PageId): PageBuf {
    if id in table && table[id] < |fs| then fs[table[id]].data else DiskRead(disk, id)
  }

  // ---------------------------------------------------------------- giving a frame to another page

  function WrittenBack(disk: Disk, f: Frame): Disk {
    if f.dirty then disk[f.id := f.data] else disk
  }

  function Loaded(disk: Disk, f: Frame, id: PageId): Frame {
    Frame(id, false, DiskRead(WrittenBack(disk, f), id))
  }

  /** Frame `i` is taken from the free list or given up. */
  ghost predicate Available(fs: seq<Frame>, table: Table, fl: seq<FrameId>, fl': seq<FrameId>, i: FrameId)
    requires |fs| == CACHE_SIZE
  {
    && i < CACHE_SIZE
    && if InTable(fs, table, i) then fl' == fl else |fl| > 0 && i == fl[|fl| - 1] && fl' == fl[..|fl| - 1]
  }

  lemma {:induction false} RebindLayout(fs: seq<Frame>, table: Table, fl: seq<FrameId>, next: PageId, removed: set<PageId>,
                                        fl': seq<FrameId>, i: FrameId, id: PageId, f: Frame)
    requires Layout(fs, table, fl, next, removed) && Available(fs, table, fl, fl', i)
    requires 0 <= id < next && id !in table && id !in removed && f.id == id
    ensures Layout(fs[i := f], (table - {fs[i].id})[id := i], fl', next, removed)
    ensures forall j :: 0 <= j < CACHE_SIZE ==> (j in fl' <==> j in fl && j != i)
  {
    var table' := (table - {fs[i].id})[id := i];
    assert forall j :: j in fl' <==> j in fl && j != i;
    forall j | 0 <= j < CACHE_SIZE && j != i ensures InTable(fs[i := f], table', j) <==> InTable(fs, table, j) {
    }
  }

  /** No page changes for the reader, except what is left of removed pages. */
  lemma {:induction false} RebindView(fs: seq<Frame>, table: Table, fl: seq<FrameId>, next: PageId,
                                      removed: set<PageId>, disk: Disk,
                                      i: FrameId, id: PageId)
    requires Layout(fs, table, fl, next, removed) && CleanOnDisk(fs, table, disk) && i < CACHE_SIZE
    requires 0 <= id < next && id !in table && id !in removed
    ensures var disk', f := WrittenBack(disk, fs[i]), Loaded(disk, fs[i], id);
            var table' := (table - {fs[i].id})[id := i];
            && CleanOnDisk(fs[i := f], table', disk')
            && forall q :: q !in removed ==> View(fs[i := f], table', disk', q) == View(fs, table, disk, q)
  {
    var disk', f := WrittenBack(disk, fs[i]), Loaded(disk, fs[i], id);
    var table' := (table - {fs[i].id})[id := i];
    assert fs[i].id != id;
    forall q | q in table' && q != id
      ensures q in table && table'[q] == table[q] != i && fs[i := f][table'[q]] == fs[table[q]]
      ensures DiskRead(disk', q) == DiskRead(disk, q)
    {
    }
    forall q | q !in removed ensures View(fs[i := f], table', disk', q) == View(fs, table, disk, q) {
    }
  }

  // ---------------------------------------------------------------- pins

  lemma {:induction false} PinAdded(fs: seq<Frame>, fl: seq<FrameId>, nodes: Nodes, live: multiset<Pin>, p: Pin, n: LRUKNode)
    requires |fs| == CACHE_SIZE && PinsCounted(fs, fl, nodes, live)
    requires p.i in nodes && fs[p.i].id == p.id && n.pin == nodes[p.i].pin + 1
    ensures PinsCounted(fs, fl, nodes[p.i := n], live + multiset{p})
  {
  }

  lemma {:induction false} PinDropped(fs: seq<Frame>, fl: seq<FrameId>, nodes: Nodes, live: multiset<Pin>, p: Pin)
    requires |fs| == CACHE_SIZE && PinsCounted(fs, fl, nodes, live) && p in live
    ensures p.i in nodes && nodes[p.i].pin > 0
    ensures forall n: LRUKNode :: n.pin == nodes[p.i].pin - 1 ==> PinsCounted(fs, fl, nodes[p.i := n], live - multiset{p})
  {
  }

  /** The frame of an unpinned page changes hands: no live handle is affected. */
  lemma {:induction false} PinsRebound(fs: seq<Frame>, fl: seq<FrameId>, nodes: Nodes, live: multiset<Pin>,
                                       fl': seq<FrameId>, i: FrameId, f: Frame, n: LRUKNode)
    requires |fs| == CACHE_SIZE && PinsCounted(fs, fl, nodes, live) && i < CACHE_SIZE && (i in nodes ==> nodes[i].pin == 0)
    requires forall j :: 0 <= j < CACHE_SIZE ==> (j in fl' <==> j in fl && j != i)
    requires n.pin == 1
    ensures PinsCounted(fs[i := f], fl', nodes[i := n], live + multiset{Pin(i, f.id)})
  {
    forall p | p in live ensures p.i != i {
      assert p == Pin(p.i, fs[p.i].id) && nodes[p.i].pin > 0;
    }
    assert live[Pin(i, f.id)] == 0;
  }

  /** Pages with a live handle. */
  ghost function Held(live: multiset<Pin>): set<PageId> {
    set p | p in live :: p.id
  }

  ghost function HeldFrames(live: multiset<Pin>): set<FrameId> {
    set p | p in live :: p.i
  }

  ghost function AllFrames(n: nat): (s: set<FrameId>)
    ensures |s| == n && forall i: FrameId :: i in s <==> i < n
  {
    if n == 0 then {}
    else
      var rest := AllFrames(n - 1);
      assert n - 1 !in rest;
      rest + {n - 1}
  }

  lemma {:induction false} SubsetSize<T>(a: set<T>, b: set<T>)
    requires a <= b
    ensures |a| <= |b| && (|a| == |b| <==> a == b)
    decreases a
  {
    if x :| x in a {
      SubsetSize(a - {x}, b - {x});
    } else {
      assert a == {};
      if |b| == 0 {
        assert b == {};
      }
    }
  }

  /** As many pages are held as frames, since a frame holds one page and a page is in one frame. */
  lemma {:induction false} HeldSizes(fs: seq<Frame>, hf: set<FrameId>, h: set<PageId>)
    requires forall i :: i in hf ==> i < |fs|
    requires forall i, j :: i in hf && j in hf && fs[i].id == fs[j].id ==> i == j
    requires h == set i | i in hf :: fs[i].id
    ensures |h| == |hf|
    decreases hf
  {
    if i :| i in hf {
      var hf', h' := hf - {i}, h - {fs[i].id};
      assert h' == set j | j in hf' :: fs[j].id;
      HeldSizes(fs, hf', h');
    } else {
      assert hf == {} && h == {};
    }
  }

  lemma {:induction false} HeldCount(fs: seq<Frame>, table: Table, fl: seq<FrameId>, next: PageId, removed: set<PageId>,
                                     nodes: Nodes, live: multiset<Pin>)
    requires Layout(fs, table, fl, next, removed) && PinsCounted(fs, fl, nodes, live)
    ensures |Held(live)| == |HeldFrames(live)|
  {
    var hf := HeldFrames(live);
    forall i, j | i in hf && j in hf && fs[i].id == fs[j].id ensures i == j {
      assert i !in fl && j !in fl;
      assert InTable(fs, table, i) && InTable(fs, table, j);
    }
    hide Layout;
    assert Held(live) == set i | i in hf :: fs[i].id by {
      forall p | p in live ensures p.id == fs[p.i].id && p.i in hf {
      }
    }
    HeldSizes(fs, hf, Held(live));
  }

  lemma {:induction false} PinnedIsHeld(fs: seq<Frame>, fl: seq<FrameId>, nodes: Nodes, live: multiset<Pin>, i: FrameId)
    requires |fs| == CACHE_SIZE && PinsCounted(fs, fl, nodes, live) && i in nodes
    ensures nodes[i].pin > 0 <==> i in HeldFrames(live)
  {
    if i in HeldFrames(live) {
      var p :| p in live && p.i == i;
      assert p == Pin(i, fs[i].id);
    } else {
      assert Pin(i, fs[i].id) !in live;
    }
  }

  /** No frame can be had exactly when `CACHE_SIZE` pages are held. */
  lemma {:induction false} NoFrameLeft(fs: seq<Frame>, table: Table, fl: seq<FrameId>, next: PageId,
                                       removed: set<PageId>, nodes: Nodes, live: multiset<Pin>)
    requires Layout(fs, table, fl, next, removed) && PinsCounted(fs, fl, nodes, live)
    ensures |Held(live)| <= CACHE_SIZE
    ensures fl == [] && !(exists i :: Free(nodes, i)) <==> |Held(live)| == CACHE_SIZE
  {
    hide AllFrames;
    var hf, all := HeldFrames(live), AllFrames(CACHE_SIZE);
    HeldCount(fs, table, fl, next, removed, nodes, live);
    assert forall i :: i in fl ==> i < CACHE_SIZE;
    hide Layout;
    assert hf <= all;
    SubsetSize(hf, all);
    forall i | i in nodes ensures nodes[i].pin > 0 <==> i in hf {
      PinnedIsHeld(fs, fl, nodes, live, i);
    }
    AllHeld(fl, nodes, hf, all);
  }

  lemma {:induction false} AllHeld(fl: seq<FrameId>, nodes: Nodes, hf: set<FrameId>, all: set<FrameId>)
    requires forall i: FrameId :: i in nodes <==> i in all && i !in fl
    requires forall i :: i in fl ==> i in all
    requires hf <= nodes.Keys && forall i :: i in nodes ==> (nodes[i].pin > 0 <==> i in hf)
    ensures fl == [] && !(exists i :: Free(nodes, i)) <==> hf == all
  {
    if |fl| > 0 {
      assert fl[0] in fl && fl[0] !in hf;
    } else if hf == all {
      assert forall i :: i in all ==> !Free(nodes, i);
    } else {
      if i :| i in all && i !in hf {
        assert Free(nodes, i);
      }
    }
  }

  // ---------------------------------------------------------------- the steps of the cache

  /** The state of a cache: frames, page table, free list, next page id, removed pages, disk, tracked frames, live handles. */
  datatype Cache = Cache(frames: seq<Frame>, table: Table, free: seq<FrameId>, next: PageId, removed: set<PageId>, disk: Disk,
                         nodes: Nodes, live: multiset<Pin>)

  ghost predicate Consistent(c: Cache) {
    && Layout(c.frames, c.table, c.free, c.next, c.removed)
    && CleanOnDisk(c.frames, c.table, c.disk)
    && PinsCounted(c.frames, c.free, c.nodes, c.live)
  }

  ghost function Shown(c: Cache, id: PageId): PageBuf {
    View(c.frames, c.table, c.disk, id)
  }

  /** All pages but the ones in `except` read as before. */
  ghost predicate SamePages(c: Cache, c': Cache, except: set<PageId>) {
    forall q :: q !in except ==> Shown(c', q) == Shown(c, q)
  }

  lemma {:induction false} Started(fs: seq<Frame>, fl: seq<FrameId>, next: PageId, disk: Disk)
    requires |fs| == CACHE_SIZE && (forall i :: 0 <= i < CACHE_SIZE ==> fs[i] == Frame(-1, false, Blank()))
    requires |fl| == CACHE_SIZE && (forall i :: 0 <= i < CACHE_SIZE ==> fl[i] == i)
    requires next >= 0
    ensures Consistent(Cache(fs, map[], fl, next, {}, disk, map[], multiset{}))
  {
    forall i | 0 <= i < CACHE_SIZE ensures i in fl {
      assert fl[i] == i;
    }
  }

  lemma {:induction false} Allocated(c: Cache)
    requires Consistent(c)
    ensures Consistent(c.(next := c.next + 1))
    ensures c.next !in c.table && c.next !in c.removed && c.next >= 0 && c.next !in Held(c.live)
  {
    forall p | p in c.live ensures p.id < c.next {
      LiveInTable(c, p);
    }
  }

  /** A live handle's frame holds its page. */
  lemma {:induction false} LiveInTable(c: Cache, p: Pin)
    requires Consistent(c) && p in c.live
    ensures p.i < CACHE_SIZE == |c.frames| && c.frames[p.i].id == p.id && p.id in c.table && c.table[p.id] == p.i && p.i in c.nodes
    ensures 0 <= p.id < c.next && p.id !in c.removed && Shown(c, p.id) == c.frames[p.i].data
  {
    assert p.i in c.nodes;
    assert InTable(c.frames, c.table, p.i);
  }

  lemma {:induction false} CachedFrame(c: Cache, id: PageId)
    requires Consistent(c) && id in c.table
    ensures c.table[id] < CACHE_SIZE == |c.frames| && c.frames[c.table[id]].id == id
    ensures c.table[id] in c.nodes && c.table[id] !in c.free
    ensures 0 <= id < c.next && id !in c.removed && Shown(c, id) == c.frames[c.table[id]].data
  {
    assert InTable(c.frames, c.table, c.table[id]);
  }

  /** A page with a handle is cached; no frame can be had exactly when 64 pages are held. */
  lemma {:induction false} Requested(c: Cache)
    requires Consistent(c)
    ensures |Held(c.live)| <= CACHE_SIZE && (c.free == [] && !(exists i :: Free(c.nodes, i)) <==> |Held(c.live)| == CACHE_SIZE)
    ensures forall id :: id in Held(c.live) ==> id in c.table
  {
    NoFrameLeft(c.frames, c.table, c.free, c.next, c.removed, c.nodes, c.live);
    forall p | p in c.live ensures p.id in c.table {
      LiveInTable(c, p);
    }
  }

  /** A page that is found cached while 64 pages are held is held itself. */
  lemma {:induction false} FoundHeld(c: Cache, id: PageId)
    requires Consistent(c) && id in c.table
    ensures id in Held(c.live) || |Held(c.live)| < CACHE_SIZE
  {
    CachedFrame(c, id);
    Requested(c);
    var i := c.table[id];
    assert c.nodes[i].pin == c.live[Pin(i, id)];
    if |Held(c.live)| == CACHE_SIZE {
      assert !Free(c.nodes, i);
      assert Pin(i, id) in c.live;
    }
  }

  lemma {:induction false} Pinned(c: Cache, id: PageId, n: LRUKNode)
    requires Consistent(c) && id in c.table && c.table[id] in c.nodes && n.pin == c.nodes[c.table[id]].pin + 1
    ensures Consistent(c.(nodes := c.nodes[c.table[id] := n], live := c.live + multiset{Pin(c.table[id], id)}))
  {
    CachedFrame(c, id);
    PinAdded(c.frames, c.free, c.nodes, c.live, Pin(c.table[id], id), n);
  }

  /** The frame of a live handle is pinned. */
  lemma {:induction false} PinnedOnce(c: Cache, p: Pin)
    requires Consistent(c) && p in c.live
    ensures p.i in c.nodes && c.nodes[p.i].pin > 0
  {
    PinDropped(c.frames, c.free, c.nodes, c.live, p);
  }

  lemma {:induction false} Unpinned(c: Cache, p: Pin, n: LRUKNode)
    requires Consistent(c) && p in c.live && p.i in c.nodes && n.pin == c.nodes[p.i].pin - 1
    ensures var c' := c.(nodes := c.nodes[p.i := n], live := c.live - multiset{p}); Consistent(c') && SamePages(c, c', {})
  {
    PinDropped(c.frames, c.free, c.nodes, c.live, p);
  }

  /** Frame `i`, popped off the free list or given up, now holds page `id`. */
  ghost function Rebind(c: Cache, i: FrameId, id: PageId, n: LRUKNode): Cache
    requires i < |c.frames|
  {
    var f := c.frames[i];
    Cache(c.frames[i := Loaded(c.disk, f, id)], (c.table - {f.id})[id := i], if c.free == [] then [] else c.free[..|c.free| - 1],
          c.next, c.removed, WrittenBack(c.disk, f), c.nodes[i := n], c.live + multiset{Pin(i, id)})
  }

  lemma {:induction false} Rebound(c: Cache, i: FrameId, id: PageId, n: LRUKNode)
    requires Consistent(c) && 0 <= id < c.next && id !in c.removed && id !in c.table && n.pin == 1
    requires if c.free == [] then Free(c.nodes, i) else i == c.free[|c.free| - 1]
    ensures i < CACHE_SIZE == |c.frames|
    ensures Consistent(Rebind(c, i, id, n)) && SamePages(c, Rebind(c, i, id, n), c.removed)
  {
    var f, c' := Loaded(c.disk, c.frames[i], id), Rebind(c, i, id, n);
    assert |c.free| > 0 ==> c.free[|c.free| - 1] in c.free;
    assert i in c.nodes <==> |c.free| == 0;
    assert Available(c.frames, c.table, c.free, c'.free, i);
    hide Layout, CleanOnDisk, PinsCounted, Available, View, DiskRead;
    RebindLayout(c.frames, c.table, c.free, c.next, c.removed, c'.free, i, id, f);
    RebindView(c.frames, c.table, c.free, c.next, c.removed, c.disk, i, id);
    PinsRebound(c.frames, c.free, c.nodes, c.live, c'.free, i, f, n);
  }

  lemma {:induction false} SameIds(c: Cache, fs: seq<Frame>)
    requires |fs| == |c.frames| == CACHE_SIZE && forall j :: 0 <= j < CACHE_SIZE ==> fs[j].id == c.frames[j].id
    requires forall j :: 0 <= j < CACHE_SIZE && j in c.free ==> fs[j] == c.frames[j]
    requires Layout(c.frames, c.table, c.free, c.next, c.removed) && PinsCounted(c.frames, c.free, c.nodes, c.live)
    ensures Layout(fs, c.table, c.free, c.next, c.removed) && PinsCounted(fs, c.free, c.nodes, c.live)
  {
    assert forall j :: 0 <= j < CACHE_SIZE ==> (InTable(fs, c.table, j) <==> InTable(c.frames, c.table, j));
  }

  lemma {:induction false} Overwritten(c: Cache, id: PageId, data: PageBuf)
    requires Consistent(c) && id in c.table
    ensures c.table[id] < |c.frames|
    ensures var c' := c.(frames := c.frames[c.table[id] := Frame(id, true, data)]);
            Consistent(c') && forall q :: Shown(c', q) == if q == id then data else Shown(c, q)
  {
    CachedFrame(c, id);
    SameIds(c, c.frames[c.table[id] := Frame(id, true, data)]);
  }

  lemma {:induction false} Flushed(c: Cache, id: PageId)
    requires Consistent(c) && id in c.table
    ensures c.table[id] < |c.frames| && c.frames[c.table[id]].id == id
    ensures var f := c.frames[c.table[id]];
            var c' := c.(frames := c.frames[c.table[id] := f.(dirty := false)], disk := c.disk[id := f.data]);
            Consistent(c') && SamePages(c, c', {}) && DiskRead(c'.disk, id) == Shown(c, id)
  {
    CachedFrame(c, id);
    var f := c.frames[c.table[id]];
    SameIds(c, c.frames[c.table[id] := f.(dirty := false)]);
  }

  lemma {:induction false} Forgotten(c: Cache, id: PageId)
    requires Consistent(c) && id in c.table && id !in Held(c.live)
    ensures |c.free| < CACHE_SIZE
    ensures var i := c.table[id];
            var c' := c.(table := c.table - {id}, free := c.free + [i], removed := c.removed + {id}, nodes := c.nodes - {i});
            Consistent(c') && SamePages(c, c', {id})
  {
    var i, table' := c.table[id], c.table - {id};
    FreeRoom(c, id);
    ForgottenLayout(c, id);
    assert forall j :: j in c.free + [i] <==> j in c.free || j == i;
    forall p | p in c.live ensures p.i != i {
      LiveInTable(c, p);
    }
    hide Layout;
  }

  lemma {:induction false} ForgottenLayout(c: Cache, id: PageId)
    requires Consistent(c) && id in c.table
    ensures Layout(c.frames, c.table - {id}, c.free + [c.table[id]], c.next, c.removed + {id})
    ensures CleanOnDisk(c.frames, c.table - {id}, c.disk)
  {
    var i, table' := c.table[id], c.table - {id};
    FreeRoom(c, id);
    assert forall j :: 0 <= j < CACHE_SIZE && j != i ==> (InTable(c.frames, table', j) <==> InTable(c.frames, c.table, j));
  }

  /** A cached page's frame is not listed as free. */
  lemma {:induction false} FreeRoom(c: Cache, id: PageId)
    requires Consistent(c) && id in c.table
    ensures c.table[id] < CACHE_SIZE && c.table[id] !in c.free && |c.free| < CACHE_SIZE
  {
    CachedFrame(c, id);
    Room(c.free, c.table[id]);
  }

  /** A list of distinct frames that misses one is not full. */
  lemma {:induction false} Room(fl: seq<FrameId>, i: FrameId)
    requires forall a, b :: 0 <= a < b < |fl| ==> fl[a] != fl[b]
    requires forall a :: 0 <= a < |fl| ==> fl[a] < CACHE_SIZE
    requires i < CACHE_SIZE && i !in fl
    ensures |fl| < CACHE_SIZE
  {
    hide AllFrames;
    DistinctSize(fl);
    assert Members(fl) + {i} <= AllFrames(CACHE_SIZE);
    SubsetSize(Members(fl) + {i}, AllFrames(CACHE_SIZE));
  }

  ghost function Members(fl: seq<FrameId>): set<FrameId> {
    set f | f in fl
  }

  lemma {:induction false} DistinctSize(fl: seq<FrameId>)
    requires forall a, b :: 0 <= a < b < |fl| ==> fl[a] != fl[b]
    ensures |Members(fl)| == |fl|
  {
    if |fl| == 0 {
      assert Members(fl) == {};
    } else {
      var n := |fl| - 1;
      DistinctSize(fl[..n]);
      assert fl == fl[..n] + [fl[n]];
      assert Members(fl) == Members(fl[..n]) + {fl[n]};
    }
  }
}
