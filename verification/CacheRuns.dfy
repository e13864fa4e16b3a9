/** Whole runs of the page cache answer as a plain map of pages does, whatever is evicted on the way. */
module CacheRuns {
  import opened Options
  import opened Buffers
  import opened PageStore
  import opened PagePolicy
  import opened PageCache

  /** Requests of a client that keeps its handles in a list; `slot` names one of them. */
  datatype Op =
    | New
    | Fetch(id: PageId)
    | Look(slot: nat)
    | Put(slot: nat, data: PageBuf)
    | Drop(slot: nat)
    | Flush(id: PageId)
    | FlushAll
    | Remove(id: PageId)

  datatype Answer = Shows(id: PageId, data: PageBuf) | OutOfMemory | Done

  /** The reference: pages by id, the next page id, the pages the client holds, and the pages it removed. */
  datatype Store = Store(pages: Disk, next: PageId, held: seq<PageId>, gone: set<PageId>)

  ghost function Ids(held: seq<PageId>): set<PageId> {
    set id | id in held
  }

  /** Another page can be had: it is held already, or fewer than 64 pages are. */
  ghost predicate Room(s: Store, id: PageId) {
    id in s.held || |Ids(s.held)| < 64
  }

  function Without<T>(s: seq<T>, i: nat): seq<T>
    requires i < |s|
  {
    s[..i] + s[i + 1..]
  }

  ghost predicate Allowed(s: Store, op: Op) {
    match op
    case Fetch(id) => 0 <= id < s.next && id !in s.gone
    case Look(slot) => slot < |s.held|
    case Put(slot, _) => slot < |s.held|
    case Drop(slot) => slot < |s.held|
    case Remove(id) => id !in s.held
    case _ => true
  }

  ghost function Open(s: Store, id: PageId): (Store, Answer) {
    if Room(s, id) then (s.(held := s.held + [id]), Shows(id, DiskRead(s.pages, id))) else (s, OutOfMemory)
  }

  ghost function Step(s: Store, op: Op): (Store, Answer)
    requires Allowed(s, op)
  {
    match op
    case New => Open(s.(next := s.next + 1), s.next)
    case Fetch(id) => Open(s, id)
    case Look(slot) => (s, Shows(s.held[slot], DiskRead(s.pages, s.held[slot])))
    case Put(slot, data) => (s.(pages := s.pages[s.held[slot] := data]), Done)
    case Drop(slot) => (s.(held := Without(s.held, slot)), Done)
    case Flush(_) => (s, Done)
    case FlushAll => (s, Done)
    case Remove(id) => (s.(gone := s.gone + if id < s.next then {id} else {}), Done)
  }

  ghost predicate AllAllowed(s: Store, ops: seq<Op>)
    decreases |ops|
  {
    |ops| > 0 ==> Allowed(s, ops[0]) && AllAllowed(Step(s, ops[0]).0, ops[1..])
  }

  ghost function Answers(s: Store, ops: seq<Op>): seq<Answer>
    requires AllAllowed(s, ops)
    decreases |ops|
  {
    if |ops| == 0 then [] else [Step(s, ops[0]).1] + Answers(Step(s, ops[0]).0, ops[1..])
  }

  // ---------------------------------------------------------------- the cache follows the reference

  ghost predicate HoldsIds(pins: seq<Pin>, held: seq<PageId>) {
    |pins| == |held| && forall i :: 0 <= i < |pins| ==> pins[i].id == held[i]
  }

  /** The cache shows the reference's pages, except removed ones, and its live handles are the client's. */
  ghost predicate Matches(c: Cache, pins: seq<Pin>, s: Store) {
    && c.live == multiset(pins) && HoldsIds(pins, s.held)
    && c.next == s.next && c.removed <= s.gone
    && (forall id :: id in s.held ==> id !in s.gone)
    && (forall id :: id in s.gone ==> id < s.next)
    && forall q :: q !in s.gone ==> Shown(c, q) == DiskRead(s.pages, q)
  }

  ghost predicate Follows(cache: PageCache, pins: seq<Pin>, s: Store)
    reads cache.Repr()
  {
    cache.Valid() && cache.replacer.k >= 2 && Matches(cache.Now(), pins, s)
  }

  lemma {:induction false} SlotHeld(c: Cache, pins: seq<Pin>, s: Store, slot: nat)
    requires Matches(c, pins, s) && slot < |s.held|
    ensures |pins| == |s.held| && pins[slot] in c.live
  {
    assert pins[slot] in multiset(pins);
  }

  lemma {:induction false} DropMatches(c: Cache, c': Cache, pins: seq<Pin>, s: Store, slot: nat)
    requires Matches(c, pins, s) && slot < |s.held|
    requires c'.live == c.live - multiset{pins[slot]} && c'.next == c.next && c'.removed == c.removed && SamePages(c, c', {})
    ensures Matches(c', Without(pins, slot), s.(held := Without(s.held, slot)))
  {
    WithoutOne(pins, s.held, slot);
    hide HoldsIds, Shown, DiskRead, Without;
  }

  lemma {:induction false} HeldIds(pins: seq<Pin>, held: seq<PageId>)
    requires HoldsIds(pins, held)
    ensures Held(multiset(pins)) == Ids(held)
    ensures forall id :: id in Held(multiset(pins)) <==> id in held
  {
    forall id | id in held ensures id in Held(multiset(pins)) {
      var i :| 0 <= i < |held| && held[i] == id;
      assert pins[i] in multiset(pins);
    }
    forall p | p in multiset(pins) ensures p.id in held {
      assert p in pins;
    }
  }

  lemma {:induction false} WithoutOne(pins: seq<Pin>, held: seq<PageId>, i: nat)
    requires HoldsIds(pins, held) && i < |pins|
    ensures HoldsIds(Without(pins, i), Without(held, i))
    ensures multiset(Without(pins, i)) == multiset(pins) - multiset{pins[i]}
    ensures forall id :: id in Without(held, i) ==> id in held
  {
    assert pins == pins[..i] + [pins[i]] + pins[i + 1..];
  }

  lemma {:induction false} OneMore(pins: seq<Pin>, held: seq<PageId>, p: Pin)
    requires HoldsIds(pins, held)
    ensures HoldsIds(pins + [p], held + [p.id]) && multiset(pins + [p]) == multiset(pins) + multiset{p}
  {
  }

  method Do(cache: PageCache, pins: seq<Pin>, op: Op, ghost s: Store) returns (pins': seq<Pin>, a: Answer)
    requires Follows(cache, pins, s) && Allowed(s, op)
    modifies cache.Repr()
    ensures Follows(cache, pins', Step(s, op).0) && a == Step(s, op).1
  {
    hide Follows, Allowed, Step;
    match op {
      case New => pins', a := DoNew(cache, pins, op, s);
      case Fetch(_) => pins', a := DoFetch(cache, pins, op, s);
      case Look(_) => pins', a := DoLook(cache, pins, op, s);
      case Put(_, _) => pins', a := DoPut(cache, pins, op, s);
      case Drop(_) => pins', a := DoDrop(cache, pins, op, s);
      case Flush(_) => pins', a := DoFlush(cache, pins, op, s);
      case FlushAll => pins', a := DoFlushAll(cache, pins, op, s);
      case Remove(_) => pins', a := DoRemove(cache, pins, op, s);
    }
  }

  method DoNew(cache: PageCache, pins: seq<Pin>, op: Op, ghost s: Store) returns (pins': seq<Pin>, a: Answer)
    requires Follows(cache, pins, s) && Allowed(s, op) && op.New?
    modifies cache.Repr()
    ensures Follows(cache, pins', Step(s, op).0) && a == Step(s, op).1
  {
    hide Consistent, CameIn, TimesOf, Unheld, Accessed, CanServe;
    var r := cache.NewPage();
    pins', a := Opened(cache, pins, r, s.(next := s.next + 1), s.next);
  }

  method DoFetch(cache: PageCache, pins: seq<Pin>, op: Op, ghost s: Store) returns (pins': seq<Pin>, a: Answer)
    requires Follows(cache, pins, s) && Allowed(s, op) && op.Fetch?
    modifies cache.Repr()
    ensures Follows(cache, pins', Step(s, op).0) && a == Step(s, op).1
  {
    hide Consistent, CameIn, TimesOf, Unheld, Accessed, CanServe;
    var r := cache.FetchPage(op.id);
    pins', a := Opened(cache, pins, r, s, op.id);
  }

  method DoLook(cache: PageCache, pins: seq<Pin>, op: Op, ghost s: Store) returns (pins': seq<Pin>, a: Answer)
    requires Follows(cache, pins, s) && Allowed(s, op) && op.Look?
    modifies cache.Repr()
    ensures Follows(cache, pins', Step(s, op).0) && a == Step(s, op).1
  {
    hide Consistent;
    var data := cache.Read(pins[op.slot]);
    pins', a := pins, Shows(pins[op.slot].id, data);
  }

  method DoPut(cache: PageCache, pins: seq<Pin>, op: Op, ghost s: Store) returns (pins': seq<Pin>, a: Answer)
    requires Follows(cache, pins, s) && Allowed(s, op) && op.Put?
    modifies cache.Repr()
    ensures Follows(cache, pins', Step(s, op).0) && a == Step(s, op).1
  {
    hide Consistent;
    cache.Write(pins[op.slot], op.data);
    pins', a := pins, Done;
  }

  method DoDrop(cache: PageCache, pins: seq<Pin>, op: Op, ghost s: Store) returns (pins': seq<Pin>, a: Answer)
    requires Follows(cache, pins, s) && Allowed(s, op) && op.Drop?
    modifies cache.Repr()
    ensures Follows(cache, pins', Step(s, op).0) && a == Step(s, op).1
  {
    ghost var c := cache.Now();
    SlotHeld(c, pins, s, op.slot);
    assert Step(s, op) == (s.(held := Without(s.held, op.slot)), Done);
    hide Consistent, Matches, Without, Step, Allowed, SamePages, Held, TimesOf;
    cache.Unpin(pins[op.slot]);
    DropMatches(c, cache.Now(), pins, s, op.slot);
    pins', a := Without(pins, op.slot), Done;
  }

  method DoFlush(cache: PageCache, pins: seq<Pin>, op: Op, ghost s: Store) returns (pins': seq<Pin>, a: Answer)
    requires Follows(cache, pins, s) && Allowed(s, op) && op.Flush?
    modifies cache.Repr()
    ensures Follows(cache, pins', Step(s, op).0) && a == Step(s, op).1
  {
    hide Consistent;
    cache.FlushPage(op.id);
    pins', a := pins, Done;
  }

  method DoFlushAll(cache: PageCache, pins: seq<Pin>, op: Op, ghost s: Store) returns (pins': seq<Pin>, a: Answer)
    requires Follows(cache, pins, s) && Allowed(s, op) && op.FlushAll?
    modifies cache.Repr()
    ensures Follows(cache, pins', Step(s, op).0) && a == Step(s, op).1
  {
    hide Consistent;
    cache.FlushAllPages();
    pins', a := pins, Done;
  }

  method DoRemove(cache: PageCache, pins: seq<Pin>, op: Op, ghost s: Store) returns (pins': seq<Pin>, a: Answer)
    requires Follows(cache, pins, s) && Allowed(s, op) && op.Remove?
    modifies cache.Repr()
    ensures Follows(cache, pins', Step(s, op).0) && a == Step(s, op).1
  {
    hide Consistent, Held, HoldsIds, Shown, TimesOf;
    NotHeld(pins, s.held, op.id);
    CachedBelow(cache, op.id);
    cache.RemovePage(op.id);
    pins', a := pins, Done;
  }

  lemma {:induction false} NotHeld(pins: seq<Pin>, held: seq<PageId>, id: PageId)
    requires HoldsIds(pins, held) && id !in held
    ensures id !in Held(multiset(pins))
  {
    HeldIds(pins, held);
  }

  lemma {:induction false} CachedBelow(cache: PageCache, id: PageId)
    requires cache.Valid()
    ensures id in cache.table ==> id < cache.nextPageId
  {
    if id in cache.table {
      CachedFrame(cache.Now(), id);
    }
  }

  /** Keep the handle and look at its page. */
  method Opened(cache: PageCache, pins: seq<Pin>, r: Option<Pin>, ghost s: Store,
                ghost id: PageId) returns (pins': seq<Pin>, a: Answer)
    requires cache.Valid() && cache.replacer.k >= 2 && id !in s.gone && Got(multiset(pins), cache.live, r, id)
    requires HoldsIds(pins, s.held) && cache.nextPageId == s.next && cache.removed <= s.gone
    requires forall id :: id in s.held ==> id !in s.gone
    requires forall id :: id in s.gone ==> id < s.next
    requires forall q :: q !in s.gone ==> Shown(cache.Now(), q) == DiskRead(s.pages, q)
    ensures Follows(cache, pins', Open(s, id).0) && a == Open(s, id).1
  {
    hide Consistent, Held;
    HeldIds(pins, s.held);
    match r {
      case None => return pins, OutOfMemory;
      case Some(p) =>
        OneMore(pins, s.held, p);
        pins' := pins + [p];
        var data := cache.Read(p);
        a := Shows(p.id, data);
        assert forall q :: q in s.held + [id] ==> q in s.held || q == id;
    }
  }

  /**
   * For every history of requests, every disk and every `k` of at least 2: the cache answers as the plain map of pages does. In
   * particular a fetched page shows what was last written to it, and a request is refused exactly when 64 other pages
   * are held.
   */
  method Run(disk: Disk, k: nat, next: PageId, ops: seq<Op>) returns (answers: seq<Answer>)
    requires k >= 2 && next >= 0
    requires AllAllowed(Store(disk, next, [], {}), ops)
    ensures answers == Answers(Store(disk, next, [], {}), ops)
  {
    hide Consistent, Step, Allowed;
    ghost var s0 := Store(disk, next, [], {});
    ghost var s := s0;
    var cache := new PageCache(disk, k, next);
    var pins: seq<Pin> := [];
    answers := [];
    var i := 0;
    assert Follows(cache, pins, s);
    assert ops[0..] == ops;
    while i < |ops|
      invariant 0 <= i <= |ops| && fresh(cache.Repr())
      invariant Follows(cache, pins, s) && AllAllowed(s, ops[i..])
      invariant Answers(s0, ops) == answers + Answers(s, ops[i..])
    {
      hide Follows, Answers, AllAllowed;
      AnswersNext(s, ops, i, answers);
      var a: Answer;
      pins, a := Do(cache, pins, ops[i], s);
      s := Step(s, ops[i]).0;
      answers := answers + [a];
      i := i + 1;
    }
    assert ops[i..] == [] && Answers(s, ops[i..]) == [];
    assert answers + [] == answers;
  }

  lemma {:induction false} AnswersNext(s: Store, ops: seq<Op>, i: nat, answers: seq<Answer>)
    requires i < |ops| && AllAllowed(s, ops[i..])
    ensures Allowed(s, ops[i]) && AllAllowed(Step(s, ops[i]).0, ops[i + 1..])
    ensures answers + Answers(s, ops[i..]) == (answers + [Step(s, ops[i]).1]) + Answers(Step(s, ops[i]).0, ops[i + 1..])
  {
    assert ops[i..][0] == ops[i] && ops[i..][1..] == ops[i + 1..];
  }
}
