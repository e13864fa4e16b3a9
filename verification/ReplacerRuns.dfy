/** Histories of the replacement policy: which frame it gives up, in terms of the accesses there were. */
module ReplacerRuns {
  import opened Options
  import opened Replacer

  datatype Event = Access(i: FrameId) | Hold(i: FrameId) | Release(i: FrameId) | Forget(i: FrameId)

  /** The number of accesses so far. */
  function Clock(es: seq<Event>): nat {
    if |es| == 0 then 0 else Clock(es[..|es| - 1]) + if es[|es| - 1].Access? then 1 else 0
  }

  /** The numbers of the accesses to frame `i` since it was forgotten last. */
  function Times(es: seq<Event>, i: FrameId): seq<nat> {
    if |es| == 0 then []
    else
      var before, e := es[..|es| - 1], es[|es| - 1];
      if e == Access(i) then Times(before, i) + [Clock(before)]
      else if e == Forget(i) then []
      else Times(before, i)
  }

  /** How often frame `i` was pinned without being unpinned, since it was first accessed after it was forgotten last. */
  function Pins(es: seq<Event>, i: FrameId): int {
    if |es| == 0 then 0
    else
      var before, e := es[..|es| - 1], es[|es| - 1];
      if e == Forget(i) then 0
      else if e == Hold(i) && Times(before, i) != [] then Pins(before, i) + 1
      else if e == Release(i) && Times(before, i) != [] then Pins(before, i) - 1
      else Pins(before, i)
  }

  ghost predicate NoneBelow(es: seq<Event>) {
    forall i :: Pins(es, i) >= 0
  }

  /** No frame is unpinned more often than it was pinned. */
  ghost predicate Allowed(es: seq<Event>) {
    forall n :: 0 <= n <= |es| ==> NoneBelow(es[..n])
  }

  /** Frame `i` is known and not pinned. */
  ghost predicate Loose(es: seq<Event>, i: FrameId) {
    Times(es, i) != [] && Pins(es, i) == 0
  }

  /** The accesses of the frames that are known and not pinned. */
  ghost predicate MayGo(es: seq<Event>, hs: Histories) {
    && (forall i: FrameId :: i in hs <==> Loose(es, i))
    && (forall i :: i in hs ==> hs[i] == Times(es, i))
  }

  lemma {:induction false} Snoc(es: seq<Event>, n: nat, i: FrameId)
    requires n < |es|
    ensures var before, e := es[..n], es[n];
            && Clock(es[..n + 1]) == Clock(before) + (if e.Access? then 1 else 0)
            && Times(es[..n + 1], i) == (if e == Access(i) then Times(before, i) + [Clock(before)]
                                         else if e == Forget(i) then [] else Times(before, i))
            && Pins(es[..n + 1], i) == (if e == Forget(i) then 0
                                        else if e == Hold(i) && Times(before, i) != [] then Pins(before, i) + 1
                                        else if e == Release(i) && Times(before, i) != [] then Pins(before, i) - 1
                                        else Pins(before, i))
  {
    assert es[..n + 1][..n] == es[..n];
  }

  /** The replacer knows what happened to frame `i`. */
  ghost predicate KnowsOf(es: seq<Event>, nodes: Nodes, i: FrameId) {
    if i in nodes then
      Times(es, i) != [] && nodes[i].history == Times(es, i) && nodes[i].pin as int == Pins(es, i)
    else
      Times(es, i) == [] && Pins(es, i) == 0
  }

  ghost predicate Knows(es: seq<Event>, nodes: Nodes, now: nat) {
    now == Clock(es) && forall i :: KnowsOf(es, nodes, i)
  }

  /** What an event makes of the tracked frames. */
  ghost predicate Noted(nodes: Nodes, now: nat, e: Event, nodes': Nodes, now': nat) {
    && now' == now + (if e.Access? then 1 else 0)
    && (forall j :: j != e.i ==> (j in nodes' <==> j in nodes) && (j in nodes ==> nodes'[j] == nodes[j]))
    && match e
       case Access(i) =>
         && i in nodes'
         && nodes'[i] == (if i in nodes then nodes[i].(history := nodes[i].history + [now]) else LRUKNode(i, [now], 0))
       case Hold(i) => (i in nodes' <==> i in nodes) && (i in nodes ==> nodes'[i] == nodes[i].(pin := nodes[i].pin + 1))
       case Release(i) =>
         (i in nodes' <==> i in nodes) && (i in nodes ==> nodes[i].pin > 0 && nodes'[i] == nodes[i].(pin := nodes[i].pin - 1))
       case Forget(i) => i !in nodes'
  }

  lemma {:induction false} NotedKnown(es: seq<Event>, n: nat, nodes: Nodes, now: nat, nodes': Nodes, now': nat)
    requires n < |es| && Knows(es[..n], nodes, now) && Noted(nodes, now, es[n], nodes', now')
    ensures Knows(es[..n + 1], nodes', now')
  {
    var more := es[..n + 1];
    forall i ensures KnowsOf(more, nodes', i) {
      Snoc(es, n, i);
      assert KnowsOf(es[..n], nodes, i);
      hide Times, Pins, Clock;
    }
    Snoc(es, n, es[n].i);
  }

  /**
   * After any history of accesses, pins, unpins and removals the frame given up is the policy's choice by the accesses there
   * were; none is given up exactly when no known frame is unpinned, or when `k` is 1.
   */
  method Run(k: nat, es: seq<Event>) returns (r: Option<FrameId>)
    requires k >= 1 && Allowed(es)
    ensures r.Some? <==> k >= 2 && exists i :: Loose(es, i)
    ensures r.Some? ==> exists hs :: MayGo(es, hs) && Choice(hs, k, r.value)
  {
    var lru := new LRUKReplacer(k);
    var n := 0;
    assert Knows([], map[], 0) && es[..0] == [];
    while n < |es|
      invariant 0 <= n <= |es| && lru.Valid() && lru.k == k && fresh(lru)
      invariant Knows(es[..n], lru.nodes, lru.currentTs)
    {
      hide *;
      Step(lru, es, n);
      n := n + 1;
    }
    assert es[..n] == es;
    r := lru.Evict();
    Chosen(es, lru.nodes, lru.currentTs);
    hide Times, Pins, Choice, KnowsOf, Tracked, Loose;
  }

  lemma {:induction false} Chosen(es: seq<Event>, nodes: Nodes, now: nat)
    requires Knows(es, nodes, now)
    ensures MayGo(es, FreeHistories(nodes))
    ensures (exists i :: Free(nodes, i)) <==> exists i :: Loose(es, i)
  {
    forall i: FrameId ensures Free(nodes, i) <==> Loose(es, i) {
      assert KnowsOf(es, nodes, i);
    }
    forall i: FrameId | i in FreeHistories(nodes) ensures FreeHistories(nodes)[i] == Times(es, i) {
      assert KnowsOf(es, nodes, i);
    }
    forall i: FrameId ensures i in FreeHistories(nodes) <==> Free(nodes, i) {
    }
    hide Loose, Free;
  }

  method Step(lru: LRUKReplacer, es: seq<Event>, n: nat)
    requires lru.Valid() && n < |es| && Allowed(es) && Knows(es[..n], lru.nodes, lru.currentTs)
    modifies lru
    ensures lru.Valid() && Knows(es[..n + 1], lru.nodes, lru.currentTs)
  {
    ghost var nodes, now := lru.nodes, lru.currentTs;
    PinnedEnough(es, n, nodes, now);
    hide Knows, Tracked, Allowed, Noted;
    Do(lru, es[n]);
    NotedKnown(es, n, nodes, now, lru.nodes, lru.currentTs);
  }

  method Do(lru: LRUKReplacer, e: Event)
    requires lru.Valid() && (e.Release? && e.i in lru.nodes ==> lru.nodes[e.i].pin > 0)
    modifies lru
    ensures lru.Valid() && Noted(old(lru.nodes), old(lru.currentTs), e, lru.nodes, lru.currentTs)
  {
    hide Tracked;
    match e {
      case Access(i) => lru.RecordAccess(i);
      case Hold(i) => lru.Pin(i);
      case Release(i) => lru.Unpin(i);
      case Forget(i) => lru.Remove(i);
    }
  }

  lemma {:induction false} PinnedEnough(es: seq<Event>, n: nat, nodes: Nodes, now: nat)
    requires n < |es| && Allowed(es) && Knows(es[..n], nodes, now)
    ensures es[n].Release? && es[n].i in nodes ==> nodes[es[n].i].pin > 0
  {
    var i := es[n].i;
    assert KnowsOf(es[..n], nodes, i) && NoneBelow(es[..n + 1]);
    Snoc(es, n, i);
    assert Pins(es[..n + 1], i) >= 0;
  }
}
