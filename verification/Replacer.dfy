/** The LRU-K replacement policy: which unpinned frame to give up. */
module Replacer {
  import opened Options

  type FrameId = nat

  /** A tracked frame: the times of its accesses and the number of pins on it. */
  datatype LRUKNode = LRUKNode(i: FrameId, history: seq<nat>, pin: nat)

  type Nodes = map<FrameId, LRUKNode>

  /** Time between the latest access and the `k`-th latest; none with fewer accesses. */
  function KDistance(n: LRUKNode, k: nat): (d: Option<int>)
    requires |n.history| > 0 && k > 0
  {
    var len := |n.history|;
    if len < k then None else Some(n.history[len - 1] as int - n.history[len - k])
  }

  function LastAccess(n: LRUKNode): nat
    requires |n.history| > 0
  {
    n.history[|n.history| - 1]
  }

  // ---------------------------------------------------------------- what the policy asks, in recorded times

  ghost predicate Latest(h: seq<nat>, t: nat) {
    t in h && forall x :: x in h ==> x <= t
  }

  ghost function Later(h: seq<nat>, t: nat): set<nat> {
    set x | x in h && x > t
  }

  /** `t` was recorded, and `k - 1` later times were. */
  ghost predicate KthLatest(h: seq<nat>, k: nat, t: nat) {
    t in h && |Later(h, t)| == k - 1
  }

  /** The time between the `k`-th latest access and the latest. */
  ghost predicate Distance(h: seq<nat>, k: nat, d: nat) {
    exists m, t :: Latest(h, m) && KthLatest(h, k, t) && d + t == m
  }

  ghost predicate NoFarther(h: seq<nat>, g: seq<nat>, k: nat) {
    exists d, e :: Distance(h, k, d) && Distance(g, k, e) && d <= e
  }

  ghost predicate Sooner(h: seq<nat>, g: seq<nat>) {
    exists m, n :: Latest(h, m) && Latest(g, n) && m < n
  }

  /** The accesses of the frames, or pages, that may be given up. */
  type Histories = map<int, seq<nat>>

  /** What the policy asks of the frame given up: the largest distance among those with at least `k` accesses; without such a
      frame, the earliest latest access. */
  ghost predicate Choice(hs: Histories, k: nat, i: int) {
    && i in hs
    && if exists j :: j in hs && |hs[j]| >= k then
         |hs[i]| >= k && forall j :: j in hs && |hs[j]| >= k ==> NoFarther(hs[j], hs[i], k)
       else
         forall j :: j in hs && j != i ==> Sooner(hs[i], hs[j])
  }

  lemma {:induction false} LatestIs(n: LRUKNode, now: nat, t: nat)
    requires Recorded(n.history, now)
    ensures Latest(n.history, t) <==> t == LastAccess(n)
  {
    var h := n.history;
    assert h[|h| - 1] in h;
  }

  lemma {:induction false} LaterThan(h: seq<nat>, now: nat, a: nat)
    requires Recorded(h, now) && a < |h|
    ensures |Later(h, h[a])| == |h| - 1 - a
    decreases |h| - a
  {
    if a + 1 == |h| {
      assert Later(h, h[a]) == {};
    } else {
      var s := Later(h, h[a + 1]);
      LaterNext(h, now, a);
      assert h[a + 1] !in s;
      LaterThan(h, now, a + 1);
      hide Later, Recorded;
      assert |s + {h[a + 1]}| == |s| + 1;
    }
  }

  lemma {:induction false} LaterNext(h: seq<nat>, now: nat, a: nat)
    requires Recorded(h, now) && a + 1 < |h|
    ensures Later(h, h[a]) == Later(h, h[a + 1]) + {h[a + 1]}
  {
    forall x ensures x in Later(h, h[a]) <==> x in Later(h, h[a + 1]) + {h[a + 1]} {
      if x in h {
        var b :| 0 <= b < |h| && h[b] == x;
        assert b > a <==> b > a + 1 || b == a + 1;
      }
    }
  }

  /** What is computed from a history by position is what its recorded times say. */
  lemma {:induction false} DistanceIs(n: LRUKNode, now: nat, k: nat, d: nat)
    requires Recorded(n.history, now) && k > 0
    ensures Distance(n.history, k, d) <==> KDistance(n, k) == Some(d)
    ensures KDistance(n, k).Some? <==> |n.history| >= k
    ensures KDistance(n, k).Some? ==> KDistance(n, k).value >= 0 && (KDistance(n, k).value == 0 <==> k == 1)
  {
    var h := n.history;
    if |h| >= k {
      LaterThan(h, now, |h| - k);
      assert KthLatest(h, k, h[|h| - k]);
      LatestIs(n, now, LastAccess(n));
    }
    forall t | KthLatest(h, k, t) ensures |h| >= k && t == h[|h| - k] {
      var a :| 0 <= a < |h| && h[a] == t;
      LaterThan(h, now, a);
    }
    forall m | Latest(h, m) ensures m == LastAccess(n) {
      LatestIs(n, now, m);
    }
  }

  /** Times go up along a history and stay below the clock. */
  ghost predicate Recorded(h: seq<nat>, now: nat) {
    && |h| > 0
    && (forall a, b :: 0 <= a < b < |h| ==> h[a] < h[b])
    && (forall a :: 0 <= a < |h| ==> h[a] < now)
  }

  /** No time is recorded for two frames. */
  ghost predicate Apart(nodes: Nodes) {
    forall i, j, t :: i in nodes && j in nodes && i != j && t in nodes[i].history ==> t !in nodes[j].history
  }

  ghost predicate Tracked(nodes: Nodes, now: nat) {
    && (forall i :: i in nodes ==> nodes[i].i == i && Recorded(nodes[i].history, now))
    && Apart(nodes)
  }

  ghost predicate Free(nodes: Nodes, i: FrameId) {
    i in nodes && nodes[i].pin == 0
  }

  /** An unpinned frame with at least `k` accesses. */
  ghost predicate Often(nodes: Nodes, k: nat, i: FrameId) {
    Free(nodes, i) && |nodes[i].history| >= k
  }

  ghost function FreeHistories(nodes: Nodes): Histories {
    map i | i in nodes && nodes[i].pin == 0 :: nodes[i].history
  }

  /** The frame that the policy asks for among the unpinned ones. */
  ghost predicate Victim(nodes: Nodes, k: nat, i: FrameId) {
    Choice(FreeHistories(nodes), k, i)
  }

  /** The frame chosen by computed distances and last accesses. */
  ghost predicate Picked(nodes: Nodes, now: nat, k: nat, i: FrameId)
    requires Tracked(nodes, now) && k > 0
  {
    && Free(nodes, i)
    && if exists j :: Often(nodes, k, j) then
         && Often(nodes, k, i)
         && forall j :: Often(nodes, k, j) ==> KDistance(nodes[j], k).value <= KDistance(nodes[i], k).value
       else
         forall j :: Free(nodes, j) && j != i ==> LastAccess(nodes[i]) < LastAccess(nodes[j])
  }

  lemma {:induction false} PickedIsVictim(nodes: Nodes, now: nat, k: nat, i: FrameId)
    requires Tracked(nodes, now) && k > 0 && Picked(nodes, now, k, i)
    ensures Victim(nodes, k, i)
  {
    hide Apart, Recorded, KDistance, LastAccess, Distance, Latest, NoFarther, Sooner;
    var hs := FreeHistories(nodes);
    assert forall j: FrameId :: Often(nodes, k, j) <==> j in hs && |hs[j]| >= k;
    forall j: FrameId | Often(nodes, k, j) ensures NoFarther(hs[j], hs[i], k) {
      FartherIs(nodes[j], nodes[i], now, k);
    }
    forall j: FrameId | Free(nodes, j) && j != i && !Often(nodes, k, i) ensures Sooner(hs[i], hs[j]) {
      SoonerIs(nodes[i], nodes[j], now);
    }
  }

  lemma {:induction false} FartherIs(n: LRUKNode, m: LRUKNode, now: nat, k: nat)
    requires Recorded(n.history, now) && Recorded(m.history, now) && k > 0 && |n.history| >= k && |m.history| >= k
    requires KDistance(n, k).Some? && KDistance(m, k).Some? ==> KDistance(n, k).value <= KDistance(m, k).value
    ensures NoFarther(n.history, m.history, k)
  {
    DistanceIs(n, now, k, 0);
    DistanceIs(m, now, k, 0);
    DistanceIs(n, now, k, KDistance(n, k).value);
    DistanceIs(m, now, k, KDistance(m, k).value);
  }

  lemma {:induction false} SoonerIs(n: LRUKNode, m: LRUKNode, now: nat)
    requires Recorded(n.history, now) && Recorded(m.history, now)
    ensures Sooner(n.history, m.history) <==> LastAccess(n) < LastAccess(m)
  {
    forall t ensures Latest(n.history, t) <==> t == LastAccess(n) {
      LatestIs(n, now, t);
    }
    forall t ensures Latest(m.history, t) <==> t == LastAccess(m) {
      LatestIs(m, now, t);
    }
    assert Latest(n.history, LastAccess(n)) && Latest(m.history, LastAccess(m));
    hide Latest, LastAccess;
  }

  class LRUKReplacer {
    var nodes: Nodes
    var currentTs: nat
    const k: nat

    ghost predicate Valid()
      reads this
    {
      k >= 1 && Tracked(nodes, currentTs)
    }

    constructor (k: nat)
      requires k >= 1
      ensures Valid() && nodes == map[] && currentTs == 0 && this.k == k
    {
      nodes, currentTs, this.k := map[], 0, k;
    }

    /** Choose a frame to give up; none exactly when every tracked frame is pinned, or when `k` is 1: then all distances
        are zero, and no frame is ever given up. */
    method Evict() returns (r: Option<FrameId>)
      requires Valid()
      ensures r.Some? <==> k >= 2 && exists i :: Free(nodes, i)
      ensures r.Some? ==> Victim(nodes, k, r.value)
    {
      r := Pick();
      if r.Some? {
        PickedIsVictim(nodes, currentTs, k, r.value);
      }
    }

    /** Run through the frames for the largest distance, collecting those with few accesses. */
    method Pick() returns (r: Option<FrameId>)
      requires Valid()
      ensures r.Some? <==> k >= 2 && exists i :: Free(nodes, i)
      ensures r.Some? ==> Picked(nodes, currentTs, k, r.value)
    {
      forall j | Free(nodes, j)
        ensures KDistance(nodes[j], k).Some? <==> |nodes[j].history| >= k
        ensures KDistance(nodes[j], k).Some? ==> KDistance(nodes[j], k).value >= 0 && (KDistance(nodes[j], k).value == 0 <==> k == 1)
      {
        DistanceIs(nodes[j], currentTs, k, 0);
      }
      hide Apart, Recorded, KDistance, LastAccess;
      var max: (FrameId, int) := (0, 0);
      var few: set<FrameId> := {};
      var rest := nodes.Keys;
      while rest != {}
        invariant rest <= nodes.Keys
        invariant forall j: FrameId :: j in few <==> Free(nodes, j) && j !in rest && |nodes[j].history| < k
        invariant if max.1 == 0 then k >= 2 ==> forall j :: Often(nodes, k, j) ==> j in rest
                  else Often(nodes, k, max.0) && KDistance(nodes[max.0], k) == Some(max.1) && max.1 > 0
        invariant forall j :: Often(nodes, k, j) && j !in rest ==> KDistance(nodes[j], k).value <= max.1
        decreases |rest|
      {
        var id :| id in rest;
        rest := rest - {id};
        var node := nodes[id];
        if node.pin == 0 {
          match KDistance(node, k)
          case Some(d) =>
            if d > max.1 {
              max := (id, d);
            }
          case None => few := few + {id};
        }
      }
      if max.1 != 0 {
        return Some(max.0);
      }
      if few == {} {
        return None;
      }
      var e := Earliest(few);
      r := Some(e);
    }

    /** Of frames with few accesses, the one whose last access is earliest. */
    method Earliest(few: set<FrameId>) returns (e: FrameId)
      requires Valid() && few != {} && few <= nodes.Keys
      ensures e in few
      ensures forall j :: j in few && j != e ==> Sooner(nodes[e].history, nodes[j].history)
      ensures forall j :: j in few && j != e ==> LastAccess(nodes[e]) < LastAccess(nodes[j])
    {
      var earliest: Option<FrameId> := None;
      var rest := few;
      while rest != {}
        invariant rest <= few
        invariant earliest.None? ==> rest == few
        invariant earliest.Some? ==> earliest.value in few && earliest.value !in rest
        invariant earliest.Some? ==> forall j :: j in few && j !in rest && j != earliest.value ==>
                    LastAccess(nodes[earliest.value]) < LastAccess(nodes[j])
        decreases |rest|
      {
        var id :| id in rest;
        rest := rest - {id};
        if earliest.None? || LastAccess(nodes[id]) < LastAccess(nodes[earliest.value]) {
          earliest := Some(id);
        } else {
          LastApart(nodes, currentTs, id, earliest.value);
        }
      }
      e := earliest.value;
      forall j | j in few && j != e ensures Sooner(nodes[e].history, nodes[j].history) {
        SoonerIs(nodes[e], nodes[j], currentTs);
      }
    }

    /** Note an access, tracking the frame if it is new; every access gets a time of its own. */
    method RecordAccess(i: FrameId)
      requires Valid()
      modifies this
      ensures Valid() && currentTs == old(currentTs) + 1
      ensures nodes == old(nodes)[i := if i in old(nodes) then old(nodes)[i].(history := old(nodes)[i].history + [old(currentTs)])
                                       else LRUKNode(i, [old(currentTs)], 0)]
    {
      if i in nodes {
        nodes := nodes[i := nodes[i].(history := nodes[i].history + [currentTs])];
      } else {
        nodes := nodes[i := LRUKNode(i, [currentTs], 0)];
      }
      currentTs := currentTs + 1;
    }

    method Pin(i: FrameId)
      requires Valid()
      modifies this`nodes
      ensures Valid()
      ensures nodes == if i in old(nodes) then old(nodes)[i := old(nodes)[i].(pin := old(nodes)[i].pin + 1)] else old(nodes)
    {
      if i in nodes {
        nodes := nodes[i := nodes[i].(pin := nodes[i].pin + 1)];
      }
    }

    /** A tracked frame must be pinned: its pin count would underflow. */
    method Unpin(i: FrameId)
      requires Valid() && (i in nodes ==> nodes[i].pin > 0)
      modifies this`nodes
      ensures Valid()
      ensures nodes == if i in old(nodes) then old(nodes)[i := old(nodes)[i].(pin := old(nodes)[i].pin - 1)] else old(nodes)
    {
      if i in nodes {
        nodes := nodes[i := nodes[i].(pin := nodes[i].pin - 1)];
      }
    }

    method Remove(i: FrameId)
      requires Valid()
      modifies this`nodes
      ensures Valid() && nodes == old(nodes) - {i}
    {
      nodes := nodes - {i};
    }
  }

  lemma {:induction false} LastApart(nodes: Nodes, now: nat, i: FrameId, j: FrameId)
    requires Tracked(nodes, now) && i in nodes && j in nodes && i != j
    ensures LastAccess(nodes[i]) != LastAccess(nodes[j])
  {
    assert LastAccess(nodes[i]) in nodes[i].history && LastAccess(nodes[j]) in nodes[j].history;
  }
}
