/** The free list with many threads at once: every load, compare-and-swap and array access is a step of its own. */
module FreeListSteps {
  import opened Replacer

  /**
   * Where a thread is: between calls; in `Pop` with the tail it last saw, or with the slot it took; in `Push` likewise. A
   * push that sees a full list stops with a failed assertion. `due` and `at` are history: the frame that a pop should
   * return, and the number of the swap that gave the thread its slot.
   */
  datatype Thread =
    | Idle
    | Popping(tail: nat)
    | Took(slot: nat, due: FrameId, at: nat)
    | Pushing(frame: FrameId, tail: nat)
    | Claimed(frame: FrameId, slot: nat, at: nat)
    | Failed(frame: FrameId)

  /**
   * The shared array and tail, and the threads. The rest is history: the frames handed out, the frames `Push` was called
   * with, what the list would hold if every swap came with its array access, and the number of swaps so far.
   */
  datatype State = State(free: seq<FrameId>, tail: nat, threads: seq<Thread>, got: seq<FrameId>, begun: multiset<FrameId>,
                         stack: seq<FrameId>, clock: nat)

  /** A thread calls `Pop` or `Push`, or goes on with the call it is in. */
  datatype Event = BeginPop(t: nat) | BeginPush(t: nat, frame: FrameId) | Go(t: nat)

  function With(s: State, t: nat, th: Thread): State
    requires t < |s.threads|
  {
    s.(threads := s.threads[t := th])
  }

  /** The swap of a pop, from tail `n + 1` to `n`. */
  function Take(s: State, t: nat, n: nat): State
    requires t < |s.threads|
  {
    if n < |s.stack| then
      With(s, t, Took(n, s.stack[n], s.clock)).(tail := n, stack := s.stack[..n], clock := s.clock + 1)
    else s
  }

  /** One step; an event that makes no sense in the thread's state does nothing. */
  function Next(s: State, e: Event): State {
    if e.t >= |s.threads| then s
    else match (e, s.threads[e.t])
      case (BeginPop(t), Idle) => With(s, t, Popping(s.tail))
      case (BeginPush(t, frame), Idle) => With(s, t, Pushing(frame, s.tail)).(begun := s.begun + multiset{frame})
      case (Go(t), Popping(tail)) =>
        if tail == 0 then With(s, t, Idle)
        else if s.tail == tail then Take(s, t, tail - 1)
        else With(s, t, Popping(s.tail))
      case (Go(t), Took(slot, _, _)) =>
        if slot < |s.free| then With(s, t, Idle).(got := s.got + [s.free[slot]]) else s
      case (Go(t), Pushing(frame, tail)) =>
        if tail >= |s.free| then With(s, t, Failed(frame))
        else if s.tail == tail then
          With(s, t, Claimed(frame, tail, s.clock)).(tail := tail + 1, stack := s.stack + [frame], clock := s.clock + 1)
        else With(s, t, Pushing(frame, s.tail))
      case (Go(t), Claimed(frame, slot, _)) =>
        if slot < |s.free| then With(s, t, Idle).(free := s.free[slot := frame]) else s
      case _ => s
  }

  function Run(s: State, es: seq<Event>): State
    decreases |es|
  {
    if |es| == 0 then s else Run(Next(s, es[0]), es[1..])
  }

  ghost predicate AllIdle(threads: seq<Thread>) {
    forall t :: 0 <= t < |threads| ==> threads[t].Idle?
  }

  /** All threads between calls, nothing handed out. */
  ghost predicate Quiet(s: State) {
    && AllIdle(s.threads) && s.tail <= |s.free| && s.stack == s.free[..s.tail]
    && s.got == [] && s.begun == multiset{}
  }

  lemma {:induction false} OneThread(s: State, e: Event)
    requires Next(s, e) != s
    ensures e.t < |s.threads| && |Next(s, e).threads| == |s.threads|
    ensures Next(s, e).threads == s.threads[e.t := Next(s, e).threads[e.t]]
    ensures |Next(s, e).free| == |s.free|
  {
  }

  // ---------------------------------------------------------------- frames are conserved as far as they are due

  /** The frame a thread has in its hands: the one it is due, or the one it brings and has no slot for yet. */
  ghost function InHand(th: Thread): multiset<FrameId> {
    match th
    case Took(_, due, _) => multiset{due}
    case Pushing(frame, _) => multiset{frame}
    case Failed(frame) => multiset{frame}
    case _ => multiset{}
  }

  ghost function Carried(threads: seq<Thread>): multiset<FrameId> {
    if |threads| == 0 then multiset{}
    else Carried(threads[..|threads| - 1]) + InHand(threads[|threads| - 1])
  }

  lemma {:induction false} AddBoth(p: multiset<FrameId>, p': multiset<FrameId>, o: multiset<FrameId>, o': multiset<FrameId>, x: multiset<FrameId>)
    requires p' + o == p + o'
    ensures (p' + x) + o == (p + x) + o'
  {
    forall f ensures ((p' + x) + o)[f] == ((p + x) + o')[f] {
      assert (p' + o)[f] == (p + o')[f];
    }
  }

  lemma {:induction false} AddLast(p: multiset<FrameId>, o: multiset<FrameId>, o': multiset<FrameId>)
    ensures (p + o') + o == (p + o) + o'
  {
  }

  lemma {:induction false} CarriedSet(threads: seq<Thread>, t: nat, th: Thread)
    requires t < |threads|
    ensures Carried(threads[t := th]) + InHand(threads[t]) == Carried(threads) + InHand(th)
  {
    var n := |threads| - 1;
    var init, now := threads[..n], threads[t := th];
    assert Carried(threads) == Carried(init) + InHand(threads[n]);
    assert Carried(now) == Carried(now[..n]) + InHand(now[n]);
    hide Carried, InHand;
    if t < n {
      CarriedSet(init, t, th);
      assert now[..n] == init[t := th] && now[n] == threads[n];
      AddBoth(Carried(init), Carried(init[t := th]), InHand(threads[t]), InHand(th), InHand(threads[n]));
    } else {
      assert now[..n] == init;
      AddLast(Carried(init), InHand(threads[t]), InHand(th));
    }
  }

  lemma {:induction false} CarriedIdle(threads: seq<Thread>)
    requires AllIdle(threads)
    ensures Carried(threads) == multiset{}
  {
    if |threads| > 0 {
      CarriedIdle(threads[..|threads| - 1]);
    }
  }

  /** Frames handed out, in hand and on the list that is due make up the list at the start and all frames pushed. */
  ghost predicate Conserved(all: multiset<FrameId>, s: State) {
    multiset(s.got) + Carried(s.threads) + multiset(s.stack) == all + s.begun
  }

  /** The thread goes on to read the slot it took. */
  predicate Reads(s: State, e: Event) {
    e.Go? && e.t < |s.threads| && s.threads[e.t].Took? && s.threads[e.t].slot < |s.free|
  }

  lemma {:induction false} Settle(g: multiset<FrameId>, g': multiset<FrameId>, c: multiset<FrameId>, c': multiset<FrameId>,
                                  l: multiset<FrameId>, l': multiset<FrameId>, o: multiset<FrameId>, o': multiset<FrameId>,
                                  all: multiset<FrameId>, b: multiset<FrameId>, b': multiset<FrameId>)
    requires c' + o == c + o' && g' + o' + l' + b == g + o + l + b'
    ensures g + c + l == all + b <==> g' + c' + l' == all + b'
  {
    forall x ensures (g' + c' + l')[x] + b[x] == (g + c + l)[x] + b'[x] {
      assert (c' + o)[x] == (c + o')[x] && (g' + o' + l' + b)[x] == (g + o + l + b')[x];
    }
    if g + c + l == all + b {
      forall x ensures (g' + c' + l')[x] == (all + b')[x] {
        assert (g + c + l)[x] == (all + b)[x];
      }
    }
    if g' + c' + l' == all + b' {
      forall x ensures (g + c + l)[x] == (all + b)[x] {
        assert (g' + c' + l')[x] == (all + b')[x];
      }
    }
  }

  /** What comes into hands `h'` and out of hands `h`: read, swapped off the list, brought along or swapped onto the list. */
  ghost predicate Moved(s: State, h: multiset<FrameId>, s': State, h': multiset<FrameId>) {
    var g, l, g', l' := multiset(s.got), multiset(s.stack), multiset(s'.got), multiset(s'.stack);
    || (g' == g + h && h' == multiset{} && l' == l && s'.begun == s.begun)
    || (h == multiset{} && l == l' + h' && g' == g && s'.begun == s.begun)
    || (h == multiset{} && s'.begun == s.begun + h' && g' == g && l' == l)
    || (h' == multiset{} && l' == l + h && g' == g && s'.begun == s.begun)
    || (h' == h && g' == g && l' == l && s'.begun == s.begun)
  }

  lemma {:induction false} Balance(s: State, h: multiset<FrameId>, s': State, h': multiset<FrameId>)
    requires Moved(s, h, s', h')
    ensures multiset(s'.got) + h' + multiset(s'.stack) + s.begun == multiset(s.got) + h + multiset(s.stack) + s'.begun
  {
  }

  lemma {:induction false} PopMoves(s: State, s': State, t: nat)
    requires s' == Next(s, Go(t)) && t < |s.threads| == |s'.threads| && s.tail == |s.stack|
    requires s.threads[t].Popping? || s.threads[t].Took?
    requires Reads(s, Go(t)) ==> s.free[s.threads[t].slot] == s.threads[t].due
    ensures s' != s ==> Moved(s, InHand(s.threads[t]), s', InHand(s'.threads[t]))
  {
    var th, th' := s.threads[t], s'.threads[t];
    if th'.Took? && s' != s {
      assert s.stack == s'.stack + [th'.due];
    }
  }

  lemma {:induction false} PushMoves(s: State, s': State, t: nat)
    requires s' == Next(s, Go(t)) && t < |s.threads| == |s'.threads|
    requires s.threads[t].Pushing? || s.threads[t].Claimed?
    ensures s' != s ==> Moved(s, InHand(s.threads[t]), s', InHand(s'.threads[t]))
  {
    var th, th' := s.threads[t], s'.threads[t];
    assert s'.got == s.got && s'.begun == s.begun;
    assert s'.stack == if th.Pushing? && th'.Claimed? then s.stack + [th.frame] else s.stack;
    assert s' != s && th.Claimed? ==> th' == Idle;
    assert th.Pushing? && !th'.Claimed? ==> InHand(th') == InHand(th);
    hide Next;
  }

  lemma {:induction false} BeginMoves(s: State, s': State, e: Event)
    requires s' == Next(s, e) && s' != s && e.t < |s.threads| == |s'.threads| && s.threads[e.t].Idle?
    ensures Moved(s, InHand(s.threads[e.t]), s', InHand(s'.threads[e.t]))
  {
    assert s'.begun == s.begun + InHand(s'.threads[e.t]);
  }

  lemma {:induction false} TailIsLength(s: State, e: Event)
    requires s.tail == |s.stack| <= |s.free|
    ensures Next(s, e).tail == |Next(s, e).stack| <= |Next(s, e).free|
  {
  }

  lemma {:induction false} ConservedStep(all: multiset<FrameId>, s: State, e: Event)
    requires s.tail == |s.stack| <= |s.free| && Conserved(all, s)
    requires Reads(s, e) ==> s.free[s.threads[e.t].slot] == s.threads[e.t].due
    ensures Conserved(all, Next(s, e)) && Next(s, e).tail == |Next(s, e).stack| <= |Next(s, e).free|
  {
    var s' := Next(s, e);
    TailIsLength(s, e);
    if s' != s {
      OneThread(s, e);
      if s.threads[e.t].Popping? || s.threads[e.t].Took? {
        PopMoves(s, s', e.t);
      } else if s.threads[e.t].Idle? {
        BeginMoves(s, s', e);
      } else {
        PushMoves(s, s', e.t);
      }
      Balance(s, InHand(s.threads[e.t]), s', InHand(s'.threads[e.t]));
      var th, th' := s.threads[e.t], s'.threads[e.t];
      hide Next, InHand, Carried, Reads;
      CarriedSet(s.threads, e.t, th');
      Settle(multiset(s.got), multiset(s'.got), Carried(s.threads), Carried(s'.threads), multiset(s.stack), multiset(s'.stack),
             InHand(th), InHand(th'), all, s.begun, s'.begun);
    }
  }

  lemma {:induction false} OneForOne(g: multiset<FrameId>, c: multiset<FrameId>, l: multiset<FrameId>, x: FrameId, y: FrameId)
    ensures (g + multiset{x}) + c + l == g + (c + multiset{y}) + l <==> x == y
  {
    assert ((g + multiset{x}) + c + l)[x] == g[x] + c[x] + l[x] + 1;
    if x == y {
      assert (g + multiset{x}) + c + l == g + (c + multiset{y}) + l;
    }
  }

  /** A read is right, frames stay conserved, if and only if the slot holds the frame that is due. */
  lemma {:induction false} ReadExact(all: multiset<FrameId>, s: State, t: nat)
    requires Conserved(all, s) && Reads(s, Go(t))
    ensures Conserved(all, Next(s, Go(t))) <==> s.free[s.threads[t].slot] == s.threads[t].due
  {
    var s', th := Next(s, Go(t)), s.threads[t];
    CarriedSet(s.threads, t, Idle);
    assert multiset(s'.got) == multiset(s.got) + multiset{s.free[th.slot]} && s'.stack == s.stack && s'.begun == s.begun;
    assert Carried(s'.threads) + multiset{th.due} == Carried(s.threads);
    OneForOne(multiset(s.got), Carried(s'.threads), multiset(s.stack), s.free[th.slot], th.due);
  }

  // ---------------------------------------------------------------- what a slot holds at a time

  /** A thread that is about to access slot `k`. */
  ghost predicate At(threads: seq<Thread>, t: nat, k: nat) {
    t < |threads| && ((threads[t].Took? && threads[t].slot == k) || (threads[t].Claimed? && threads[t].slot == k))
  }

  ghost function Ticket(th: Thread): nat
    requires th.Took? || th.Claimed?
  {
    match th case Took(_, _, at) => at case Claimed(_, _, at) => at
  }

  /** A claim on slot `k` from before time `end`. */
  ghost predicate ClaimBefore(threads: seq<Thread>, u: nat, k: nat, end: nat) {
    u < |threads| && threads[u].Claimed? && threads[u].slot == k && threads[u].at < end
  }

  ghost predicate LastClaim(threads: seq<Thread>, u: nat, k: nat, end: nat) {
    && ClaimBefore(threads, u, k, end)
    && forall w: nat :: ClaimBefore(threads, w, k, end) ==> threads[w].at <= threads[u].at
  }

  /** Once the claims from before time `end` are written, slot `k` holds `v`. */
  ghost predicate Holds(free: seq<FrameId>, threads: seq<Thread>, k: nat, end: nat, v: FrameId)
    requires k < |free|
  {
    || (exists u: nat :: LastClaim(threads, u, k, end) && threads[u].frame == v)
    || (v == free[k] && forall u: nat :: !ClaimBefore(threads, u, k, end))
  }

  /** Swaps have numbers of their own, all of them below the clock. */
  ghost predicate Tickets(s: State) {
    && (forall t: nat, k: nat :: At(s.threads, t, k) ==> k < |s.free| && Ticket(s.threads[t]) < s.clock)
    && (forall t: nat, u: nat, k: nat, l: nat :: At(s.threads, t, k) && At(s.threads, u, l) && t != u ==>
          Ticket(s.threads[t]) != Ticket(s.threads[u]))
  }

  /** A pop is due what its slot held when it took it, with all claims before it written. */
  ghost predicate DuesHeld(s: State) {
    forall t :: 0 <= t < |s.threads| && s.threads[t].Took? && s.threads[t].slot < |s.free| ==>
      Holds(s.free, s.threads, s.threads[t].slot, s.threads[t].at, s.threads[t].due)
  }

  /** The list that is due is what its slots hold once all claims are written. */
  ghost predicate ListHeld(s: State) {
    && s.tail == |s.stack| <= |s.free|
    && forall k :: 0 <= k < s.tail ==> Holds(s.free, s.threads, k, s.clock, s.stack[k])
  }

  ghost predicate Linear(s: State) {
    Tickets(s) && DuesHeld(s) && ListHeld(s)
  }

  /** No other thread got the same slot before and has not accessed it yet. */
  ghost predicate First(threads: seq<Thread>, t: nat, k: nat) {
    && At(threads, t, k)
    && forall u: nat :: At(threads, u, k) && u != t ==> Ticket(threads[t]) < Ticket(threads[u])
  }

  /** An array access comes in the order of the swaps, slot by slot. */
  ghost predicate InOrder(s: State, e: Event) {
    forall k: nat :: e.Go? && At(s.threads, e.t, k) ==> First(s.threads, e.t, k)
  }

  ghost predicate Ordered(s: State, es: seq<Event>)
    decreases |es|
  {
    |es| > 0 ==> InOrder(s, es[0]) && Ordered(Next(s, es[0]), es[1..])
  }

  lemma {:induction false} InOrderReadsDue(s: State, e: Event)
    requires Linear(s) && InOrder(s, e) && Reads(s, e)
    ensures s.free[s.threads[e.t].slot] == s.threads[e.t].due
  {
    var th := s.threads[e.t];
    assert At(s.threads, e.t, th.slot) && First(s.threads, e.t, th.slot);
    assert Holds(s.free, s.threads, th.slot, th.at, th.due);
    forall u: nat ensures !ClaimBefore(s.threads, u, th.slot, th.at) {
      assert ClaimBefore(s.threads, u, th.slot, th.at) ==> At(s.threads, u, th.slot);
    }
  }

  /** What a slot holds at a time that is past stays the same: a write in order only puts a claimed frame in place. */
  lemma {:induction false} HoldsKept(s: State, s': State, e: Event, k: nat, end: nat, v: FrameId)
    requires Linear(s) && InOrder(s, e) && s' == Next(s, e) && s' != s && k < |s.free| == |s'.free| && end <= s.clock
    requires Holds(s.free, s.threads, k, end, v)
    requires s.threads[e.t].Claimed? && s.threads[e.t].slot == k ==> s.threads[e.t].at < end
    ensures Holds(s'.free, s'.threads, k, end, v)
  {
    var t := e.t;
    OneThread(s, e);
    assert forall u: nat :: u != t ==> (ClaimBefore(s'.threads, u, k, end) <==> ClaimBefore(s.threads, u, k, end));
    assert !ClaimBefore(s'.threads, t, k, end);
    if u: nat :| LastClaim(s.threads, u, k, end) && s.threads[u].frame == v {
      if u == t {
        assert At(s.threads, t, k) && First(s.threads, t, k);
        forall w: nat ensures !ClaimBefore(s'.threads, w, k, end) {
          assert ClaimBefore(s.threads, w, k, end) ==> At(s.threads, w, k);
        }
      } else {
        assert LastClaim(s'.threads, u, k, end);
      }
    } else {
      assert !ClaimBefore(s.threads, t, k, end);
    }
  }

  /** The new swap comes after all others: nothing changes for slots it does not give away. */
  lemma {:induction false} HoldsNow(free: seq<FrameId>, threads: seq<Thread>, k: nat, now: nat, end: nat, v: FrameId)
    requires k < |free| && Holds(free, threads, k, now, v) && now <= end
    requires forall u: nat :: u < |threads| && threads[u].Claimed? && threads[u].slot == k ==> threads[u].at < now
    ensures Holds(free, threads, k, end, v)
  {
    assert forall u: nat :: ClaimBefore(threads, u, k, end) <==> ClaimBefore(threads, u, k, now);
    if u: nat :| LastClaim(threads, u, k, now) && threads[u].frame == v {
      assert LastClaim(threads, u, k, end);
    }
  }

  lemma {:induction false} TicketsStep(s: State, s': State, e: Event)
    requires Tickets(s) && s.tail <= |s.free| && s' == Next(s, e) && s' != s
    ensures Tickets(s') && s'.clock >= s.clock
  {
    OneThread(s, e);
    var th, th' := s.threads[e.t], s'.threads[e.t];
    assert (th'.Took? || th'.Claimed?) ==> Ticket(th') == s.clock < s'.clock && th'.slot < |s'.free|;
    assert s'.clock >= s.clock;
    hide Next;
    assert forall u: nat, k: nat :: u != e.t ==> At(s'.threads, u, k) == At(s.threads, u, k);
    assert forall u: nat :: u != e.t && u < |s.threads| ==> s'.threads[u] == s.threads[u];
  }

  lemma {:induction false} DuesStep(s: State, s': State, e: Event)
    requires Linear(s) && InOrder(s, e) && s' == Next(s, e) && s' != s
    ensures DuesHeld(s')
  {
    OneThread(s, e);
    var t, th, th' := e.t, s.threads[e.t], s'.threads[e.t];
    assert th'.Took? ==> th'.slot < s.tail && th'.due == s.stack[th'.slot] && th'.at == s.clock && th.Popping?;
    forall u | 0 <= u < |s'.threads| && s'.threads[u].Took? && s'.threads[u].slot < |s'.free|
      ensures Holds(s'.free, s'.threads, s'.threads[u].slot, s'.threads[u].at, s'.threads[u].due)
    {
      var k := s'.threads[u].slot;
      if u == t {
        HoldsKept(s, s', e, k, s.clock, th'.due);
      } else {
        assert At(s.threads, u, k);
        assert th.Claimed? && th.slot == k ==> At(s.threads, t, k) && First(s.threads, t, k);
        HoldsKept(s, s', e, k, s'.threads[u].at, s'.threads[u].due);
      }
    }
  }

  lemma {:induction false} ListStep(s: State, s': State, e: Event)
    requires Linear(s) && InOrder(s, e) && s' == Next(s, e) && s' != s && Tickets(s')
    ensures ListHeld(s')
  {
    OneThread(s, e);
    TailIsLength(s, e);
    var t, th, th' := e.t, s.threads[e.t], s'.threads[e.t];
    assert th'.Claimed? ==> th'.slot == s.tail && th'.at == s.clock < s'.clock && s'.stack == s.stack + [th'.frame];
    assert !th'.Claimed? ==> s'.tail <= s.tail && s'.stack == s.stack[..s'.tail];
    assert s'.clock >= s.clock;
    assert th.Claimed? ==> At(s.threads, t, th.slot);
    forall k | 0 <= k < s'.tail ensures Holds(s'.free, s'.threads, k, s'.clock, s'.stack[k]) {
      if k < s.tail {
        HoldsKept(s, s', e, k, s.clock, s.stack[k]);
        forall u: nat | u < |s'.threads| && s'.threads[u].Claimed? && s'.threads[u].slot == k ensures s'.threads[u].at < s.clock {
          assert At(s.threads, u, k);
        }
        HoldsNow(s'.free, s'.threads, k, s.clock, s'.clock, s.stack[k]);
      } else {
        assert LastClaim(s'.threads, t, k, s'.clock) by {
          forall w: nat | ClaimBefore(s'.threads, w, k, s'.clock) && w != t ensures s'.threads[w].at < s.clock {
            assert At(s.threads, w, k);
          }
        }
      }
    }
  }

  lemma {:induction false} LinearStep(s: State, e: Event)
    requires Linear(s) && InOrder(s, e)
    ensures Linear(Next(s, e))
  {
    if Next(s, e) != s {
      TicketsStep(s, Next(s, e), e);
      DuesStep(s, Next(s, e), e);
      ListStep(s, Next(s, e), e);
    }
  }

  // ---------------------------------------------------------------- whole histories

  lemma {:induction false} QuietLinear(s: State)
    requires Quiet(s)
    ensures Linear(s) && Conserved(multiset(s.free[..s.tail]), s)
  {
    CarriedIdle(s.threads);
    forall k | 0 <= k < s.tail ensures Holds(s.free, s.threads, k, s.clock, s.stack[k]) {
      assert s.stack[k] == s.free[k] && forall u: nat :: !ClaimBefore(s.threads, u, k, s.clock);
    }
  }

  /** Every pop returns the frame that the list that is due held on top at the pop's swap. */
  ghost predicate ReadsDue(s: State, es: seq<Event>)
    decreases |es|
  {
    |es| > 0 ==>
      && (Reads(s, es[0]) ==> s.free[s.threads[es[0].t].slot] == s.threads[es[0].t].due)
      && ReadsDue(Next(s, es[0]), es[1..])
  }

  ghost predicate AlwaysConserved(all: multiset<FrameId>, s: State, es: seq<Event>)
    decreases |es|
  {
    Conserved(all, s) && (|es| > 0 ==> AlwaysConserved(all, Next(s, es[0]), es[1..]))
  }

  lemma {:induction false} DueExact(all: multiset<FrameId>, s: State, es: seq<Event>)
    requires s.tail == |s.stack| <= |s.free| && Conserved(all, s)
    ensures AlwaysConserved(all, s, es) <==> ReadsDue(s, es)
    decreases |es|
  {
    if |es| > 0 {
      var s' := Next(s, es[0]);
      TailIsLength(s, es[0]);
      if Reads(s, es[0]) {
        ReadExact(all, s, es[0].t);
      } else {
        ConservedStep(all, s, es[0]);
      }
      if Conserved(all, s') {
        DueExact(all, s', es[1..]);
      } else {
        assert !AlwaysConserved(all, s', es[1..]);
      }
    }
  }

  lemma {:induction false} OrderedRun(all: multiset<FrameId>, s: State, es: seq<Event>)
    requires Linear(s) && Conserved(all, s) && Ordered(s, es)
    ensures Linear(Run(s, es)) && Conserved(all, Run(s, es)) && ReadsDue(s, es)
    decreases |es|
  {
    if |es| > 0 {
      if Reads(s, es[0]) {
        InOrderReadsDue(s, es[0]);
      }
      LinearStep(s, es[0]);
      ConservedStep(all, s, es[0]);
      OrderedRun(all, Next(s, es[0]), es[1..]);
    }
  }

  /** No frame is handed out more often than it was listed or pushed, and between calls the list holds all others. */
  ghost predicate Right(listed: multiset<FrameId>, s: State) {
    && s.tail <= |s.free|
    && (forall x :: multiset(s.got)[x] <= listed[x] + s.begun[x])
    && (AllIdle(s.threads) ==> multiset(s.got) + multiset(s.free[..s.tail]) == listed + s.begun)
  }

  lemma {:induction false} LinearRight(all: multiset<FrameId>, s: State)
    requires Linear(s) && Conserved(all, s)
    ensures Right(all, s)
  {
    forall x ensures multiset(s.got)[x] <= all[x] + s.begun[x] {
      assert (multiset(s.got) + Carried(s.threads) + multiset(s.stack))[x] == (all + s.begun)[x];
    }
    if AllIdle(s.threads) {
      CarriedIdle(s.threads);
      assert s.stack == s.free[..s.tail];
    }
  }

  /** If accesses to each slot come in the order of their swaps, pops and pushes in any mix act as on one stack. */
  lemma {:induction false} OrderedRight(s: State, es: seq<Event>)
    requires Quiet(s) && Ordered(s, es)
    ensures ReadsDue(s, es) && Right(multiset(s.free[..s.tail]), Run(s, es))
  {
    QuietLinear(s);
    OrderedRun(multiset(s.free[..s.tail]), s, es);
    LinearRight(multiset(s.free[..s.tail]), Run(s, es));
  }

  /** Frames are conserved all the way if and only if every pop reads the frame it is due. */
  lemma {:induction false} ConservedExact(s: State, es: seq<Event>)
    requires Quiet(s)
    ensures AlwaysConserved(multiset(s.free[..s.tail]), s, es) <==> ReadsDue(s, es)
  {
    CarriedIdle(s.threads);
    DueExact(multiset(s.free[..s.tail]), s, es);
  }

  // ---------------------------------------------------------------- the order goes wrong

  /** A pop that reads before the last claim on its slot is written is right only if the slot holds that frame anyway. */
  lemma {:induction false} ReadTooSoon(all: multiset<FrameId>, s: State, t: nat, u: nat)
    requires Linear(s) && Conserved(all, s) && Reads(s, Go(t))
    requires LastClaim(s.threads, u, s.threads[t].slot, s.threads[t].at)
    ensures !InOrder(s, Go(t))
    ensures Conserved(all, Next(s, Go(t))) <==> s.free[s.threads[t].slot] == s.threads[u].frame
  {
    var k, end := s.threads[t].slot, s.threads[t].at;
    assert At(s.threads, t, k) && At(s.threads, u, k);
    assert s.threads[t].due == s.threads[u].frame by {
      assert Holds(s.free, s.threads, k, end, s.threads[t].due);
      forall w: nat | LastClaim(s.threads, w, k, end) ensures w == u {
        assert At(s.threads, w, k) && Ticket(s.threads[w]) == Ticket(s.threads[u]);
      }
    }
    hide LastClaim, Next, Conserved, Tickets, DuesHeld, ListHeld;
    ReadExact(all, s, t);
  }

  /** A push that writes before an earlier pop has read its slot makes that pop right only if it brings the same frame. */
  lemma {:induction false} WroteTooSoon(all: multiset<FrameId>, s: State, t: nat, u: nat)
    requires Linear(s) && Conserved(all, s) && Reads(s, Go(t)) && u < |s.threads| && s.threads[u].Claimed?
    requires s.threads[u].slot == s.threads[t].slot && s.threads[t].at < s.threads[u].at
    ensures !InOrder(s, Go(u))
    ensures Conserved(all, Run(s, [Go(u), Go(t)])) <==> s.threads[u].frame == s.threads[t].due
  {
    var k := s.threads[t].slot;
    assert At(s.threads, t, k) && At(s.threads, u, k);
    var s' := Next(s, Go(u));
    assert s'.threads == s.threads[u := Idle] && s'.free[k] == s.threads[u].frame;
    ConservedStep(all, s, Go(u));
    ReadExact(all, s', t);
    assert Run(s, [Go(u), Go(t)]) == Next(s', Go(t)) by {
      assert [Go(u), Go(t)][1..] == [Go(t)];
      assert Run(s', [Go(t)]) == Next(s', Go(t));
    }
  }

  // ---------------------------------------------------------------- histories that keep the order

  predicate Pops(th: Thread) {
    th.Popping? || th.Took?
  }

  predicate Pushes(th: Thread) {
    th.Pushing? || th.Claimed?
  }

  /** No pop begins during a push, and no push during a pop. */
  ghost predicate Alternates(s: State, e: Event) {
    e.t < |s.threads| && s.threads[e.t].Idle? ==>
      forall u :: 0 <= u < |s.threads| ==> !(e.BeginPop? && Pushes(s.threads[u])) && !(e.BeginPush? && Pops(s.threads[u]))
  }

  ghost predicate Alternating(s: State, es: seq<Event>)
    decreases |es|
  {
    |es| > 0 ==> Alternates(s, es[0]) && Alternating(Next(s, es[0]), es[1..])
  }

  /** Pops or pushes are in progress, not both, and each has a slot of its own, above or below the tail. */
  ghost predicate OnePhase(s: State) {
    && (forall t, u :: 0 <= t < |s.threads| && 0 <= u < |s.threads| ==> !(Pops(s.threads[t]) && Pushes(s.threads[u])))
    && (forall t: nat, u: nat, k: nat :: At(s.threads, t, k) && At(s.threads, u, k) ==> t == u)
    && (forall t: nat, k: nat :: At(s.threads, t, k) ==> if s.threads[t].Took? then s.tail <= k else k < s.tail)
  }

  lemma {:induction false} PhaseStep(s: State, e: Event)
    requires OnePhase(s) && Alternates(s, e)
    ensures OnePhase(Next(s, e)) && InOrder(s, e)
  {
    var s' := Next(s, e);
    if s' != s {
      OneThread(s, e);
      var th, th' := s.threads[e.t], s'.threads[e.t];
      assert Pops(th') ==> Pops(th) || e.BeginPop?;
      assert Pushes(th') ==> Pushes(th) || e.BeginPush?;
      assert th'.Took? ==> th.Popping? && th'.slot == s'.tail == s.tail - 1;
      assert th'.Claimed? ==> th.Pushing? && th'.slot == s.tail == s'.tail - 1;
      assert !th'.Took? && !th'.Claimed? ==> s'.tail == s.tail;
      hide Next;
      forall t: nat, k: nat | At(s'.threads, t, k)
        ensures if s'.threads[t].Took? then s'.tail <= k else k < s'.tail
        ensures t != e.t ==> At(s.threads, t, k)
      {
        if t != e.t {
          assert At(s.threads, t, k);
        }
      }
    }
  }

  lemma {:induction false} AlternatingOrdered(s: State, es: seq<Event>)
    requires OnePhase(s) && Alternating(s, es)
    ensures Ordered(s, es)
    decreases |es|
  {
    if |es| > 0 {
      PhaseStep(s, es[0]);
      AlternatingOrdered(Next(s, es[0]), es[1..]);
    }
  }

  /** However pops overlap with pops and pushes with pushes: no frame is lost or handed out once too often. */
  lemma {:induction false} AlternatingRight(s: State, es: seq<Event>)
    requires Quiet(s) && Alternating(s, es)
    ensures ReadsDue(s, es) && Right(multiset(s.free[..s.tail]), Run(s, es))
  {
    AlternatingOrdered(s, es);
    OrderedRight(s, es);
  }

  lemma {:induction false} OnlyPops(s: State, es: seq<Event>)
    requires forall i :: 0 <= i < |es| ==> !es[i].BeginPush?
    requires forall u :: 0 <= u < |s.threads| ==> !Pushes(s.threads[u])
    ensures Alternating(s, es) && Run(s, es).begun == s.begun
    ensures forall u :: 0 <= u < |Run(s, es).threads| ==> !Pushes(Run(s, es).threads[u])
    decreases |es|
  {
    if |es| > 0 {
      OnlyPops(Next(s, es[0]), es[1..]);
    }
  }

  lemma {:induction false} OnlyPushes(s: State, es: seq<Event>)
    requires forall i :: 0 <= i < |es| ==> !es[i].BeginPop?
    requires forall u :: 0 <= u < |s.threads| ==> !Pops(s.threads[u])
    ensures Alternating(s, es) && Run(s, es).got == s.got
    decreases |es|
  {
    if |es| > 0 {
      OnlyPushes(Next(s, es[0]), es[1..]);
    }
  }

  /** One thread alone always alternates. */
  lemma {:induction false} AloneAlternates(s: State, es: seq<Event>)
    requires |s.threads| == 1
    ensures Alternating(s, es)
    decreases |es|
  {
    if |es| > 0 {
      if Next(s, es[0]) != s {
        OneThread(s, es[0]);
      }
      AloneAlternates(Next(s, es[0]), es[1..]);
    }
  }

  // ---------------------------------------------------------------- no push fails

  /** Each push begins with a frame that has left the list, going by the calls that ended: `start` frames were listed. */
  predicate Roomy(start: nat, s: State, es: seq<Event>)
    decreases |es|
  {
    |es| > 0 ==>
      && (es[0].BeginPush? ==> start + |s.begun| < |s.free| + |s.got|)
      && Roomy(start, Next(s, es[0]), es[1..])
  }

  ghost predicate Counted(start: nat, s: State) {
    && s.tail == |s.stack| <= |s.free|
    && |s.got| + |Carried(s.threads)| + |s.stack| == start + |s.begun| <= |s.free| + |s.got|
  }

  lemma {:induction false} SizesAdd(s: State, h: multiset<FrameId>, s': State, h': multiset<FrameId>)
    requires Moved(s, h, s', h')
    ensures |s'.got| + |h'| + |s'.stack| + |s.begun| == |s.got| + |h| + |s.stack| + |s'.begun| && |s'.got| >= |s.got|
  {
    assert |multiset(s.got)| == |s.got| && |multiset(s'.got)| == |s'.got|;
    assert |multiset(s.stack)| == |s.stack| && |multiset(s'.stack)| == |s'.stack|;
  }

  /** In counting, a read frame is as good as the one that is due. */
  lemma {:induction false} CountMoves(s: State, s': State, e: Event)
    requires s' == Next(s, e) && s' != s && e.t < |s.threads| == |s'.threads| && s.tail == |s.stack|
    ensures |s'.got| + |InHand(s'.threads[e.t])| + |s'.stack| + |s.begun| == |s.got| + |InHand(s.threads[e.t])| + |s.stack| + |s'.begun|
    ensures |s'.got| >= |s.got| && (!e.BeginPush? ==> s'.begun == s.begun)
  {
    var th, th' := s.threads[e.t], s'.threads[e.t];
    if th.Took? {
      assert |s'.got| == |s.got| + 1 && s'.stack == s.stack && s'.begun == s.begun && th' == Idle;
    } else {
      if th.Popping? {
        PopMoves(s, s', e.t);
      } else if th.Idle? {
        BeginMoves(s, s', e);
      } else {
        PushMoves(s, s', e.t);
      }
      SizesAdd(s, InHand(th), s', InHand(th'));
    }
  }

  lemma {:induction false} CarriedSize(threads: seq<Thread>, t: nat, th: Thread)
    requires t < |threads|
    ensures |Carried(threads[t := th])| + |InHand(threads[t])| == |Carried(threads)| + |InHand(th)|
  {
    CarriedSet(threads, t, th);
    hide Carried, InHand;
    assert |Carried(threads[t := th]) + InHand(threads[t])| == |Carried(threads) + InHand(th)|;
  }

  lemma {:induction false} CountStep(start: nat, s: State, e: Event)
    requires Counted(start, s) && (e.BeginPush? ==> start + |s.begun| < |s.free| + |s.got|)
    ensures Counted(start, Next(s, e))
  {
    var s' := Next(s, e);
    TailIsLength(s, e);
    if s' != s {
      OneThread(s, e);
      CountMoves(s, s', e);
      assert |s'.begun| <= |s.begun| + 1;
      hide Next, InHand, Carried;
      CarriedSize(s.threads, e.t, s'.threads[e.t]);
    }
  }

  lemma {:induction false} InCarried(threads: seq<Thread>, t: nat)
    requires t < |threads|
    ensures |InHand(threads[t])| <= |Carried(threads)|
  {
    var n := |threads| - 1;
    assert Carried(threads) == Carried(threads[..n]) + InHand(threads[n]);
    hide Carried, InHand;
    if t < n {
      InCarried(threads[..n], t);
    }
  }

  predicate SawRoom(th: Thread, size: nat) {
    !th.Failed? && (th.Pushing? ==> th.tail < size)
  }

  /** No push has failed or is going to: none has seen a full list. */
  predicate NoneFails(s: State) {
    forall t :: 0 <= t < |s.threads| ==> SawRoom(s.threads[t], |s.free|)
  }

  lemma {:induction false} SeesNow(s: State, s': State, e: Event)
    requires s' == Next(s, e) && s' != s && e.t < |s.threads| == |s'.threads| && SawRoom(s.threads[e.t], |s.free|)
    ensures !s'.threads[e.t].Failed?
    ensures s'.threads[e.t].Pushing? ==> s'.threads[e.t].tail == s'.tail && |InHand(s'.threads[e.t])| == 1
  {
  }

  lemma {:induction false} NoneFailsStep(start: nat, s: State, e: Event)
    requires Counted(start, s) && Counted(start, Next(s, e)) && NoneFails(s)
    ensures NoneFails(Next(s, e))
  {
    var s' := Next(s, e);
    if s' != s {
      OneThread(s, e);
      SeesNow(s, s', e);
      hide Next, Carried, InHand;
      InCarried(s'.threads, e.t);
    }
  }

  /** In every interleaving, room for each push when it begins is room enough. */
  lemma {:induction false} NoPushFails(s: State, es: seq<Event>)
    requires Quiet(s) && Roomy(s.tail, s, es)
    ensures NoneFails(Run(s, es))
  {
    CarriedIdle(s.threads);
    NoneFailsRun(s.tail, s, es);
  }

  lemma {:induction false} NoneFailsRun(start: nat, s: State, es: seq<Event>)
    requires Counted(start, s) && NoneFails(s) && Roomy(start, s, es)
    ensures NoneFails(Run(s, es))
    decreases |es|
  {
    if |es| > 0 {
      CountStep(start, s, es[0]);
      NoneFailsStep(start, s, es[0]);
      NoneFailsRun(start, Next(s, es[0]), es[1..]);
    }
  }

  function PushesIn(es: seq<Event>): nat {
    if |es| == 0 then 0 else PushesIn(es[1..]) + if es[0].BeginPush? then 1 else 0
  }

  lemma {:induction false} EnoughRoom(start: nat, s: State, es: seq<Event>)
    requires start + |s.begun| + PushesIn(es) <= |s.free| + |s.got|
    ensures Roomy(start, s, es)
    decreases |es|
  {
    if |es| > 0 {
      var s' := Next(s, es[0]);
      assert |s'.begun| <= |s.begun| + if es[0].BeginPush? then 1 else 0;
      assert |s'.free| == |s.free| && |s'.got| >= |s.got|;
      EnoughRoom(start, s', es[1..]);
    }
  }

  // ---------------------------------------------------------------- pops alone and pushes alone

  /** Pops alone take each listed frame at most once, and never one that is still listed. */
  lemma {:induction false} PoppedOnce(s: State, es: seq<Event>)
    requires Quiet(s) && forall i :: 0 <= i < |es| ==> !es[i].BeginPush?
    ensures var s' := Run(s, es);
            && s'.tail <= |s'.free|
            && multiset(s'.got) + multiset(s'.free[..s'.tail]) <= multiset(s.free[..s.tail])
            && (AllIdle(s'.threads) ==> multiset(s'.got) + multiset(s'.free[..s'.tail]) == multiset(s.free[..s.tail]))
  {
    var s', all := Run(s, es), multiset(s.free[..s.tail]);
    OnlyPops(s, es);
    QuietLinear(s);
    AlternatingOrdered(s, es);
    OrderedRun(all, s, es);
    LinearRight(all, s');
    assert s'.stack == s'.free[..s'.tail] by {
      forall k | 0 <= k < s'.tail ensures s'.stack[k] == s'.free[k] {
        assert Holds(s'.free, s'.threads, k, s'.clock, s'.stack[k]);
      }
    }
    assert multiset(s'.got) + Carried(s'.threads) + multiset(s'.stack) == all;
  }

  /** Pushes alone, with room for all of them, never fail and add exactly their frames. */
  lemma {:induction false} AllPushed(s: State, es: seq<Event>)
    requires Quiet(s) && forall i :: 0 <= i < |es| ==> !es[i].BeginPop?
    requires s.tail + PushesIn(es) <= |s.free|
    ensures var s' := Run(s, es);
            && NoneFails(s') && s'.tail <= |s'.free|
            && (AllIdle(s'.threads) ==> multiset(s'.free[..s'.tail]) == multiset(s.free[..s.tail]) + s'.begun)
  {
    OnlyPushes(s, es);
    AlternatingRight(s, es);
    EnoughRoom(s.tail, s, es);
    NoPushFails(s, es);
  }

  // ---------------------------------------------------------------- one pop and one push at once

  /** A push moves the tail before it writes its slot: a pop in between finds the frame that was popped from there before. */
  lemma {:induction false} MixedPopsTwice(frame: FrameId, other: FrameId)
    ensures var s := State([frame], 1, [Idle, Idle], [], multiset{}, [frame], 0);
            var es := [BeginPop(0), Go(0), Go(0), BeginPush(1, other), Go(1), BeginPop(0), Go(0), Go(0)];
            Quiet(s) && Run(s, es).got == [frame, frame]
  {
    var s0 := State([frame], 1, [Idle, Idle], [], multiset{}, [frame], 0);
    var s1 := Next(Next(Next(s0, BeginPop(0)), Go(0)), Go(0));
    assert s1 == State([frame], 0, [Idle, Idle], [frame], multiset{}, [], 1);
    var s2 := Next(Next(s1, BeginPush(1, other)), Go(1));
    assert s2 == State([frame], 1, [Idle, Claimed(other, 0, 1)], [frame], multiset{other}, [other], 2);
    var s3 := Next(Next(Next(s2, BeginPop(0)), Go(0)), Go(0));
    assert s3.got == [frame, frame];
    hide Next;
    var last := [BeginPop(0), Go(0), Go(0)];
    RunThree(s0, BeginPop(0), Go(0), Go(0), [BeginPush(1, other), Go(1)] + last);
    RunTwo(s1, BeginPush(1, other), Go(1), last);
    RunThree(s2, BeginPop(0), Go(0), Go(0), []);
    assert last + [] == last;
    assert [BeginPop(0), Go(0), Go(0), BeginPush(1, other), Go(1), BeginPop(0), Go(0), Go(0)]
           == [BeginPop(0), Go(0), Go(0)] + ([BeginPush(1, other), Go(1)] + last);
  }

  /**
   * Nor is any overlap safe: on every list with room, a push of a frame other than the one left in its slot loses conservation
   * to a pop that begins before the push has ended.
   */
  lemma {:induction false} OverlapBreaks(s: State, u: nat, t: nat, frame: FrameId)
    requires Quiet(s) && s.tail < |s.free| && u < |s.threads| && t < |s.threads| && u != t && frame != s.free[s.tail]
    ensures !Conserved(multiset(s.free[..s.tail]), Run(s, [BeginPush(u, frame), Go(u)] + [BeginPop(t), Go(t), Go(t)]))
  {
    var all := multiset(s.free[..s.tail]);
    QuietLinear(s);
    var s2 := Next(Next(s, BeginPush(u, frame)), Go(u));
    PushClaims(all, s, u, frame);
    var s4 := Next(Next(s2, BeginPop(t)), Go(t));
    hide Next, Conserved, Quiet, Linear, Run;
    PopTakes(all, s2, t, frame);
    ReadExact(all, s4, t);
    RunFive(s, BeginPush(u, frame), Go(u), BeginPop(t), Go(t), Go(t));
  }

  lemma {:induction false} RunFive(s: State, a: Event, b: Event, c: Event, d: Event, e: Event)
    ensures Run(s, [a, b] + [c, d, e]) == Next(Next(Next(Next(Next(s, a), b), c), d), e)
  {
    hide Next;
    RunTwo(s, a, b, [c, d, e]);
    RunThree(Next(Next(s, a), b), c, d, e, []);
    assert [c, d, e] + [] == [c, d, e];
  }

  lemma {:induction false} PushClaims(all: multiset<FrameId>, s: State, u: nat, frame: FrameId)
    requires Conserved(all, s) && s.tail == |s.stack| < |s.free| && u < |s.threads| && s.threads[u] == Idle
    ensures var s' := Next(Next(s, BeginPush(u, frame)), Go(u));
            && s' == s.(threads := s.threads[u := Claimed(frame, s.tail, s.clock)], begun := s.begun + multiset{frame},
                        tail := s.tail + 1, stack := s.stack + [frame], clock := s.clock + 1)
            && Conserved(all, s')
  {
    var s1 := Next(s, BeginPush(u, frame));
    assert s1 == s.(threads := s.threads[u := Pushing(frame, s.tail)], begun := s.begun + multiset{frame});
    ConservedStep(all, s, BeginPush(u, frame));
    ConservedStep(all, s1, Go(u));
    assert s1.threads[u := Claimed(frame, s.tail, s.clock)] == s.threads[u := Claimed(frame, s.tail, s.clock)];
    hide Conserved;
  }

  lemma {:induction false} PopTakes(all: multiset<FrameId>, s: State, t: nat, frame: FrameId)
    requires Conserved(all, s) && 0 < s.tail == |s.stack| <= |s.free| && t < |s.threads| && s.threads[t] == Idle
    requires s.stack[s.tail - 1] == frame
    ensures var s' := Next(Next(s, BeginPop(t)), Go(t));
            && |s'.threads| == |s.threads| && s'.threads[t] == Took(s.tail - 1, frame, s.clock) && s'.free == s.free && Conserved(all, s')
  {
    var s1 := Next(s, BeginPop(t));
    assert s1 == s.(threads := s.threads[t := Popping(s.tail)]);
    ConservedStep(all, s, BeginPop(t));
    ConservedStep(all, s1, Go(t));
    hide Conserved;
  }

  lemma {:induction false} RunTwo(s: State, a: Event, b: Event, es: seq<Event>)
    ensures Run(s, [a, b] + es) == Run(Next(Next(s, a), b), es)
  {
    hide Next;
    assert ([a, b] + es)[1..] == [b] + es;
    assert ([b] + es)[1..] == es;
    assert Run(s, [a, b] + es) == Run(Next(s, a), [b] + es);
    assert Run(Next(s, a), [b] + es) == Run(Next(Next(s, a), b), es);
  }

  lemma {:induction false} RunThree(s: State, a: Event, b: Event, c: Event, es: seq<Event>)
    ensures Run(s, [a, b, c] + es) == Run(Next(Next(Next(s, a), b), c), es)
  {
    hide Next;
    RunTwo(Next(s, a), b, c, es);
    assert ([a, b, c] + es)[1..] == [b, c] + es;
  }
}
