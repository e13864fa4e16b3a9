/** What calls of the shared free list come back with: no call is lost, none gives up while it could go on. */
module FreeListCalls {
  import opened Replacer
  import opened FreeListSteps

  /** The event is the start of a call: the thread is between calls. */
  predicate Starts(s: State, e: Event) {
    !e.Go? && e.t < |s.threads| && s.threads[e.t].Idle?
  }

  /** The event ends a pop that has no slot: it comes back without a frame. */
  predicate EndsEmpty(s: State, e: Event) {
    e.t < |s.threads| == |Next(s, e).threads| && s.threads[e.t].Popping? && Next(s, e).threads[e.t].Idle?
  }

  /** Pops begun, pops that came back without a frame, and frames brought along by pushes begun. */
  function PopsBegun(s: State, es: seq<Event>): nat
    decreases |es|
  {
    if |es| == 0 then 0
    else PopsBegun(Next(s, es[0]), es[1..]) + if Starts(s, es[0]) && es[0].BeginPop? then 1 else 0
  }

  function Empty(s: State, es: seq<Event>): nat
    decreases |es|
  {
    if |es| == 0 then 0 else Empty(Next(s, es[0]), es[1..]) + if EndsEmpty(s, es[0]) then 1 else 0
  }

  ghost function Brought(s: State, es: seq<Event>): multiset<FrameId>
    decreases |es|
  {
    if |es| == 0 then multiset{}
    else (if Starts(s, es[0]) && es[0].BeginPush? then multiset{es[0].frame} else multiset{}) + Brought(Next(s, es[0]), es[1..])
  }

  function Inside(threads: seq<Thread>): nat {
    if |threads| == 0 then 0 else Inside(threads[..|threads| - 1]) + if Pops(threads[|threads| - 1]) then 1 else 0
  }

  // ---------------------------------------------------------------- every call is answered once

  lemma {:induction false} InsideSet(threads: seq<Thread>, t: nat, th: Thread)
    requires t < |threads|
    ensures Inside(threads[t := th]) + (if Pops(threads[t]) then 1 else 0) == Inside(threads) + if Pops(th) then 1 else 0
  {
    var n := |threads| - 1;
    var init, now := threads[..n], threads[t := th];
    if t < n {
      InsideSet(init, t, th);
      assert now[..n] == init[t := th];
    } else {
      assert now[..n] == init;
    }
  }

  lemma {:induction false} NoneInside(threads: seq<Thread>)
    requires forall t :: 0 <= t < |threads| ==> !Pops(threads[t])
    ensures Inside(threads) == 0
  {
    if |threads| > 0 {
      NoneInside(threads[..|threads| - 1]);
    }
  }

  lemma {:induction false} StepAnswered(s: State, e: Event)
    requires s.tail == |s.stack| <= |s.free|
    ensures var s' := Next(s, e);
            && |s'.got| + Inside(s'.threads) + (if EndsEmpty(s, e) then 1 else 0)
               == |s.got| + Inside(s.threads) + (if Starts(s, e) && e.BeginPop? then 1 else 0)
            && s'.begun == s.begun + if Starts(s, e) && e.BeginPush? then multiset{e.frame} else multiset{}
  {
    var s' := Next(s, e);
    if s' != s {
      OneThread(s, e);
      InsideSet(s.threads, e.t, s'.threads[e.t]);
    }
  }

  /** Each pop begun comes back once, with a frame or without, or is under way; each push begun brings its frame. */
  lemma {:induction false} Answered(s: State, es: seq<Event>)
    requires s.tail == |s.stack| <= |s.free|
    ensures var s' := Run(s, es);
            && |s'.got| + Empty(s, es) + Inside(s'.threads) == |s.got| + Inside(s.threads) + PopsBegun(s, es)
            && s'.begun == s.begun + Brought(s, es)
    decreases |es|
  {
    if |es| > 0 {
      StepAnswered(s, es[0]);
      TailIsLength(s, es[0]);
      Answered(Next(s, es[0]), es[1..]);
    }
  }

  // ---------------------------------------------------------------- what a call saw was there

  /** A thread that has no slot yet, or found no room, saw this tail when it last looked. */
  predicate Saw(th: Thread, tail: nat, size: nat) {
    match th
    case Popping(seen) => seen == tail
    case Pushing(_, seen) => seen == tail
    case Failed(_) => tail >= size
    case _ => false
  }

  /** Earlier the thread was in the call that it is in now, and had no slot. */
  predicate SameCall(now: Thread, earlier: Thread) {
    match now
    case Popping(_) => earlier.Popping?
    case Pushing(frame, _) => earlier.Pushing? && earlier.frame == frame
    case Failed(frame) => (earlier.Pushing? || earlier.Failed?) && earlier.frame == frame
    case _ => false
  }

  function ThreadOf(s: State, t: nat): Thread {
    if t < |s.threads| then s.threads[t] else Idle
  }

  /** After event `i`, with the call under way from then on, the tail was what the thread saw. */
  ghost predicate SawAt(s: State, es: seq<Event>, t: nat, i: nat) {
    && i <= |es|
    && Saw(ThreadOf(Run(s, es), t), Run(s, es[..i]).tail, |s.free|)
    && forall m: nat :: i <= m <= |es| ==> SameCall(ThreadOf(Run(s, es), t), ThreadOf(Run(s, es[..m]), t))
  }

  lemma {:induction false} RunLast(s: State, es: seq<Event>, e: Event)
    ensures Run(s, es + [e]) == Next(Run(s, es), e)
    decreases |es|
  {
    if |es| == 0 {
      assert es + [e] == [e] && [e][1..] == [];
    } else {
      assert (es + [e])[1..] == es[1..] + [e];
      hide Next;
      RunLast(Next(s, es[0]), es[1..], e);
    }
  }

  lemma {:induction false} RunSizes(s: State, es: seq<Event>)
    ensures |Run(s, es).threads| == |s.threads| && |Run(s, es).free| == |s.free|
    decreases |es|
  {
    if |es| > 0 {
      if Next(s, es[0]) != s {
        OneThread(s, es[0]);
      }
      RunSizes(Next(s, es[0]), es[1..]);
    }
  }

  /** Over one event a thread's call goes on with what it saw, or the thread looks. */
  lemma {:induction false} Looks(s: State, e: Event, t: nat)
    requires SameCall(ThreadOf(Next(s, e), t), ThreadOf(Next(s, e), t))
    ensures var th, th' := ThreadOf(s, t), ThreadOf(Next(s, e), t);
            || (SameCall(th', th) && forall tail: nat :: Saw(th, tail, |s.free|) ==> Saw(th', tail, |s.free|))
            || Saw(th', Next(s, e).tail, |s.free|)
  {
    if Next(s, e) != s {
      OneThread(s, e);
    }
  }

  lemma {:induction false} SawLast(s: State, es: seq<Event>, e: Event, t: nat, i: nat)
    requires SawAt(s, es, t, i)
    requires SameCall(ThreadOf(Run(s, es + [e]), t), ThreadOf(Run(s, es), t))
    requires forall tail: nat :: Saw(ThreadOf(Run(s, es), t), tail, |s.free|) ==> Saw(ThreadOf(Run(s, es + [e]), t), tail, |s.free|)
    ensures SawAt(s, es + [e], t, i)
  {
    var all := es + [e];
    assert all[..i] == es[..i];
    hide Run;
    forall m: nat | i <= m <= |all| ensures SameCall(ThreadOf(Run(s, all), t), ThreadOf(Run(s, all[..m]), t)) {
      if m < |all| {
        assert all[..m] == es[..m];
        assert SameCall(ThreadOf(Run(s, es), t), ThreadOf(Run(s, es[..m]), t));
      } else {
        assert all[..m] == all;
      }
    }
  }

  /** What a thread without a slot goes by was the tail at some time during its call. */
  lemma {:induction false} SawDuring(s: State, es: seq<Event>, t: nat)
    requires AllIdle(s.threads) && SameCall(ThreadOf(Run(s, es), t), ThreadOf(Run(s, es), t))
    ensures exists i: nat :: SawAt(s, es, t, i)
    decreases |es|
  {
    if |es| > 0 {
      var n := |es| - 1;
      var init, e := es[..n], es[n];
      assert es == init + [e];
      RunLast(s, init, e);
      RunSizes(s, init);
      Looks(Run(s, init), e, t);
      if Saw(ThreadOf(Run(s, es), t), Run(s, es).tail, |s.free|) {
        assert es[..|es|] == es;
        hide Run;
        assert SawAt(s, es, t, |es|);
      } else {
        SawDuring(s, init, t);
        var i: nat :| SawAt(s, init, t, i);
        SawLast(s, init, e, t, i);
      }
    }
  }

  lemma {:induction false} TailInRange(s: State, es: seq<Event>)
    requires s.tail == |s.stack| <= |s.free|
    ensures Run(s, es).tail == |Run(s, es).stack| <= |Run(s, es).free| == |s.free|
    decreases |es|
  {
    if |es| > 0 {
      TailIsLength(s, es[0]);
      TailInRange(Next(s, es[0]), es[1..]);
      RunSizes(s, es[..1]);
    }
    RunSizes(s, es);
  }

  /** After event `i` the tail is `tail`, and from then on the thread is in the pop it is in at the end. */
  ghost predicate InPop(s: State, es: seq<Event>, t: nat, i: nat, tail: nat) {
    && i <= |es| && Run(s, es[..i]).tail == tail
    && forall m: nat :: i <= m <= |es| ==> ThreadOf(Run(s, es[..m]), t).Popping?
  }

  /** The same for a push of `frame` that has failed. */
  ghost predicate InFailing(s: State, es: seq<Event>, t: nat, frame: FrameId, i: nat, tail: nat) {
    && i <= |es| && Run(s, es[..i]).tail == tail
    && forall m: nat :: i <= m <= |es| ==> ThreadOf(Run(s, es[..m]), t) == Failed(frame) || FramePushed(ThreadOf(Run(s, es[..m]), t), frame)
  }

  predicate FramePushed(th: Thread, frame: FrameId) {
    th.Pushing? && th.frame == frame
  }

  /** A pop comes back without a frame only if the list was empty at some time while it was under way. */
  lemma {:induction false} EmptyOnlyIfEmpty(s: State, es: seq<Event>, e: Event)
    requires AllIdle(s.threads) && EndsEmpty(Run(s, es), e)
    ensures exists i: nat :: InPop(s, es, e.t, i, 0)
  {
    var th := ThreadOf(Run(s, es), e.t);
    assert th.Popping? && th.tail == 0;
    SawDuring(s, es, e.t);
    var i: nat :| SawAt(s, es, e.t, i);
    hide Run;
    forall m: nat | i <= m <= |es| ensures ThreadOf(Run(s, es[..m]), e.t).Popping? {
      assert SameCall(th, ThreadOf(Run(s, es[..m]), e.t));
    }
    assert InPop(s, es, e.t, i, 0);
  }

  /** A push fails only if the list was full at some time while it was under way. */
  lemma {:induction false} FailedOnlyIfFull(s: State, es: seq<Event>, t: nat)
    requires AllIdle(s.threads) && s.tail == |s.stack| <= |s.free| && ThreadOf(Run(s, es), t).Failed?
    ensures exists i: nat :: InFailing(s, es, t, ThreadOf(Run(s, es), t).frame, i, |s.free|)
  {
    var th := ThreadOf(Run(s, es), t);
    SawDuring(s, es, t);
    var i: nat :| SawAt(s, es, t, i);
    TailInRange(s, es[..i]);
    hide Run;
    forall m: nat | i <= m <= |es|
      ensures ThreadOf(Run(s, es[..m]), t) == th || FramePushed(ThreadOf(Run(s, es[..m]), t), th.frame)
    {
      assert SameCall(th, ThreadOf(Run(s, es[..m]), t));
    }
    assert InFailing(s, es, t, th.frame, i, |s.free|);
  }

  // ---------------------------------------------------------------- calls come to an end

  /** Left alone, a pop ends within three steps: with the frame on top, or without one if the list is, or was when it looked, empty. */
  lemma {:induction false} PopAlone(s: State, t: nat)
    requires s.tail == |s.stack| <= |s.free| && t < |s.threads| && s.threads[t].Popping?
    ensures var s' := Run(s, [Go(t), Go(t), Go(t)]);
            if s.tail == 0 || s.threads[t].tail == 0 then s' == s.(threads := s.threads[t := Idle])
            else && s' == s.(threads := s.threads[t := Idle], tail := s.tail - 1, stack := s.stack[..s.tail - 1], clock := s.clock + 1,
                             got := s.got + [s.free[s.tail - 1]])
  {
    RunThree(s, Go(t), Go(t), Go(t), []);
    assert [Go(t), Go(t), Go(t)] + [] == [Go(t), Go(t), Go(t)];
    var s1 := Next(s, Go(t));
    var s2 := Next(s1, Go(t));
    var s3 := Next(s2, Go(t));
    assert s3.threads == s.threads[t := Idle];
  }

  /** Left alone, a push ends within three steps: its frame comes on top, or it fails if the list is, or was when it looked, full. */
  lemma {:induction false} PushAlone(s: State, t: nat)
    requires s.tail == |s.stack| <= |s.free| && t < |s.threads| && s.threads[t].Pushing?
    ensures var s', frame := Run(s, [Go(t), Go(t), Go(t)]), s.threads[t].frame;
            if s.tail == |s.free| || s.threads[t].tail >= |s.free| then s' == s.(threads := s.threads[t := Failed(frame)])
            else s' == s.(threads := s.threads[t := Idle], tail := s.tail + 1, stack := s.stack + [frame], clock := s.clock + 1,
                          free := s.free[s.tail := frame])
  {
    RunThree(s, Go(t), Go(t), Go(t), []);
    assert [Go(t), Go(t), Go(t)] + [] == [Go(t), Go(t), Go(t)];
    var s1 := Next(s, Go(t));
    var s2 := Next(s1, Go(t));
    var s3 := Next(s2, Go(t));
    assert s3.threads == s.threads[t := s3.threads[t]];
  }

  lemma {:induction false} ClockTail(s: State, es: seq<Event>)
    ensures Run(s, es).clock >= s.clock && (Run(s, es).clock == s.clock ==> Run(s, es).tail == s.tail)
    decreases |es|
  {
    if |es| > 0 {
      ClockTail(Next(s, es[0]), es[1..]);
    }
  }

  lemma {:induction false} RunParts(s: State, es: seq<Event>, i: nat)
    requires i <= |es|
    ensures Run(s, es) == Run(Run(s, es[..i]), es[i..])
    decreases |es|
  {
    if i == 0 {
      assert es[..i] == [] && es[i..] == es;
    } else {
      assert es[..i][1..] == es[1..][..i - 1] && es[1..][i - 1..] == es[i..];
      hide Next;
      RunParts(Next(s, es[0]), es[1..], i - 1);
    }
  }

  /** A thread whose swap comes too late looks again, and some other call has got its slot since it looked last. */
  lemma {:induction false} LostTo(s: State, es: seq<Event>, t: nat)
    requires AllIdle(s.threads) && (ThreadOf(Run(s, es), t).Popping? || ThreadOf(Run(s, es), t).Pushing?)
    requires SameCall(ThreadOf(Run(s, es + [Go(t)]), t), ThreadOf(Run(s, es), t)) && !ThreadOf(Run(s, es + [Go(t)]), t).Failed?
    requires s.tail == |s.stack| <= |s.free|
    ensures exists i: nat :: SawAt(s, es, t, i) && Run(s, es[..i]).clock < Run(s, es).clock
  {
    TailInRange(s, es);
    RunSizes(s, es);
    RunLast(s, es, Go(t));
    var th := ThreadOf(Run(s, es), t);
    assert Run(s, es).tail != th.tail;
    SawDuring(s, es, t);
    var i: nat :| SawAt(s, es, t, i);
    RunParts(s, es, i);
    ClockTail(Run(s, es[..i]), es[i..]);
  }

  // ---------------------------------------------------------------- pops alone and pushes alone

  lemma {:induction false} PopsDrain(s: State, es: seq<Event>)
    requires s.tail == |s.stack| <= |s.free|
    requires forall i :: 0 <= i < |es| ==> !es[i].BeginPush?
    requires forall u :: 0 <= u < |s.threads| ==> !Pushes(s.threads[u]) && (s.threads[u] == Popping(0) ==> s.tail == 0)
    ensures Run(s, es).tail <= s.tail && (Empty(s, es) > 0 ==> Run(s, es).tail == 0)
    decreases |es|
  {
    if |es| > 0 {
      var s' := Next(s, es[0]);
      TailIsLength(s, es[0]);
      if s' != s {
        OneThread(s, es[0]);
      }
      assert s'.tail <= s.tail && (EndsEmpty(s, es[0]) ==> s'.tail == 0);
      forall u | 0 <= u < |s'.threads| ensures !Pushes(s'.threads[u]) && (s'.threads[u] == Popping(0) ==> s'.tail == 0) {
        assert u != es[0].t ==> s'.threads[u] == s.threads[u];
      }
      PopsDrain(s', es[1..]);
    }
  }

  /** Pops alone: once all are back, as many frames are handed out as there were pops or frames, whichever is less. */
  lemma {:induction false} PopsServed(s: State, es: seq<Event>)
    requires Quiet(s) && AllIdle(Run(s, es).threads) && forall i :: 0 <= i < |es| ==> !es[i].BeginPush?
    ensures |Run(s, es).got| == (if PopsBegun(s, es) <= s.tail then PopsBegun(s, es) else s.tail)
    ensures |Run(s, es).got| + Empty(s, es) == PopsBegun(s, es)
  {
    var s' := Run(s, es);
    PopsDrain(s, es);
    Answered(s, es);
    PoppedOnce(s, es);
    NoneInside(s.threads);
    NoneInside(s'.threads);
    assert |multiset(s'.got) + multiset(s'.free[..s'.tail])| == |s'.got| + s'.tail;
    assert |multiset(s.free[..s.tail])| == s.tail;
  }

  /** A thread that saw a full list. */
  predicate SawFull(th: Thread, size: nat) {
    th.Failed? || (th.Pushing? && th.tail >= size)
  }

  lemma {:induction false} PushesFill(s: State, es: seq<Event>)
    requires s.tail == |s.stack| <= |s.free|
    requires forall i :: 0 <= i < |es| ==> !es[i].BeginPop?
    requires forall u :: 0 <= u < |s.threads| ==> !Pops(s.threads[u]) && (SawFull(s.threads[u], |s.free|) ==> s.tail == |s.free|)
    ensures var s' := Run(s, es);
            && s'.tail == |s'.stack| <= |s'.free| == |s.free|
            && forall u :: 0 <= u < |s'.threads| ==> !Pops(s'.threads[u]) && (s'.threads[u].Failed? ==> s'.tail == |s.free|)
    decreases |es|
  {
    if |es| > 0 {
      var s' := Next(s, es[0]);
      TailIsLength(s, es[0]);
      if s' != s {
        OneThread(s, es[0]);
      }
      assert s.tail <= s'.tail && |s'.free| == |s.free|;
      forall u | 0 <= u < |s'.threads|
        ensures !Pops(s'.threads[u]) && (SawFull(s'.threads[u], |s.free|) ==> s'.tail == |s.free|)
      {
        assert u != es[0].t ==> s'.threads[u] == s.threads[u];
      }
      PushesFill(s', es[1..]);
    }
  }

  /** Frames whose push has failed. */
  ghost function Refused(threads: seq<Thread>): multiset<FrameId> {
    if |threads| == 0 then multiset{}
    else Refused(threads[..|threads| - 1]) + if threads[|threads| - 1].Failed? then multiset{threads[|threads| - 1].frame} else multiset{}
  }

  lemma {:induction false} RefusedAre(threads: seq<Thread>)
    requires forall u :: 0 <= u < |threads| ==> threads[u].Idle? || threads[u].Failed?
    ensures Carried(threads) == Refused(threads)
    ensures Refused(threads) == multiset{} || exists u :: 0 <= u < |threads| && threads[u].Failed?
  {
    if |threads| > 0 {
      RefusedAre(threads[..|threads| - 1]);
    }
  }

  /** Pushes alone: once all have ended, the list holds the old frames and all pushed but the refused, and refuses none unless full. */
  lemma {:induction false} PushesServed(s: State, es: seq<Event>)
    requires Quiet(s) && forall i :: 0 <= i < |es| ==> !es[i].BeginPop?
    requires forall u :: 0 <= u < |Run(s, es).threads| ==> Run(s, es).threads[u].Idle? || Run(s, es).threads[u].Failed?
    ensures var s' := Run(s, es);
            && s'.tail <= |s'.free| == |s.free|
            && multiset(s'.free[..s'.tail]) + Refused(s'.threads) == multiset(s.free[..s.tail]) + Brought(s, es)
            && (Refused(s'.threads) != multiset{} ==> s'.tail == |s.free|)
  {
    var s', all := Run(s, es), multiset(s.free[..s.tail]);
    PushesFill(s, es);
    OnlyPushes(s, es);
    Answered(s, es);
    RefusedAre(s'.threads);
    AlternatingLinear(all, s, es);
    assert s'.stack == s'.free[..s'.tail] by {
      forall k | 0 <= k < s'.tail ensures s'.stack[k] == s'.free[k] {
        assert Holds(s'.free, s'.threads, k, s'.clock, s'.stack[k]);
      }
    }
    assert Brought(s, es) == s'.begun;
    assert multiset(s'.got) == multiset{};
    assert multiset(s'.got) + Carried(s'.threads) + multiset(s'.stack) == all + s'.begun;
  }

  lemma {:induction false} AlternatingLinear(all: multiset<FrameId>, s: State, es: seq<Event>)
    requires Quiet(s) && Alternating(s, es) && all == multiset(s.free[..s.tail])
    ensures Linear(Run(s, es)) && Conserved(all, Run(s, es))
  {
    QuietLinear(s);
    AlternatingOrdered(s, es);
    OrderedRun(all, s, es);
  }
}
