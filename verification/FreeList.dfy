/** The stack of free frames. */
module FreeList {
  import opened Options
  import opened Replacer

  class FreeList {
    const free: array<FrameId>
    var tail: nat

    ghost predicate Valid()
      reads this
    {
      tail <= free.Length
    }

    /** The free frames, the next one to be handed out last. */
    ghost function Contents(): seq<FrameId>
      reads this, free
      requires Valid()
    {
      free[..tail]
    }

    constructor (size: nat)
      ensures Valid() && fresh(free) && free.Length == size
      ensures |Contents()| == size && forall i :: 0 <= i < size ==> Contents()[i] == i
    {
      free := new FrameId[size](i => i);
      tail := size;
    }

    method Pop() returns (r: Option<FrameId>)
      requires Valid()
      modifies this
      ensures Valid()
      ensures r == if old(Contents()) == [] then None else Some(old(Contents())[old(tail) - 1])
      ensures Contents() == if old(Contents()) == [] then [] else old(Contents())[..old(tail) - 1]
    {
      if tail == 0 {
        return None;
      }
      tail := tail - 1;
      r := Some(free[tail]);
    }

    /** There must be room. */
    method Push(frame: FrameId)
      requires Valid() && tail < free.Length
      modifies this, free
      ensures Valid() && Contents() == old(Contents()) + [frame]
    {
      tail := tail + 1;
      free[tail - 1] := frame;
    }
  }
}
