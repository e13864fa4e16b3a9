/** A decoded B+ tree page and the operations that change it in memory. */
module BTreeNode {
  import opened Options
  import opened Buffers
  import opened Entries
  import opened BTreeShape
  import opened BTreeSafety

  datatype NodeType = InternalNode | LeafNode

  datatype Either = Val(v: Value) | Pointer(ptr: PageId)

  type Slot = Entry<Either>

  /** What a page holds: the node written to it last. */
  datatype Page = Page(t: NodeType, isRoot: bool, next: PageId, id: PageId, values: seq<Slot>)

  const KEY_SIZE := 8

  /** Slot counts at which a node is cut before anything is added below it. */
  const CAP := PAGE_SIZE / 2 / KEY_SIZE

  /** All slots of an internal node are pointers. */
  ghost predicate Routable(p: Page) {
    p.t.InternalNode? ==> forall i :: 0 <= i < |p.values| ==> p.values[i].val.Pointer?
  }

  class Node {
    var t: NodeType
    var isRoot: bool
    var next: PageId
    var id: PageId
    var values: seq<Slot>

    constructor New(id: PageId, t: NodeType, isRoot: bool)
      ensures View() == Page(t, isRoot, -1, id, [])
    {
      this.t, this.isRoot, this.next, this.id, this.values := t, isRoot, -1, id, [];
    }

    constructor From(p: Page)
      ensures View() == p
    {
      t, isRoot, next, id, values := p.t, p.isRoot, p.next, p.id, p.values;
    }

    function View(): Page
      reads this
    {
      Page(t, isRoot, next, id, values)
    }

    /** Move the greater half of the slots to a new node, which a leaf puts next in the leaf chain. */
    method Split(newId: PageId) returns (n: Node)
      modifies this
      ensures fresh(n)
      ensures var m := |old(values)| / 2;
              && View() == old(View()).(isRoot := false, values := old(values)[..m], next := if t.LeafNode? then newId else old(next))
              && n.View() == Page(old(t), false, if t.LeafNode? then old(next) else -1, newId, old(values)[m..])
    {
      var m := |values| / 2;
      var rest := values[m..];
      values := values[..m];
      isRoot := false;
      n := new Node.From(Page(t, false, -1, newId, rest));
      if t == LeafNode {
        n.next := next;
        next := n.id;
      }
    }

    /** The slot a parent keeps for this node; a leaf's last key must not be the greatest key of its type. */
    method GetSeparator() returns (s: Slot)
      requires |values| > 0
      requires t.LeafNode? ==> Last(values).key < KEY_MAX
      ensures s == Entry(if t.LeafNode? then Last(values).key + 1 else Last(values).key, Pointer(id))
    {
      var k := Last(values).key;
      if t == LeafNode {
        k := k + 1;
      }
      s := Entry(k, Pointer(id));
    }

    /** The page a search for `key` goes on with: that of the first slot above the key, else `next` if there is one. */
    function FindChild(key: int): (p: Option<PageId>)
      requires Routable(View())
      reads this
      ensures t.LeafNode? ==> p.None?
      ensures t.InternalNode? && Upper(values, key) < |values| ==> p == Some(values[Upper(values, key)].val.ptr)
      ensures t.InternalNode? && Upper(values, key) == |values| ==> p == if next == -1 then None else Some(next)
    {
      if t == LeafNode then None
      else
        var i := Upper(values, key);
        if i < |values| then Some(values[i].val.ptr)
        else if next == -1 then None
        else Some(next)
    }

    function LastKey(): Option<int>
      reads this
    {
      if |values| == 0 then None else Some(Last(values).key)
    }

    predicate AlmostFull()
      reads this
      ensures AlmostFull() <==> |values| >= CAP
    {
      |values| * KEY_SIZE >= PAGE_SIZE / 2
    }

    method Insert(slot: Slot) returns (added: bool)
      modifies this`values
      ensures values == InsertNew(old(values), slot.key, slot.val)
      ensures var p := Position(old(values), slot.key);
              added <==> !(p < |old(values)| && old(values)[p].key == slot.key)
    {
      var i, j := |values|, 0;
      while j < |values|
        invariant 0 <= j <= |values| && i == |values|
        invariant values == old(values)
        invariant forall k :: 0 <= k < j ==> values[k].key < slot.key
      {
        if values[j].key == slot.key {
          PositionIs(values, slot.key, j);
          return false;
        }
        if values[j].key > slot.key {
          i := j;
          break;
        }
        j := j + 1;
      }
      PositionIs(values, slot.key, i);
      values := values[..i] + [slot] + values[i..];
      return true;
    }

    /** Insert a slot, or swap it with the slot that has its key. */
    method Replace(slot: Slot) returns (previous: Option<Slot>)
      modifies this`values
      ensures values == Entries.Replace(old(values), slot.key, slot.val)
      ensures var p := Position(old(values), slot.key);
              previous == if p < |old(values)| && old(values)[p].key == slot.key then Some(old(values)[p]) else None
    {
      var i, j := |values|, 0;
      while j < |values|
        invariant 0 <= j <= |values| && i == |values|
        invariant values == old(values)
        invariant forall k :: 0 <= k < j ==> values[k].key < slot.key
      {
        if values[j].key == slot.key {
          PositionIs(values, slot.key, j);
          previous := Some(values[j]);
          values := values[j := slot];
          return;
        }
        if values[j].key > slot.key {
          i := j;
          break;
        }
        j := j + 1;
      }
      PositionIs(values, slot.key, i);
      values := values[..i] + [slot] + values[i..];
      return None;
    }

    method PopLast() returns (last: Option<Slot>)
      modifies this`values
      ensures |old(values)| == 0 ==> last.None? && values == old(values)
      ensures |old(values)| > 0 ==> last == Some(Last(old(values))) && values == old(values)[..|old(values)| - 1]
    {
      if |values| == 0 {
        return None;
      }
      last := Some(Last(values));
      values := values[..|values| - 1];
    }

    function Get(key: int): Option<Either>
      reads this
    {
      Find(values, key)
    }

    method Remove(key: int) returns (removed: bool)
      modifies this`values
      ensures values == Entries.Remove(old(values), key)
      ensures removed <==> Find(old(values), key).Some?
    {
      var i := IndexOf(values, key);
      if i < |values| {
        values := values[..i] + values[i + 1..];
        return true;
      }
      return false;
    }
  }
}
