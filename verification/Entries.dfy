/** Key-ordered vectors of slots, as a B+ tree node keeps them, and the operations a node performs on them. */
module Entries {
  import opened Options

  datatype Entry<+T> = Entry(key: int, val: T)

  /** Strictly increasing keys. */
  ghost predicate Sorted<T>(s: seq<Entry<T>>) {
    forall i, j :: 0 <= i < j < |s| ==> s[i].key < s[j].key
  }

  ghost predicate AllBelow<T>(s: seq<Entry<T>>, key: int) {
    forall i :: 0 <= i < |s| ==> s[i].key < key
  }

  ghost predicate AllFrom<T>(s: seq<Entry<T>>, key: int) {
    forall i :: 0 <= i < |s| ==> key <= s[i].key
  }

  function Last<T>(s: seq<Entry<T>>): Entry<T>
    requires |s| > 0
  {
    s[|s| - 1]
  }

  /** Index, from `i` on, of the first slot whose key is not below `key`. */
  function PositionFrom<T>(s: seq<Entry<T>>, key: int, i: nat): (p: nat)
    requires i <= |s|
    ensures i <= p <= |s|
    ensures forall j :: i <= j < p ==> s[j].key < key
    ensures p < |s| ==> key <= s[p].key
    decreases |s| - i
  {
    if i == |s| || key <= s[i].key then i else PositionFrom(s, key, i + 1)
  }

  /** Index of the first slot whose key is not below `key`. */
  function Position<T>(s: seq<Entry<T>>, key: int): (p: nat)
    ensures p <= |s|
    ensures forall j :: 0 <= j < p ==> s[j].key < key
    ensures p < |s| ==> key <= s[p].key
  {
    PositionFrom(s, key, 0)
  }

  /** Index of the first slot whose key is above `key`: the slot a search follows. */
  function Upper<T>(s: seq<Entry<T>>, key: int): (p: nat)
    ensures p <= |s|
    ensures forall j :: 0 <= j < p ==> s[j].key <= key
    ensures p < |s| ==> key < s[p].key
  {
    PositionFrom(s, key + 1, 0)
  }

  /** Index just behind the slots with keys up to `key`, in a vector where `key` occurs at most at its position. */
  function After<T>(s: seq<Entry<T>>, key: int): (q: nat)
    ensures Position(s, key) <= q <= |s|
  {
    var p := Position(s, key);
    if p < |s| && s[p].key == key then p + 1 else p
  }

  /** Add a slot at its place, overwriting a slot with the same key. */
  function Replace<T>(s: seq<Entry<T>>, key: int, val: T): seq<Entry<T>> {
    s[..Position(s, key)] + [Entry(key, val)] + s[After(s, key)..]
  }

  /** Add a slot at its place, unless its key is taken. */
  function InsertNew<T>(s: seq<Entry<T>>, key: int, val: T): seq<Entry<T>> {
    var p := Position(s, key);
    if p < |s| && s[p].key == key then s else s[..p] + [Entry(key, val)] + s[p..]
  }

  /** Index of the first slot carrying `key`, or the length when there is none. */
  function IndexOf<T>(s: seq<Entry<T>>, key: int, i: nat := 0): (p: nat)
    requires i <= |s|
    ensures i <= p <= |s|
    ensures forall j :: i <= j < p ==> s[j].key != key
    ensures p < |s| ==> s[p].key == key
    decreases |s| - i
  {
    if i == |s| || s[i].key == key then i else IndexOf(s, key, i + 1)
  }

  /** Drop the first slot carrying `key`. */
  function Remove<T>(s: seq<Entry<T>>, key: int): seq<Entry<T>> {
    var p := IndexOf(s, key);
    if p == |s| then s else s[..p] + s[p + 1..]
  }

  /** The value of the first slot carrying `key`. */
  function Find<T>(s: seq<Entry<T>>, key: int): Option<T> {
    var p := IndexOf(s, key);
    if p == |s| then None else Some(s[p].val)
  }

  /** The slots with `from <= key <= to`. */
  function Between<T>(s: seq<Entry<T>>, from: int, to: int): seq<Entry<T>> {
    if |s| == 0 then []
    else if from <= s[0].key <= to then [s[0]] + Between(s[1..], from, to)
    else Between(s[1..], from, to)
  }

  /** The finite map a vector of slots stands for (a later slot wins). */
  function ToMap<T>(s: seq<Entry<T>>): map<int, T> {
    if |s| == 0 then map[] else ToMap(s[..|s| - 1])[Last(s).key := Last(s).val]
  }

  // ---------------------------------------------------------------- positions

  lemma {:induction false} PositionIs<T>(s: seq<Entry<T>>, key: int, p: nat)
    requires p <= |s| && forall j :: 0 <= j < p ==> s[j].key < key
    requires p < |s| ==> key <= s[p].key
    ensures Position(s, key) == p
  {
  }

  lemma {:induction false} UpperIs<T>(s: seq<Entry<T>>, key: int, p: nat)
    requires p <= |s| && forall j :: 0 <= j < p ==> s[j].key <= key
    requires p < |s| ==> key < s[p].key
    ensures Upper(s, key) == p
  {
  }

  lemma {:induction false} Parted<U>(s: seq<U>, i: nat)
    requires i < |s|
    ensures s == s[..i] + [s[i]] + s[i + 1..]
    ensures s[i..] == [s[i]] + s[i + 1..]
  {
  }

  lemma {:induction false} Halved<U>(s: seq<U>, i: nat)
    requires i <= |s|
    ensures s == s[..i] + s[i..]
  {
  }

  lemma {:induction false} PositionInfix<T>(a: seq<Entry<T>>, x: seq<Entry<T>>, b: seq<Entry<T>>, key: int)
    requires AllBelow(a, key) && AllFrom(b, key + 1)
    ensures Position(a + x + b, key) == |a| + Position(x, key)
    ensures After(a + x + b, key) == |a| + After(x, key)
  {
    var s := a + x + b;
    assert forall j :: 0 <= j < |a| ==> s[j] == a[j];
    assert forall j :: 0 <= j < |x| ==> s[|a| + j] == x[j];
    assert b != [] ==> s[|a| + |x|] == b[0];
    PositionIs(s, key, |a| + Position(x, key));
  }

  lemma {:induction false} SpliceInfix<U>(a: seq<U>, x: seq<U>, b: seq<U>, p: nat, q: nat, mid: seq<U>)
    requires p <= q <= |x|
    ensures (a + x + b)[..|a| + p] + mid + (a + x + b)[|a| + q..] == a + (x[..p] + mid + x[q..]) + b
  {
    assert (a + x + b)[..|a| + p] == a + x[..p];
    assert (a + x + b)[|a| + q..] == x[q..] + b;
  }

  /** Upserting into the part of a vector that can hold the key is upserting into the whole. */
  lemma {:induction false} ReplaceInfix<T>(a: seq<Entry<T>>, x: seq<Entry<T>>, b: seq<Entry<T>>, key: int, val: T)
    requires AllBelow(a, key) && AllFrom(b, key + 1)
    ensures Replace(a + x + b, key, val) == a + Replace(x, key, val) + b
  {
    PositionInfix(a, x, b, key);
    SpliceInfix(a, x, b, Position(x, key), After(x, key), [Entry(key, val)]);
  }

  lemma {:induction false} ReplaceSuffix<T>(a: seq<Entry<T>>, x: seq<Entry<T>>, key: int, val: T)
    requires AllBelow(a, key)
    ensures Replace(a + x, key, val) == a + Replace(x, key, val)
  {
    ReplaceInfix(a, x, [], key, val);
    assert a + x + [] == a + x;
    assert a + Replace(x, key, val) + [] == a + Replace(x, key, val);
  }

  lemma {:induction false} ReplacePrefix<T>(x: seq<Entry<T>>, b: seq<Entry<T>>, key: int, val: T)
    requires AllFrom(b, key + 1)
    ensures Replace(x + b, key, val) == Replace(x, key, val) + b
  {
    ReplaceInfix([], x, b, key, val);
    assert [] + x + b == x + b;
    assert [] + Replace(x, key, val) + b == Replace(x, key, val) + b;
  }

  lemma {:induction false} ReplaceOne<T>(e: Entry<T>, key: int, val: T)
    requires key < e.key
    ensures Replace([e], key, val) == [Entry(key, val), e]
  {
    PositionIs([e], key, 0);
  }

  lemma {:induction false} ReplaceTwo<T>(d: Entry<T>, e: Entry<T>, key: int, val: T)
    requires d.key < key <= e.key
    ensures Replace([d, e], key, val) == if key == e.key then [d, Entry(key, val)] else [d, Entry(key, val), e]
  {
    PositionIs([d, e], key, 1);
  }

  /** An upsert keeps the order, adds at most one slot, and moves the last key to the new key at most. */
  lemma {:induction false} ReplaceShape<T>(s: seq<Entry<T>>, key: int, val: T)
    requires Sorted(s)
    ensures var r := Replace(s, key, val);
            && Sorted(r)
            && |s| <= |r| <= |s| + 1
            && |r| > 0
            && Last(r).key == (if |s| > 0 && key < Last(s).key then Last(s).key else key)
  {
  }

  lemma {:induction false} ReplaceSorted<T>(s: seq<Entry<T>>, key: int, val: T)
    requires Sorted(s)
    ensures Sorted(Replace(s, key, val))
  {
  }

  /** An upsert changes the vector at its key only. */
  lemma {:induction false} ReplaceBounds<T>(s: seq<Entry<T>>, key: int, val: T, lo: int, hi: int)
    requires AllFrom(s, lo) && AllBelow(s, hi) && lo <= key < hi
    ensures AllFrom(Replace(s, key, val), lo) && AllBelow(Replace(s, key, val), hi)
  {
  }

  lemma {:induction false} SortedConcat<T>(a: seq<Entry<T>>, b: seq<Entry<T>>, mid: int)
    requires Sorted(a) && Sorted(b) && AllBelow(a, mid) && AllFrom(b, mid)
    ensures Sorted(a + b)
  {
  }

  lemma {:induction false} UnsortedLeft<T>(x: seq<Entry<T>>, b: seq<Entry<T>>)
    requires !Sorted(x)
    ensures !Sorted(x + b)
  {
    var i, j :| 0 <= i < j < |x| && x[i].key >= x[j].key;
    assert (x + b)[i].key >= (x + b)[j].key;
  }

  lemma {:induction false} UnsortedRight<T>(a: seq<Entry<T>>, x: seq<Entry<T>>)
    requires !Sorted(x)
    ensures !Sorted(a + x)
  {
    var i, j :| 0 <= i < j < |x| && x[i].key >= x[j].key;
    assert (a + x)[|a| + i].key >= (a + x)[|a| + j].key;
  }

  lemma {:induction false} UnsortedTwice<T>(x: seq<Entry<T>>, y: seq<Entry<T>>)
    requires |x| > 0
    ensures !Sorted(x + y + x)
  {
    assert (x + y + x)[0] == (x + y + x)[|x + y|];
  }

  // ---------------------------------------------------------------- the map behind a sorted vector

  lemma {:induction false} ToMapIs<T>(s: seq<Entry<T>>)
    requires Sorted(s)
    ensures forall k :: k in ToMap(s) ==> Entry(k, ToMap(s)[k]) in s
    ensures forall e :: e in s ==> e.key in ToMap(s) && ToMap(s)[e.key] == e.val
  {
    if |s| > 0 {
      var r := s[..|s| - 1];
      ToMapIs(r);
      assert s == r + [Last(s)];
    }
  }

  /** A map is the map of a sorted vector when it holds exactly the vector's slots. */
  lemma {:induction false} ToMapUnique<T>(s: seq<Entry<T>>, m: map<int, T>)
    requires Sorted(s)
    requires forall k :: k in m ==> Entry(k, m[k]) in s
    requires forall e :: e in s ==> e.key in m && m[e.key] == e.val
    ensures ToMap(s) == m
  {
    var n := ToMap(s);
    ToMapIs(s);
    forall k | k in m ensures k in n && n[k] == m[k] {
      assert Entry(k, m[k]) in s;
    }
    forall k | k in n ensures k in m {
      assert Entry(k, n[k]) in s;
    }
    assert m.Keys == n.Keys;
  }

  lemma {:induction false} InThirds<U>(s: seq<U>, p: nat, q: nat, x: U)
    requires p <= q <= |s|
    ensures x in s <==> x in s[..p] || x in s[p..q] || x in s[q..]
  {
    assert s == s[..p] + s[p..q] + s[q..];
  }

  lemma {:induction false} InMiddle<U>(a: seq<U>, m: U, b: seq<U>, x: U)
    ensures x in a + [m] + b <==> x in a || x == m || x in b
  {
  }

  lemma {:induction false} AroundKey<T>(s: seq<Entry<T>>, key: int)
    requires Sorted(s)
    ensures forall x :: x in s[..Position(s, key)] ==> x.key < key
    ensures forall x :: x in s[Position(s, key)..After(s, key)] ==> x.key == key
    ensures forall x :: x in s[After(s, key)..] ==> key < x.key
  {
  }

  lemma {:induction false} ReplaceHolds<T>(s: seq<Entry<T>>, key: int, val: T, e: Entry<T>)
    requires Sorted(s)
    ensures e in Replace(s, key, val) <==> e == Entry(key, val) || (e in s && e.key != key)
  {
    var p, q := Position(s, key), After(s, key);
    hide Sorted, After, Position;
    AroundKey(s, key);
    InThirds(s, p, q, e);
    InMiddle(s[..p], Entry(key, val), s[q..], e);
  }

  lemma {:induction false} ToMapReplace<T>(s: seq<Entry<T>>, key: int, val: T)
    requires Sorted(s)
    ensures Sorted(Replace(s, key, val))
    ensures ToMap(Replace(s, key, val)) == ToMap(s)[key := val]
  {
    ReplaceSorted(s, key, val);
    ToMapIs(s);
    forall e ensures e in Replace(s, key, val) <==> e == Entry(key, val) || (e in s && e.key != key) {
      ReplaceHolds(s, key, val, e);
    }
    ToMapUnique(Replace(s, key, val), ToMap(s)[key := val]);
  }

  lemma {:induction false} RemoveHolds<T>(s: seq<Entry<T>>, key: int)
    requires Sorted(s)
    ensures Sorted(Remove(s, key))
    ensures forall e :: e in Remove(s, key) <==> e in s && e.key != key
  {
    var p := IndexOf(s, key);
    if p < |s| {
      assert s == s[..p] + [s[p]] + s[p + 1..];
      assert forall e :: e in s[..p] ==> e.key < key;
      assert forall e :: e in s[p + 1..] ==> key < e.key;
    }
  }

  lemma {:induction false} ToMapRemove<T>(s: seq<Entry<T>>, key: int)
    requires Sorted(s)
    ensures Sorted(Remove(s, key))
    ensures ToMap(Remove(s, key)) == ToMap(s) - {key}
  {
    RemoveHolds(s, key);
    ToMapIs(s);
    ToMapUnique(Remove(s, key), ToMap(s) - {key});
  }

  lemma {:induction false} FindIs<T>(s: seq<Entry<T>>, key: int)
    requires Sorted(s)
    ensures Find(s, key) == if key in ToMap(s) then Some(ToMap(s)[key]) else None
  {
    ToMapIs(s);
    FindIndex(s, key);
  }

  lemma {:induction false} FindIndex<T>(s: seq<Entry<T>>, key: int)
    ensures Find(s, key).None? <==> forall e :: e in s ==> e.key != key
    ensures Find(s, key).Some? ==> Entry(key, Find(s, key).value) in s
  {
    var p := IndexOf(s, key);
    assert p < |s| ==> s[p] == Entry(key, s[p].val);
  }

  /** An insertion of a taken key changes nothing; any other keeps the order and puts one slot more into the map. */
  lemma {:induction false} InsertNewMeans<T>(s: seq<Entry<T>>, key: int, val: T)
    requires Sorted(s)
    ensures key in ToMap(s) ==> InsertNew(s, key, val) == s
    ensures key !in ToMap(s) ==>
              var r := InsertNew(s, key, val); Sorted(r) && |r| == |s| + 1 && ToMap(r) == ToMap(s)[key := val]
  {
    ToMapIs(s);
    var p := Position(s, key);
    if p < |s| && s[p].key == key {
      assert s[p] in s;
    } else {
      assert InsertNew(s, key, val) == Replace(s, key, val);
      assert forall i :: 0 <= i < |s| ==> s[i].key != key;
      ReplaceShape(s, key, val);
      ToMapReplace(s, key, val);
    }
  }

  // ---------------------------------------------------------------- vectors cut into parts

  lemma {:induction false} IndexInfix<T>(a: seq<Entry<T>>, x: seq<Entry<T>>, b: seq<Entry<T>>, key: int)
    requires AllBelow(a, key) && AllFrom(b, key + 1)
    ensures IndexOf(a + x + b, key) == if IndexOf(x, key) < |x| then |a| + IndexOf(x, key) else |a + x + b|
  {
    var s := a + x + b;
    assert forall j :: 0 <= j < |a| ==> s[j] == a[j];
    assert forall j :: 0 <= j < |x| ==> s[|a| + j] == x[j];
    assert forall j :: 0 <= j < |b| ==> s[|a| + |x| + j] == b[j];
  }

  /** Looking up or removing a key in the part of a vector that can hold it is doing so in the whole. */
  lemma {:induction false} FindInfix<T>(a: seq<Entry<T>>, x: seq<Entry<T>>, b: seq<Entry<T>>, key: int)
    requires AllBelow(a, key) && AllFrom(b, key + 1)
    ensures Find(a + x + b, key) == Find(x, key)
  {
    IndexInfix(a, x, b, key);
  }

  lemma {:induction false} RemoveInfix<T>(a: seq<Entry<T>>, x: seq<Entry<T>>, b: seq<Entry<T>>, key: int)
    requires AllBelow(a, key) && AllFrom(b, key + 1)
    ensures Remove(a + x + b, key) == a + Remove(x, key) + b
  {
    IndexInfix(a, x, b, key);
    var p := IndexOf(x, key);
    if p < |x| {
      SpliceInfix(a, x, b, p, p + 1, []);
      assert x[..p] + [] + x[p + 1..] == Remove(x, key);
      var s := a + x + b;
      assert s[..|a| + p] + [] == s[..|a| + p];
    }
  }

  lemma {:induction false} BetweenConcat<T>(a: seq<Entry<T>>, b: seq<Entry<T>>, from: int, to: int)
    ensures Between(a + b, from, to) == Between(a, from, to) + Between(b, from, to)
  {
    if |a| == 0 {
      assert a + b == b;
    } else {
      var first := if from <= a[0].key <= to then [a[0]] else [];
      assert Between(a + b, from, to) == first + Between(a[1..] + b, from, to) by {
        assert (a + b)[1..] == a[1..] + b;
      }
      assert Between(a, from, to) == first + Between(a[1..], from, to);
      hide Between;
      BetweenConcat(a[1..], b, from, to);
    }
  }

  lemma {:induction false} BetweenSuffix<T>(a: seq<Entry<T>>, x: seq<Entry<T>>, from: int, to: int)
    requires AllBelow(a, from)
    ensures Between(a + x, from, to) == Between(x, from, to)
  {
    if |a| == 0 {
      assert a + x == x;
    } else {
      BetweenSuffix(a[1..], x, from, to);
      assert (a + x)[1..] == a[1..] + x;
    }
  }

  lemma {:induction false} BetweenNone<T>(s: seq<Entry<T>>, from: int, to: int)
    requires AllBelow(s, from) || AllFrom(s, to + 1)
    ensures Between(s, from, to) == []
  {
    if |s| > 0 {
      BetweenNone(s[1..], from, to);
    }
  }
}
