/** Tuples as they lie in memory: a fixed part with a place for every field, then the variable-length data. */
module Fields {
  import opened Bytes
  import opened Buffers

  /** A field in the fixed part: plain bytes, or an offset and a length for data that follows the fixed part. */
  datatype Field = Plain(bytes: seq<byte>) | Var(head: seq<byte>, len: seq<byte>, data: seq<byte>)

  ghost predicate WellFormed(fs: seq<Field>) {
    forall i :: 0 <= i < |fs| && fs[i].Var? ==> |fs[i].head| == 2 && |fs[i].len| == 2
  }

  function Width(f: Field): nat {
    if f.Plain? then |f.bytes| else 4
  }

  function WidthOf(fs: seq<Field>): nat {
    if |fs| == 0 then 0 else Width(fs[0]) + WidthOf(fs[1..])
  }

  function DataOf(f: Field): seq<byte> {
    if f.Plain? then [] else f.data
  }

  function AllData(fs: seq<Field>): seq<byte> {
    if |fs| == 0 then [] else DataOf(fs[0]) + AllData(fs[1..])
  }

  function BE16(n: nat): (s: seq<byte>)
    ensures |s| == 2
  {
    ToBE(n % U16, 2)
  }

  function BytesOf(f: Field, off: nat): seq<byte> {
    match f
    case Plain(b) => b
    case Var(_, len, _) => BE16(off) + len
  }

  /** The fixed part when the data starts at `off` and all offsets are in place. */
  function Fixed(fs: seq<Field>, off: nat): seq<byte> {
    if |fs| == 0 then [] else BytesOf(fs[0], off) + Fixed(fs[1..], off + |DataOf(fs[0])|)
  }

  /** A whole tuple. */
  function Assemble(fs: seq<Field>): seq<byte> {
    Fixed(fs, WidthOf(fs)) + AllData(fs)
  }

  // ---------------------------------------------------------------- stretches of fields

  lemma {:induction false} Assoc<T>(x: seq<T>, y: seq<T>, z: seq<T>)
    ensures x + (y + z) == (x + y) + z
  {
  }

  lemma {:induction false} ConsConcat<T>(a: seq<T>, b: seq<T>)
    requires |a| > 0
    ensures (a + b)[0] == a[0] && (a + b)[1..] == a[1..] + b
  {
  }

  lemma {:induction false} Concat(a: seq<Field>, b: seq<Field>, off: nat)
    ensures WidthOf(a + b) == WidthOf(a) + WidthOf(b)
    ensures AllData(a + b) == AllData(a) + AllData(b)
    ensures Fixed(a + b, off) == Fixed(a, off) + Fixed(b, off + |AllData(a)|)
  {
    hide BytesOf, DataOf, Width;
    if |a| == 0 {
      assert a + b == b;
    } else {
      var off' := off + |DataOf(a[0])|;
      Concat(a[1..], b, off');
      ConsConcat(a, b);
      Assoc(DataOf(a[0]), AllData(a[1..]), AllData(b));
      Assoc(BytesOf(a[0], off), Fixed(a[1..], off'), Fixed(b, off + |AllData(a)|));
    }
  }

  lemma {:induction false} FixedSize(fs: seq<Field>, off: nat)
    requires WellFormed(fs)
    ensures |Fixed(fs, off)| == WidthOf(fs)
  {
    if |fs| > 0 {
      FixedSize(fs[1..], off + |DataOf(fs[0])|);
    }
  }

  lemma {:induction false} One(f: Field, off: nat)
    ensures WidthOf([f]) == Width(f) && AllData([f]) == DataOf(f) && Fixed([f], off) == BytesOf(f, off)
  {
    assert [f][1..] == [];
  }

  /** Where the data of field `i` starts. */
  function DataAt(fs: seq<Field>, i: nat): nat
    requires i <= |fs|
  {
    WidthOf(fs) + |AllData(fs[..i])|
  }

  /** The buffer holds `piece` at offset `at`. */
  ghost predicate Holds(buf: seq<byte>, at: nat, piece: seq<byte>) {
    at + |piece| <= |buf| && buf[at..at + |piece|] == piece
  }

  /** Where field `i` lies. */
  lemma {:induction false} FieldAt(fs: seq<Field>, i: nat, junk: seq<byte>)
    requires WellFormed(fs) && i < |fs|
    ensures Holds(Assemble(fs) + junk, WidthOf(fs[..i]), BytesOf(fs[i], DataAt(fs, i)))
  {
    assert WellFormed(fs[..i]);
    var w, o := WidthOf(fs), DataAt(fs, i);
    assert o == w + |AllData(fs[..i])|;
    hide *;
    FixedSize(fs[..i], w);
    FieldParts(fs, i, w);
    AssembleIs(fs);
    FrontSlice(Assemble(fs), Fixed(fs, w), Fixed(fs[..i], w), BytesOf(fs[i], o), Fixed(fs[i + 1..], o + |DataOf(fs[i])|),
               AllData(fs), junk, WidthOf(fs[..i]));
  }

  /** Where the data of field `i` lies. */
  lemma {:induction false} FieldDataAt(fs: seq<Field>, i: nat, junk: seq<byte>)
    requires WellFormed(fs) && i < |fs|
    ensures Holds(Assemble(fs) + junk, DataAt(fs, i), DataOf(fs[i]))
    ensures DataAt(fs, i) + |DataOf(fs[i])| <= |Assemble(fs)|
  {
    var w, o := WidthOf(fs), DataAt(fs, i);
    assert o == w + |AllData(fs[..i])|;
    hide *;
    FixedSize(fs, w);
    FieldParts(fs, i, w);
    AssembleIs(fs);
    BackSlice(Assemble(fs), Fixed(fs, w), AllData(fs), AllData(fs[..i]), DataOf(fs[i]), AllData(fs[i + 1..]), junk, o);
  }

  lemma {:induction false} FrontSlice(s: seq<byte>, f: seq<byte>, x: seq<byte>, y: seq<byte>, z: seq<byte>,
                                      d: seq<byte>, junk: seq<byte>, at: nat)
    requires s == f + d && f == x + y + z && at == |x|
    ensures Holds(s + junk, at, y)
  {
    assert s + junk == x + y + (z + d + junk);
  }

  lemma {:induction false} BackSlice(s: seq<byte>, f: seq<byte>, all: seq<byte>, a: seq<byte>, d: seq<byte>,
                                     b: seq<byte>, junk: seq<byte>, at: nat)
    requires s == f + all && all == a + d + b && at == |f| + |a|
    ensures Holds(s + junk, at, d)
    ensures at + |d| <= |s|
  {
    assert s + junk == f + a + d + (b + junk);
  }

  lemma {:induction false} AssembleIs(fs: seq<Field>)
    ensures Assemble(fs) == Fixed(fs, WidthOf(fs)) + AllData(fs)
  {
  }

  lemma {:induction false} FieldParts(fs: seq<Field>, i: nat, off: nat)
    requires i < |fs|
    ensures var a, f, b := fs[..i], fs[i], fs[i + 1..];
            var o := off + |AllData(a)|;
            && Fixed(fs, off) == Fixed(a, off) + BytesOf(f, o) + Fixed(b, o + |DataOf(f)|)
            && AllData(fs) == AllData(a) + DataOf(f) + AllData(b)
  {
    hide BytesOf, DataOf, Width;
    var a, f, b := fs[..i], fs[i], fs[i + 1..];
    assert fs == a + [f] + b;
    Concat(a + [f], b, off);
    Concat(a, [f], off);
    One(f, off + |AllData(a)|);
  }

  /** The offsets a tuple is read with do not matter once it is assembled. */
  ghost predicate SameFields(fs: seq<Field>, gs: seq<Field>) {
    && |fs| == |gs|
    && forall i :: 0 <= i < |fs| ==>
         if fs[i].Plain? then fs[i] == gs[i] else gs[i].Var? && fs[i].len == gs[i].len && fs[i].data == gs[i].data
  }

  lemma {:induction false} SameAssembled(fs: seq<Field>, gs: seq<Field>)
    requires SameFields(fs, gs)
    ensures Assemble(fs) == Assemble(gs)
  {
    SameParts(fs, gs, 0);
    SameParts(fs, gs, WidthOf(fs));
  }

  lemma {:induction false} SameField(f: Field, g: Field, off: nat)
    requires SameFields([f], [g])
    ensures Width(f) == Width(g) && DataOf(f) == DataOf(g) && BytesOf(f, off) == BytesOf(g, off)
  {
    assert [f][0] == f && [g][0] == g;
  }

  lemma {:induction false} SameTail(fs: seq<Field>, gs: seq<Field>)
    requires SameFields(fs, gs) && |fs| > 0
    ensures SameFields([fs[0]], [gs[0]]) && SameFields(fs[1..], gs[1..])
  {
  }

  lemma {:induction false} SameParts(fs: seq<Field>, gs: seq<Field>, off: nat)
    requires SameFields(fs, gs)
    ensures WidthOf(fs) == WidthOf(gs) && AllData(fs) == AllData(gs) && Fixed(fs, off) == Fixed(gs, off)
    decreases |fs|
  {
    assert |fs| == |gs|;
    if |fs| > 0 {
      SameTail(fs, gs);
      var f, g, fs', gs' := fs[0], gs[0], fs[1..], gs[1..];
      SameField(f, g, off);
      assert WidthOf(fs) == Width(f) + WidthOf(fs') && WidthOf(gs) == Width(g) + WidthOf(gs');
      assert AllData(fs) == DataOf(f) + AllData(fs') && AllData(gs) == DataOf(g) + AllData(gs');
      assert Fixed(fs, off) == BytesOf(f, off) + Fixed(fs', off + |DataOf(f)|);
      assert Fixed(gs, off) == BytesOf(g, off) + Fixed(gs', off + |DataOf(g)|);
      hide *;
      SameParts(fs', gs', off + |DataOf(f)|);
    }
  }

  // ---------------------------------------------------------------- offsets are put in place one by one

  datatype Variable = Variable(data: seq<byte>, at: nat)

  function VariableOf(f: Field, at: nat): seq<Variable> {
    if f.Plain? then [] else [Variable(f.data, at)]
  }

  /** The variable-length fields with the places of their offsets. */
  function Variables(fs: seq<Field>, at: nat): seq<Variable> {
    if |fs| == 0 then [] else VariableOf(fs[0], at) + Variables(fs[1..], at + Width(fs[0]))
  }

  function RawBytes(f: Field): seq<byte> {
    match f
    case Plain(b) => b
    case Var(head, len, _) => head + len
  }

  /** The fixed part when only the first `n` variable-length fields have their offsets in place. */
  function Pending(fs: seq<Field>, off: nat, n: nat): seq<byte>
    decreases |fs|
  {
    if |fs| == 0 then []
    else if fs[0].Plain? then fs[0].bytes + Pending(fs[1..], off, n)
    else if n == 0 then RawBytes(fs[0]) + Pending(fs[1..], off, 0)
    else BytesOf(fs[0], off) + Pending(fs[1..], off + |fs[0].data|, n - 1)
  }

  function Joined(vs: seq<Variable>): seq<byte> {
    if |vs| == 0 then [] else Joined(vs[..|vs| - 1]) + vs[|vs| - 1].data
  }

  lemma {:induction false} JoinedConcat(a: seq<Variable>, b: seq<Variable>)
    ensures Joined(a + b) == Joined(a) + Joined(b)
    decreases |b|
  {
    if |b| == 0 {
      assert a + b == a;
    } else {
      JoinedConcat(a, b[..|b| - 1]);
      assert (a + b)[..|a + b| - 1] == a + b[..|b| - 1];
      Assoc(Joined(a), Joined(b[..|b| - 1]), b[|b| - 1].data);
    }
  }

  lemma {:induction false} JoinedAll(fs: seq<Field>, at: nat)
    ensures Joined(Variables(fs, at)) == AllData(fs)
    decreases |fs|
  {
    if |fs| > 0 {
      JoinedAll(fs[1..], at + Width(fs[0]));
      JoinedConcat(VariableOf(fs[0], at), Variables(fs[1..], at + Width(fs[0])));
      if fs[0].Var? {
        assert Joined([Variable(fs[0].data, at)]) == Joined([]) + fs[0].data;
      }
    }
  }

  lemma {:induction false} PendingAll(fs: seq<Field>, off: nat, at: nat, n: nat)
    requires n >= |Variables(fs, at)|
    ensures Pending(fs, off, n) == Fixed(fs, off)
    decreases |fs|
  {
    hide BE16;
    if |fs| > 0 {
      PendingAll(fs[1..], off + |DataOf(fs[0])|, at + Width(fs[0]), if fs[0].Var? then n - 1 else n);
    }
  }

  lemma {:induction false} PendingSize(fs: seq<Field>, off: nat, n: nat)
    requires WellFormed(fs)
    ensures |Pending(fs, off, n)| == WidthOf(fs)
    decreases |fs|
  {
    if |fs| > 0 {
      PendingSize(fs[1..], if fs[0].Var? && n > 0 then off + |fs[0].data| else off, if fs[0].Var? && n > 0 then n - 1 else n);
    }
  }

  /** Putting the next offset in place. */
  lemma {:induction false} PatchNext(fs: seq<Field>, at: nat, off: nat, n: nat)
    requires WellFormed(fs) && n < |Variables(fs, at)|
    ensures PatchedNext(fs, at, off, n)
    decreases |fs|
  {
    hide BytesOf, BE16, Pending, Joined, Patched;
    if fs[0].Plain? {
      PatchNext(fs[1..], at + Width(fs[0]), off, n);
      PatchPlain(fs, at, off, n);
    } else if n == 0 {
      PatchFirst(fs, at, off);
    } else {
      PatchNext(fs[1..], at + Width(fs[0]), off + |fs[0].data|, n - 1);
      PatchLater(fs, at, off, n);
    }
  }

  ghost predicate PatchedNext(fs: seq<Field>, at: nat, off: nat, n: nat)
    requires n < |Variables(fs, at)|
  {
    var v := Variables(fs, at)[n];
    && at <= v.at && v.at - at + 2 <= |Pending(fs, off, n)|
    && Patched(Pending(fs, off, n), v.at - at, BE16(off + |Joined(Variables(fs, at)[..n])|)) == Pending(fs, off, n + 1)
  }

  lemma {:induction false} PatchPlain(fs: seq<Field>, at: nat, off: nat, n: nat)
    requires |fs| > 0 && fs[0].Plain? && n < |Variables(fs, at)|
    requires n < |Variables(fs[1..], at + Width(fs[0]))| && PatchedNext(fs[1..], at + Width(fs[0]), off, n)
    ensures PatchedNext(fs, at, off, n)
  {
    hide BE16, Joined, Patched, BytesOf, RawBytes;
    var f, rest := fs[0], fs[1..];
    var ws := Variables(rest, at + Width(f));
    assert Variables(fs, at) == [] + ws == ws;
    PatchBehind(f.bytes, Pending(rest, off, n), ws[n].at - at - Width(f), BE16(off + |Joined(ws[..n])|));
  }

  lemma {:induction false} PatchFirst(fs: seq<Field>, at: nat, off: nat)
    requires |fs| > 0 && fs[0].Var? && WellFormed(fs)
    ensures PatchedNext(fs, at, off, 0)
  {
    hide BE16;
    var f, rest := fs[0], Pending(fs[1..], off, 0);
    PendingZero(fs[1..], off, off + |f.data|);
    Assoc(f.head, f.len, rest);
    Assoc(BE16(off), f.len, rest);
    PatchFront(f.head, f.len + rest, BE16(off));
    assert Variables(fs, at)[..0] == [];
  }

  lemma {:induction false} PendingLater(fs: seq<Field>, off: nat, n: nat)
    requires |fs| > 0 && fs[0].Var? && n > 0
    ensures Pending(fs, off, n) == BytesOf(fs[0], off) + Pending(fs[1..], off + |fs[0].data|, n - 1)
  {
  }

  lemma {:induction false} PatchLater(fs: seq<Field>, at: nat, off: nat, n: nat)
    requires |fs| > 0 && fs[0].Var? && WellFormed(fs) && 0 < n < |Variables(fs, at)|
    requires n - 1 < |Variables(fs[1..], at + 4)| && PatchedNext(fs[1..], at + 4, off + |fs[0].data|, n - 1)
    ensures PatchedNext(fs, at, off, n)
  {
    VariablesLater(fs, at, n);
    PendingLater(fs, off, n);
    PendingLater(fs, off, n + 1);
    assert |BytesOf(fs[0], off)| == 4;
    hide BE16, Patched, RawBytes, Pending, BytesOf, Variables, Joined;
    var ws := Variables(fs[1..], at + 4);
    PatchBehind(BytesOf(fs[0], off), Pending(fs[1..], off + |fs[0].data|, n - 1), ws[n - 1].at - at - 4,
                BE16(off + |fs[0].data| + |Joined(ws[..n - 1])|));
  }

  lemma {:induction false} VariablesLater(fs: seq<Field>, at: nat, n: nat)
    requires |fs| > 0 && fs[0].Var? && 0 < n < |Variables(fs, at)|
    ensures var ws := Variables(fs[1..], at + 4);
            && Variables(fs, at)[n] == ws[n - 1]
            && |Joined(Variables(fs, at)[..n])| == |fs[0].data| + |Joined(ws[..n - 1])|
  {
    var ws := Variables(fs[1..], at + 4);
    var first := [Variable(fs[0].data, at)];
    assert Variables(fs, at) == first + ws && (first + ws)[..n] == first + ws[..n - 1];
    JoinedConcat(first, ws[..n - 1]);
    assert Joined(first) == Joined([]) + fs[0].data == fs[0].data;
  }

  lemma {:induction false} PatchBehind(x: seq<byte>, s: seq<byte>, at: nat, b: seq<byte>)
    requires at + |b| <= |s|
    ensures Patched(x + s, |x| + at, b) == x + Patched(s, at, b)
  {
    assert (x + s)[..|x| + at] == x + s[..at];
    assert (x + s)[|x| + at + |b|..] == s[at + |b|..];
    Assoc(x, s[..at], b);
    Assoc(x, s[..at] + b, s[at + |b|..]);
  }

  lemma {:induction false} PatchFront(head: seq<byte>, s: seq<byte>, b: seq<byte>)
    requires |head| == |b|
    ensures Patched(head + s, 0, b) == b + s
  {
  }

  lemma {:induction false} PendingZero(fs: seq<Field>, off: nat, off': nat)
    ensures Pending(fs, off, 0) == Pending(fs, off', 0)
    decreases |fs|
  {
    if |fs| > 0 {
      PendingZero(fs[1..], off, off');
    }
  }

  lemma {:induction false} JoinedNone(vars: seq<Variable>)
    ensures Joined(vars[..0]) == []
  {
  }

  lemma {:induction false} JoinedNext(vars: seq<Variable>, j: nat)
    requires j < |vars|
    ensures Joined(vars[..j + 1]) == Joined(vars[..j]) + vars[j].data
  {
    assert vars[..j + 1][..j] == vars[..j];
  }

  lemma {:induction false} PendingSnoc(fs: seq<Field>, f: Field, off: nat)
    ensures Pending(fs + [f], off, 0) == Pending(fs, off, 0) + RawBytes(f)
    decreases |fs|
  {
    hide BE16;
    if |fs| == 0 {
      assert fs + [f] == [f] && [f][1..] == [];
    } else {
      PendingSnoc(fs[1..], f, off);
      ConsConcat(fs, [f]);
      Assoc(RawBytes(fs[0]), Pending(fs[1..], off, 0), RawBytes(f));
    }
  }

  lemma {:induction false} VariablesSnoc(fs: seq<Field>, f: Field, at: nat)
    ensures Variables(fs + [f], at) == Variables(fs, at) + VariableOf(f, at + WidthOf(fs))
    decreases |fs|
  {
    if |fs| == 0 {
      assert fs + [f] == [f] && [f][1..] == [];
    } else {
      VariablesSnoc(fs[1..], f, at + Width(fs[0]));
      ConsConcat(fs, [f]);
      Assoc(VariableOf(fs[0], at), Variables(fs[1..], at + Width(fs[0])), VariableOf(f, at + WidthOf(fs)));
    }
  }

  /** Append the variable-length data, putting each field's offset in place when its data is reached. */
  method Finish(fixed: seq<byte>, vars: seq<Variable>, ghost fs: seq<Field>) returns (data: seq<byte>)
    requires WellFormed(fs) && fixed == Pending(fs, WidthOf(fs), 0) && vars == Variables(fs, 0)
    ensures data == Assemble(fs)
  {
    hide Pending, Joined, Variables, WidthOf, BE16;
    ghost var w := WidthOf(fs);
    assert Joined(vars[..0]) == [] by { JoinedNone(vars); }
    assert fixed + [] == fixed;
    data := fixed;
    var j := 0;
    while j < |vars|
      invariant 0 <= j <= |vars|
      invariant data == Pending(fs, w, j) + Joined(vars[..j])
    {
      PendingSize(fs, w, j);
      PatchNext(fs, 0, w, j);
      var offset := |data|;
      var at := vars[j].at;
      PatchThrough(Pending(fs, w, j), Joined(vars[..j]), at, BE16(offset));
      data := data[..at] + BE16(offset) + data[at + 2..];
      JoinedNext(vars, j);
      Assoc(Pending(fs, w, j + 1), Joined(vars[..j]), vars[j].data);
      data := data + vars[j].data;
      j := j + 1;
    }
    assert vars[..j] == vars;
    PendingAll(fs, w, 0, j);
    JoinedAll(fs, 0);
  }

  lemma {:induction false} PatchThrough(s: seq<byte>, t: seq<byte>, at: nat, b: seq<byte>)
    requires at + |b| <= |s|
    ensures Patched(s + t, at, b) == Patched(s, at, b) + t
  {
  }
}
