/** Copying some columns of an encoded tuple into a tuple of their own. */
module Projection {
  import opened Options
  import opened Bytes
  import opened Schema
  import opened TupleCodec
  import F = Fields

  /** The field a column names in a buffer; none where its bytes or its data run past the buffer. */
  function FieldIn(buf: seq<byte>, col: Column): (f: Option<F.Field>)
    ensures f.Some? && f.value.Var? ==> |f.value.head| == 2 && |f.value.len| == 2
    ensures f.Some? ==> F.Width(f.value) == SizeOf(col.ty) && (f.value.Var? <==> col.ty == Varchar)
  {
    match Slice(buf, col.offset, SizeOf(col.ty))
    case None => None
    case Some(b) =>
      if col.ty == Varchar then
        match Slice(buf, FromBE(b[..2]), FromBE(b[2..]))
        case None => None
        case Some(d) => Some(F.Var(b[..2], b[2..], d))
      else Some(F.Plain(b))
  }

  ghost predicate Readable(buf: seq<byte>, cols: seq<Column>) {
    forall i :: 0 <= i < |cols| ==> FieldIn(buf, cols[i]).Some?
  }

  ghost function FieldsIn(buf: seq<byte>, cols: seq<Column>): (fs: seq<F.Field>)
    requires Readable(buf, cols)
    ensures |fs| == |cols| && F.WellFormed(fs)
    ensures forall i :: 0 <= i < |cols| ==> fs[i] == FieldIn(buf, cols[i]).value
  {
    seq(|cols|, i requires 0 <= i < |cols| => FieldIn(buf, cols[i]).value)
  }

  lemma {:induction false} FieldsNext(buf: seq<byte>, cols: seq<Column>, i: nat)
    requires i < |cols| && Readable(buf, cols[..i]) && FieldIn(buf, cols[i]).Some?
    ensures Readable(buf, cols[..i + 1])
    ensures FieldsIn(buf, cols[..i + 1]) == FieldsIn(buf, cols[..i]) + [FieldIn(buf, cols[i]).value]
  {
    hide FieldIn;
    assert cols[..i + 1] == cols[..i] + [cols[i]];
  }

  /** The copy so far: the fixed part of the first `i` columns, and what must follow it. */
  ghost predicate Copied(buf: seq<byte>, cols: seq<Column>, i: nat, ret: seq<byte>, vars: seq<F.Variable>) {
    && i <= |cols| && Readable(buf, cols[..i])
    && ret == F.Pending(FieldsIn(buf, cols[..i]), 0, 0)
    && vars == F.Variables(FieldsIn(buf, cols[..i]), 0)
  }

  lemma {:induction false} CopyNext(buf: seq<byte>, cols: seq<Column>, i: nat, ret: seq<byte>, vars: seq<F.Variable>, f: F.Field)
    requires Copied(buf, cols, i, ret, vars) && i < |cols| && FieldIn(buf, cols[i]) == Some(f)
    ensures Copied(buf, cols, i + 1, ret + F.RawBytes(f), vars + F.VariableOf(f, |ret|))
  {
    var fs := FieldsIn(buf, cols[..i]);
    FieldsNext(buf, cols, i);
    hide FieldIn, F.Pending, F.Variables, F.RawBytes, F.VariableOf, FieldsIn, Readable, F.Width;
    Appended(fs, f, ret, vars);
  }

  lemma {:induction false} Appended(fs: seq<F.Field>, f: F.Field, ret: seq<byte>, vars: seq<F.Variable>)
    requires F.WellFormed(fs) && ret == F.Pending(fs, 0, 0) && vars == F.Variables(fs, 0)
    ensures ret + F.RawBytes(f) == F.Pending(fs + [f], 0, 0)
    ensures vars + F.VariableOf(f, |ret|) == F.Variables(fs + [f], 0)
  {
    hide F.Pending, F.Variables, F.RawBytes, F.VariableOf, F.Width;
    F.PendingSize(fs, 0, 0);
    F.PendingSnoc(fs, f, 0);
    F.VariablesSnoc(fs, f, 0);
  }

  lemma {:induction false} CopyDone(buf: seq<byte>, cols: seq<Column>, ret: seq<byte>, vars: seq<F.Variable>)
    requires Copied(buf, cols, |cols|, ret, vars)
    ensures Readable(buf, cols)
    ensures var fs := FieldsIn(buf, cols); ret == F.Pending(fs, F.WidthOf(fs), 0) && vars == F.Variables(fs, 0)
  {
    assert cols[..|cols|] == cols;
    var fs := FieldsIn(buf, cols);
    F.PendingZero(fs, 0, F.WidthOf(fs));
  }

  /** Copy the columns of `cols` out of a buffer, with offsets put right for the new tuple. */
  method TupleFrom(buf: seq<byte>, cols: seq<Column>) returns (r: Option<seq<byte>>)
    ensures r.Some? <==> Readable(buf, cols)
    ensures r.Some? ==> r.value == F.Assemble(FieldsIn(buf, cols))
  {
    hide F.Pending, F.Variables, F.WidthOf, F.Assemble, FieldsIn, FromBE, F.WellFormed;
    var ret: seq<byte>, vars: seq<F.Variable>, i := [], [], 0;
    assert Copied(buf, cols, 0, [], []) by { CopyNone(buf, cols); }
    hide Copied;
    while i < |cols|
      invariant 0 <= i <= |cols| && Copied(buf, cols, i, ret, vars)
    {
      var col, start := cols[i], |ret|;
      if col.offset + SizeOf(col.ty) > |buf| {
        return None;
      }
      ghost var had := vars;
      var bytes := buf[col.offset..col.offset + SizeOf(col.ty)];
      if col.ty == Varchar {
        var off, len := FromBE(bytes[..2]), FromBE(bytes[2..]);
        if off + len > |buf| {
          return None;
        }
        vars := vars + [F.Variable(buf[off..off + len], start)];
        assert bytes == bytes[..2] + bytes[2..];
      }
      ghost var f := FieldIn(buf, col).value;
      assert bytes == F.RawBytes(f) && vars == had + F.VariableOf(f, start);
      CopyNext(buf, cols, i, ret, had, f);
      ret := ret + bytes;
      i := i + 1;
    }
    CopyDone(buf, cols, ret, vars);
    var data := F.Finish(ret, vars, FieldsIn(buf, cols));
    r := Some(data);
  }

  lemma {:induction false} CopyNone(buf: seq<byte>, cols: seq<Column>)
    ensures Copied(buf, cols, 0, [], [])
  {
  }

  // ---------------------------------------------------------------- copied columns read as in the buffer

  lemma {:induction false} CopiedWidth(buf: seq<byte>, cols: seq<Column>, i: nat)
    requires Readable(buf, cols) && i <= |cols|
    ensures F.WidthOf(FieldsIn(buf, cols)[..i]) == WidthOf(TypesOf(cols[..i]))
  {
    var fs, tys := FieldsIn(buf, cols)[..i], TypesOf(cols[..i]);
    forall k | 0 <= k < i ensures F.Width(fs[k]) == SizeOf(tys[k]) {
      assert fs[k] == FieldIn(buf, cols[k]).value && tys[k] == cols[k].ty;
    }
    hide *;
    WidthsMatch(fs, tys);
  }

  /** A buffer that holds a field's bytes, with another offset, and its data there, reads as the field does. */
  lemma {:induction false} FieldReads(buf: seq<byte>, col: Column, f: F.Field, r: seq<byte>, at: nat, off: nat)
    requires FieldIn(buf, col) == Some(f) && off < U16
    requires F.Holds(r, at, F.BytesOf(f, off)) && F.Holds(r, off, F.DataOf(f))
    ensures GetValue(col.(offset := at), r) == GetValue(col, buf)
  {
    if col.ty == Varchar {
      assert GetValue(col, buf) == Some(VarcharV(f.data)) && f.len == F.BytesOf(f, off)[2..] && FromBE(f.len) == |f.data|;
      hide FieldIn, FromBE, F.BE16;
      StringReads(col.(offset := at), r, off, f.len, f.data);
    } else {
      assert GetValue(col, buf) == Some(DecodePlain(col.ty, f.bytes));
      hide FieldIn, DecodePlain;
    }
  }

  lemma {:induction false} StringReads(col: Column, r: seq<byte>, off: nat, len: seq<byte>, s: seq<byte>)
    requires col.ty == Varchar && off < U16 && |len| == 2 && FromBE(len) == |s|
    requires F.Holds(r, col.offset, F.BE16(off) + len) && F.Holds(r, off, s)
    ensures GetValue(col, r) == Some(VarcharV(s))
  {
    var b := F.BE16(off) + len;
    assert b[..2] == F.BE16(off) && b[2..] == len;
    hide FromBE, F.BE16;
    BE16Read(off);
  }

  /** A column can be copied exactly if its value can be read. */
  lemma {:induction false} ReadableExact(buf: seq<byte>, cols: seq<Column>)
    ensures Readable(buf, cols) <==> forall i :: 0 <= i < |cols| ==> GetValue(cols[i], buf).Some?
  {
    forall i | 0 <= i < |cols| ensures FieldIn(buf, cols[i]).Some? <==> GetValue(cols[i], buf).Some? {
    }
    hide FieldIn, GetValue;
  }

  /** Whatever the buffer holds, each copied column reads as it did there, whatever follows the copy. */
  lemma {:induction false} CopyReads(buf: seq<byte>, cols: seq<Column>, i: nat, junk: seq<byte>)
    requires Readable(buf, cols) && i < |cols| && |F.Assemble(FieldsIn(buf, cols))| < U16
    ensures GetValue(cols[i].(offset := WidthOf(TypesOf(cols[..i]))), F.Assemble(FieldsIn(buf, cols)) + junk)
            == GetValue(cols[i], buf)
  {
    var fs := FieldsIn(buf, cols);
    assert FieldIn(buf, cols[i]) == Some(fs[i]);
    hide *;
    CopiedWidth(buf, cols, i);
    F.FieldAt(fs, i, junk);
    F.FieldDataAt(fs, i, junk);
    FieldReads(buf, cols[i], fs[i], F.Assemble(fs) + junk, WidthOf(TypesOf(cols[..i])), F.DataAt(fs, i));
  }

  // ---------------------------------------------------------------- projection commutes with encoding

  /** `cols` describes tuples of the values `vs`. */
  ghost predicate Describes(cols: seq<Column>, vs: seq<Value>) {
    && Typed(vs, TypesOf(cols)) && AllValid(vs)
    && Packed(cols)
    && |Encode(vs)| < U16
  }

  ghost predicate Within(idx: seq<nat>, n: nat) {
    forall k :: 0 <= k < |idx| ==> idx[k] < n
  }

  lemma {:induction false} VarcharField(col: Column, buf: seq<byte>, off: nat, s: seq<byte>)
    requires col.ty == Varchar && off < U16 && |s| < U16
    requires F.Holds(buf, col.offset, F.BE16(off) + F.BE16(|s|)) && F.Holds(buf, off, s)
    ensures FieldIn(buf, col) == Some(F.Var(F.BE16(off), F.BE16(|s|), s))
  {
    var head := F.BE16(off) + F.BE16(|s|);
    assert head[..2] == F.BE16(off) && head[2..] == F.BE16(|s|);
    hide FromBE, F.BE16;
    BE16Read(off);
    BE16Read(|s|);
  }

  /** A field read through its column is the field that was written, except for the offset it happens to carry. */
  lemma {:induction false} FieldFound(cols: seq<Column>, vs: seq<Value>, i: nat, junk: seq<byte>)
    requires Describes(cols, vs) && i < |vs|
    ensures FieldIn(Encode(vs) + junk, cols[i]).Some?
    ensures F.SameFields([FieldIn(Encode(vs) + junk, cols[i]).value], [FieldOf(vs[i])])
  {
    var fs, tys := FieldsOf(vs), TypesOf(cols);
    assert TypesOf(cols[..i]) == tys[..i];
    WidthsAgree(vs, tys, i);
    F.FieldAt(fs, i, junk);
    F.FieldDataAt(fs, i, junk);
    assert Encode(vs) == F.Assemble(fs) && fs[i] == FieldOf(vs[i]) && HasType(vs[i], cols[i].ty);
    FieldBytes(vs[i], F.DataAt(fs, i));
    assert cols[i].offset == WidthOf(TypesOf(cols[..i]));
    FieldFoundAt(cols[i], vs[i], Encode(vs) + junk, F.DataAt(fs, i), |Encode(vs)|);
  }

  lemma {:induction false} FieldFoundAt(col: Column, v: Value, buf: seq<byte>, off: nat, end: nat)
    requires Proper(v) && HasType(v, col.ty) && off + |F.DataOf(FieldOf(v))| <= end < U16
    requires F.Holds(buf, col.offset, F.BytesOf(FieldOf(v), off)) && F.Holds(buf, off, F.DataOf(FieldOf(v)))
    ensures FieldIn(buf, col).Some?
    ensures F.SameFields([FieldIn(buf, col).value], [FieldOf(v)])
  {
    FieldBytes(v, off);
    hide F.BE16, F.BytesOf, Proper;
    if v.VarcharV? {
      VarcharField(col, buf, off, v.s);
    } else {
      PlainFieldFound(col, v, buf);
    }
  }

  lemma {:induction false} PlainFieldFound(col: Column, v: Value, buf: seq<byte>)
    requires Proper(v) && HasType(v, col.ty) && !v.VarcharV? && F.Holds(buf, col.offset, FieldOf(v).bytes)
    ensures FieldIn(buf, col) == Some(FieldOf(v))
  {
    PlainRead(v, col.ty);
    hide HasType, Proper;
  }

  /** Picking columns out of an encoded tuple gives, byte for byte, the encoding of the picked values:
      in any order, with repeats, whatever follows the tuple. */
  lemma {:induction false} ProjectionCommutes(cols: seq<Column>, vs: seq<Value>, idx: seq<nat>, junk: seq<byte>)
    requires Describes(cols, vs) && Within(idx, |vs|)
    ensures Readable(Encode(vs) + junk, Pick(cols, idx))
    ensures AllValid(Pick(vs, idx))
    ensures F.Assemble(FieldsIn(Encode(vs) + junk, Pick(cols, idx))) == Encode(Pick(vs, idx))
  {
    var buf, picked := Encode(vs) + junk, Pick(vs, idx);
    forall k | 0 <= k < |idx|
      ensures FieldIn(buf, Pick(cols, idx)[k]).Some?
      ensures F.SameFields([FieldIn(buf, Pick(cols, idx)[k]).value], [FieldOf(picked[k])])
    {
      FieldFound(cols, vs, idx[k], junk);
    }
    assert Encode(picked) == F.Assemble(FieldsOf(picked));
    hide FieldIn, FieldOf, Encode;
    var fs, gs := FieldsIn(buf, Pick(cols, idx)), FieldsOf(picked);
    forall k | 0 <= k < |idx| ensures F.SameFields([fs[k]], [gs[k]]) {
    }
    SamePointwise(fs, gs);
    F.SameAssembled(fs, gs);
  }

  lemma {:induction false} SamePointwise(fs: seq<F.Field>, gs: seq<F.Field>)
    requires |fs| == |gs| && forall k :: 0 <= k < |fs| ==> F.SameFields([fs[k]], [gs[k]])
    ensures F.SameFields(fs, gs)
  {
    forall i | 0 <= i < |fs|
      ensures if fs[i].Plain? then fs[i] == gs[i] else gs[i].Var? && fs[i].len == gs[i].len && fs[i].data == gs[i].data
    {
      assert F.SameFields([fs[i]], [gs[i]]);
      assert [fs[i]][0] == fs[i] && [gs[i]][0] == gs[i];
    }
  }

  /** A tuple is self-delimiting: copying all its columns finds where it ends. */
  lemma {:induction false} CopyAll(cols: seq<Column>, vs: seq<Value>, junk: seq<byte>)
    requires Describes(cols, vs)
    ensures Readable(Encode(vs) + junk, cols)
    ensures F.Assemble(FieldsIn(Encode(vs) + junk, cols)) == Encode(vs)
  {
    var idx := seq(|vs|, k => k);
    ProjectionCommutes(cols, vs, idx, junk);
    assert Pick(cols, idx) == cols && Pick(vs, idx) == vs;
  }

  // ---------------------------------------------------------------- index keys

  lemma {:induction false} EncodeSize(vs: seq<Value>)
    requires AllValid(vs)
    ensures |Encode(vs)| == F.WidthOf(FieldsOf(vs)) + |F.AllData(FieldsOf(vs))|
  {
    F.FixedSize(FieldsOf(vs), F.WidthOf(FieldsOf(vs)));
  }

  lemma {:induction false} EncodeSnoc(vs: seq<Value>, v: Value)
    requires AllValid(vs) && Proper(v)
    ensures AllValid(vs + [v])
    ensures |Encode(vs + [v])| == |Encode(vs)| + F.Width(FieldOf(v)) + |F.DataOf(FieldOf(v))|
  {
    var fs := FieldsOf(vs);
    assert FieldsOf(vs + [v]) == fs + [FieldOf(v)];
    F.Concat(fs, [FieldOf(v)], 0);
    F.One(FieldOf(v), 0);
    EncodeSize(vs);
    EncodeSize(vs + [v]);
  }

  ghost predicate Increasing(idx: seq<nat>, n: nat) {
    Within(idx, n) && forall j, k :: 0 <= j < k < |idx| ==> idx[j] < idx[k]
  }

  lemma {:induction false} PickInit<T>(s: seq<T>, idx: seq<nat>, n: nat)
    requires Increasing(idx, n + 1) && |s| == n + 1 && |idx| > 0
    ensures idx[|idx| - 1] == n ==> Increasing(idx[..|idx| - 1], n) && Pick(s, idx) == Pick(s[..n], idx[..|idx| - 1]) + [s[n]]
    ensures idx[|idx| - 1] != n ==> Increasing(idx, n) && Pick(s, idx) == Pick(s[..n], idx)
  {
  }

  /** Columns taken in order, each at most once, encode to no more bytes than the whole. */
  lemma {:induction false} PickSize(vs: seq<Value>, idx: seq<nat>)
    requires AllValid(vs) && Increasing(idx, |vs|)
    ensures AllValid(Pick(vs, idx)) && |Encode(Pick(vs, idx))| <= |Encode(vs)|
    decreases |vs|
  {
    if |idx| == 0 {
      EncodeSize(Pick(vs, idx));
    } else {
      assert idx[0] < |vs|;
      var n, m := |vs| - 1, |idx| - 1;
      PickInit(vs, idx, n);
      assert vs == vs[..n] + [vs[n]];
      hide Encode, F.Width, F.DataOf, HasType, Increasing;
      EncodeSnoc(vs[..n], vs[n]);
      if idx[m] == n {
        PickSize(vs[..n], idx[..m]);
        EncodeSnoc(Pick(vs[..n], idx[..m]), vs[n]);
      } else {
        PickSize(vs[..n], idx);
      }
    }
  }

  /** What an index does with one row: the key tuple, and the schema the key is read with.
      Every key column reads back as the row's value, also when other bytes follow the key. */
  method IndexKey(table: Schema, names: set<string>, row: seq<byte>, ghost vs: seq<Value>) returns (index: Schema,
                  key: Option<seq<byte>>)
    requires Describes(table.columns, vs) && row == Encode(vs)
    ensures var idx := Chosen(table.columns, names);
            && Within(idx, |vs|) && AllValid(Pick(vs, idx))
            && key == Some(Encode(Pick(vs, idx)))
            && |index.columns| == |idx| && index.size == WidthOf(TypesOf(index.columns))
            && forall k, junk :: 0 <= k < |idx| ==> GetValue(index.columns[k], Encode(Pick(vs, idx)) + junk) == Some(vs[idx[k]])
  {
    var tuples := Filter(table, names);
    index := Compact(tuples);
    ghost var idx := Chosen(table.columns, names);
    ProjectionCommutes(table.columns, vs, idx, []);
    assert row + [] == row;
    PickSize(vs, idx);
    ghost var picked := Pick(vs, idx);
    forall k, junk | 0 <= k < |idx| ensures GetValue(index.columns[k], Encode(picked) + junk) == Some(vs[idx[k]]) {
      IndexRead(index.columns, picked, k, junk);
    }
    key := TupleFrom(row, tuples.columns);
  }

  lemma {:induction false} IndexRead(cols: seq<Column>, vs: seq<Value>, k: nat, junk: seq<byte>)
    requires Describes(cols, vs) && k < |vs|
    ensures GetValue(cols[k], Encode(vs) + junk) == Some(vs[k])
  {
    assert TypesOf(cols[..k]) == TypesOf(cols)[..k];
    ReadBack(vs, TypesOf(cols), cols[k], k, junk);
  }
}
