/** Column types, and schemas as lists of columns with byte offsets. */
module Schema {

  datatype Type = TinyInt | Bool | Int | BigInt | Varchar

  /** Bytes a column takes in the fixed part of a tuple; a varchar keeps an offset and a length there. */
  function SizeOf(ty: Type): nat {
    match ty
    case TinyInt | Bool => 1
    case Int | Varchar => 4
    case BigInt => 8
  }

  datatype Column = Column(name: string, ty: Type, offset: nat)

  datatype Schema = Schema(columns: seq<Column>, size: nat)

  function WidthOf(tys: seq<Type>): nat {
    if |tys| == 0 then 0 else SizeOf(tys[0]) + WidthOf(tys[1..])
  }

  function TypesOf(cols: seq<Column>): (tys: seq<Type>)
    ensures |tys| == |cols|
    ensures forall i :: 0 <= i < |cols| ==> tys[i] == cols[i].ty
  {
    seq(|cols|, i requires 0 <= i < |cols| => cols[i].ty)
  }

  /** The columns lie back to back. */
  ghost predicate Packed(cols: seq<Column>) {
    forall i :: 0 <= i < |cols| ==> cols[i].offset == WidthOf(TypesOf(cols[..i]))
  }

  /** Columns back to back and a size that covers them exactly. */
  ghost predicate Compacted(s: Schema) {
    Packed(s.columns) && s.size == WidthOf(TypesOf(s.columns))
  }

  lemma {:induction false} WidthConcat(a: seq<Type>, b: seq<Type>)
    ensures WidthOf(a + b) == WidthOf(a) + WidthOf(b)
  {
    if |a| == 0 {
      assert a + b == b;
    } else {
      WidthConcat(a[1..], b);
      assert (a + b)[1..] == a[1..] + b;
    }
  }

  lemma {:induction false} WidthSnoc(cols: seq<Column>, i: nat)
    requires i < |cols|
    ensures WidthOf(TypesOf(cols[..i + 1])) == WidthOf(TypesOf(cols[..i])) + SizeOf(cols[i].ty)
  {
    assert TypesOf(cols[..i + 1]) == TypesOf(cols[..i]) + [cols[i].ty];
    WidthConcat(TypesOf(cols[..i]), [cols[i].ty]);
    assert WidthOf([cols[i].ty]) == SizeOf(cols[i].ty) + WidthOf([cols[i].ty][1..]);
  }

  /** A schema from names and types, with running offsets. */
  method FromTypes(pairs: seq<(string, Type)>) returns (s: Schema)
    ensures Compacted(s)
    ensures |s.columns| == |pairs|
    ensures forall i :: 0 <= i < |pairs| ==> s.columns[i].name == pairs[i].0 && s.columns[i].ty == pairs[i].1
  {
    var columns: seq<Column>, offset, i := [], 0, 0;
    while i < |pairs|
      invariant 0 <= i <= |pairs| && |columns| == i
      invariant Packed(columns) && offset == WidthOf(TypesOf(columns))
      invariant forall j :: 0 <= j < i ==> columns[j].name == pairs[j].0 && columns[j].ty == pairs[j].1
    {
      var c := Column(pairs[i].0, pairs[i].1, offset);
      PackedSnoc(columns, c);
      columns := columns + [c];
      offset := offset + SizeOf(pairs[i].1);
      i := i + 1;
    }
    s := Schema(columns, offset);
  }

  lemma {:induction false} PackedSnoc(cols: seq<Column>, c: Column)
    requires Packed(cols) && c.offset == WidthOf(TypesOf(cols))
    ensures Packed(cols + [c]) && WidthOf(TypesOf(cols + [c])) == WidthOf(TypesOf(cols)) + SizeOf(c.ty)
  {
    var all := cols + [c];
    forall i | 0 <= i < |all| ensures all[i].offset == WidthOf(TypesOf(all[..i])) {
      assert all[..i] == cols[..i];
      assert cols[..|cols|] == cols;
    }
    WidthSnoc(all, |cols|);
    assert all[..|cols|] == cols && all[..|all|] == all;
  }

  /** The positions of the columns whose names are asked for, in column order. */
  function Chosen(cols: seq<Column>, names: set<string>): (idx: seq<nat>)
    ensures forall k :: 0 <= k < |idx| ==> idx[k] < |cols| && cols[idx[k]].name in names
    ensures forall j, k :: 0 <= j < k < |idx| ==> idx[j] < idx[k]
  {
    if |cols| == 0 then []
    else
      var n := |cols| - 1;
      Chosen(cols[..n], names) + if cols[n].name in names then [n] else []
  }

  /** Columns picked by position. */
  function Pick<T>(s: seq<T>, idx: seq<nat>): (r: seq<T>)
    requires forall k :: 0 <= k < |idx| ==> idx[k] < |s|
    ensures |r| == |idx|
    ensures forall k :: 0 <= k < |idx| ==> r[k] == s[idx[k]]
  {
    seq(|idx|, k requires 0 <= k < |idx| => s[idx[k]])
  }

  lemma {:induction false} ChosenSnoc(cols: seq<Column>, i: nat, names: set<string>)
    requires i < |cols|
    ensures var was, now := Pick(cols[..i], Chosen(cols[..i], names)), Pick(cols[..i + 1], Chosen(cols[..i + 1], names));
            if cols[i].name in names then
              now == was + [cols[i]] && WidthOf(TypesOf(now)) == WidthOf(TypesOf(was)) + SizeOf(cols[i].ty)
            else now == was
  {
    assert cols[..i + 1][..i] == cols[..i];
    var was := Pick(cols[..i], Chosen(cols[..i], names));
    if cols[i].name in names {
      var now := was + [cols[i]];
      assert now[..|was|] == was && now[..|now|] == now;
      WidthSnoc(now, |was|);
    }
  }

  /** Keep the named columns where they are: their offsets may become sparse. */
  method Filter(s: Schema, names: set<string>) returns (r: Schema)
    ensures r.columns == Pick(s.columns, Chosen(s.columns, names))
    ensures r.size == WidthOf(TypesOf(r.columns))
  {
    var columns: seq<Column>, size, i := [], 0, 0;
    while i < |s.columns|
      invariant 0 <= i <= |s.columns|
      invariant columns == Pick(s.columns[..i], Chosen(s.columns[..i], names))
      invariant size == WidthOf(TypesOf(columns))
    {
      ChosenSnoc(s.columns, i, names);
      if s.columns[i].name in names {
        size := size + SizeOf(s.columns[i].ty);
        columns := columns + [s.columns[i]];
      }
      i := i + 1;
    }
    assert s.columns[..i] == s.columns;
    r := Schema(columns, size);
  }

  /** Exactly the named columns are chosen. */
  lemma {:induction false} ChosenExact(cols: seq<Column>, names: set<string>, i: nat)
    requires i < |cols|
    ensures cols[i].name in names <==> i in Chosen(cols, names)
    decreases |cols|
  {
    var n := |cols| - 1;
    if i < n {
      ChosenExact(cols[..n], names, i);
    }
  }

  /** Move the columns together again; names and types stay. */
  method Compact(s: Schema) returns (r: Schema)
    ensures |r.columns| == |s.columns| && r.size == s.size
    ensures forall i :: 0 <= i < |s.columns| ==> r.columns[i].name == s.columns[i].name && r.columns[i].ty == s.columns[i].ty
    ensures Packed(r.columns)
    ensures s.size == WidthOf(TypesOf(s.columns)) ==> Compacted(r)
  {
    var columns, offset, i := s.columns, 0, 0;
    while i < |columns|
      invariant 0 <= i <= |columns| == |s.columns|
      invariant forall j :: 0 <= j < |columns| ==> columns[j].name == s.columns[j].name && columns[j].ty == s.columns[j].ty
      invariant Packed(columns[..i]) && offset == WidthOf(TypesOf(columns[..i]))
    {
      var c := columns[i].(offset := offset);
      PackedSnoc(columns[..i], c);
      columns := columns[i := c];
      assert columns[..i + 1] == columns[..i] + [c];
      offset := offset + SizeOf(c.ty);
      i := i + 1;
    }
    assert columns[..i] == columns;
    assert TypesOf(columns) == TypesOf(s.columns);
    r := Schema(columns, s.size);
  }
}
