/** Tuples of typed values: building them, reading values back, and projecting them onto some of their columns. */
module TupleCodec {
  import opened Options
  import opened Bytes
  import opened Schema
  import F = Fields

  /** A string is kept as its bytes. */
  datatype Value =
    | TinyIntV(i: int)
    | BoolV(b: bool)
    | IntV(i: int)
    | BigIntV(i: int)
    | VarcharV(s: seq<byte>)

  predicate HasType(v: Value, ty: Type) {
    match v
    case TinyIntV(i) => ty == TinyInt && Fits(i, Pow256(1))
    case BoolV(_) => ty == Bool
    case IntV(i) => ty == Int && Fits(i, Pow256(4))
    case BigIntV(i) => ty == BigInt && Fits(i, Pow256(8))
    case VarcharV(_) => ty == Varchar
  }

  ghost predicate Typed(vs: seq<Value>, tys: seq<Type>) {
    |vs| == |tys| && forall i :: 0 <= i < |vs| ==> HasType(vs[i], tys[i])
  }

  function TypeOf(v: Value): Type {
    match v
    case TinyIntV(_) => TinyInt
    case BoolV(_) => Bool
    case IntV(_) => Int
    case BigIntV(_) => BigInt
    case VarcharV(_) => Varchar
  }

  /** An integer within the range of its type. */
  predicate Proper(v: Value) {
    HasType(v, TypeOf(v))
  }

  // ---------------------------------------------------------------- fields of values

  function FieldOf(v: Value): (f: F.Field)
    requires Proper(v)
    ensures F.Width(f) == SizeOf(TypeOf(v))
    ensures f.Var? <==> v.VarcharV?
    ensures f.Var? ==> |f.head| == 2 && |f.len| == 2
  {
    match v
    case TinyIntV(i) => F.Plain(Signed(i, 1))
    case BoolV(b) => F.Plain([if b then 1 else 0])
    case IntV(i) => F.Plain(Signed(i, 4))
    case BigIntV(i) => F.Plain(Signed(i, 8))
    case VarcharV(s) => F.Var([0, 0], F.BE16(|s|), s)
  }

  ghost predicate AllValid(vs: seq<Value>) {
    forall i :: 0 <= i < |vs| ==> Proper(vs[i])
  }

  function FieldsOf(vs: seq<Value>): (fs: seq<F.Field>)
    requires AllValid(vs)
    ensures |fs| == |vs| && F.WellFormed(fs)
    ensures forall i :: 0 <= i < |vs| ==> fs[i] == FieldOf(vs[i])
  {
    seq(|vs|, i requires 0 <= i < |vs| => FieldOf(vs[i]))
  }

  /** The bytes of a tuple. */
  function Encode(vs: seq<Value>): seq<byte>
    requires AllValid(vs)
  {
    F.Assemble(FieldsOf(vs))
  }

  /** Builds a tuple value by value; offsets and variable-length data follow at the end. */
  class TupleBuilder {
    var data: seq<byte>
    var variable: seq<F.Variable>
    ghost var added: seq<Value>

    ghost predicate Valid()
      reads this
    {
      && AllValid(added)
      && data == F.Pending(FieldsOf(added), F.WidthOf(FieldsOf(added)), 0)
      && variable == F.Variables(FieldsOf(added), 0)
    }

    constructor ()
      ensures Valid() && added == []
    {
      data, variable, added := [], [], [];
    }

    method Add(v: Value)
      requires Valid() && Proper(v)
      modifies this
      ensures Valid() && added == old(added) + [v]
    {
      AddLast(added, v, |data|);
      match v {
        case TinyIntV(i) => data := data + Signed(i, 1);
        case BoolV(b) => data := data + [if b then 1 else 0];
        case IntV(i) => data := data + Signed(i, 4);
        case BigIntV(i) => data := data + Signed(i, 8);
        case VarcharV(s) =>
          var offset := |data|;
          data := data + ([0, 0] + F.BE16(|s|));
          variable := variable + [F.Variable(s, offset)];
      }
      added := added + [v];
    }

    method Build() returns (bytes: seq<byte>)
      requires Valid()
      ensures bytes == Encode(added)
    {
      bytes := F.Finish(data, variable, FieldsOf(added));
    }
  }

  lemma {:induction false} AddLast(vs: seq<Value>, v: Value, at: nat)
    requires AllValid(vs) && Proper(v)
    requires at == |F.Pending(FieldsOf(vs), F.WidthOf(FieldsOf(vs)), 0)|
    ensures AllValid(vs + [v])
    ensures var fs, gs := FieldsOf(vs), FieldsOf(vs + [v]);
            && F.Pending(gs, F.WidthOf(gs), 0) == F.Pending(fs, F.WidthOf(fs), 0) + F.RawBytes(FieldOf(v))
            && F.Variables(gs, 0) == F.Variables(fs, 0) + F.VariableOf(FieldOf(v), at)
  {
    var fs, gs := FieldsOf(vs), FieldsOf(vs + [v]);
    assert gs == fs + [FieldOf(v)];
    F.PendingSize(fs, F.WidthOf(fs), 0);
    F.PendingZero(fs, F.WidthOf(gs), F.WidthOf(fs));
    F.PendingSnoc(fs, FieldOf(v), F.WidthOf(gs));
    F.VariablesSnoc(fs, FieldOf(v), 0);
  }

  // ---------------------------------------------------------------- reading values

  function Slice(data: seq<byte>, at: nat, n: nat): Option<seq<byte>> {
    if at + n <= |data| then Some(data[at..at + n]) else None
  }

  function DecodePlain(ty: Type, b: seq<byte>): Value
    requires |b| == SizeOf(ty) && ty != Varchar
  {
    match ty
    case TinyInt => TinyIntV(Unsigned(b))
    case Bool => BoolV(b[0] > 0)
    case Int => IntV(Unsigned(b))
    case BigInt => BigIntV(Unsigned(b))
  }

  /** The value of a column; none where reading it would run past the tuple. */
  function GetValue(col: Column, data: seq<byte>): Option<Value> {
    match Slice(data, col.offset, SizeOf(col.ty))
    case None => None
    case Some(b) =>
      if col.ty == Varchar then
        match Slice(data, FromBE(b[..2]), FromBE(b[2..]))
        case None => None
        case Some(s) => Some(VarcharV(s))
      else Some(DecodePlain(col.ty, b))
  }

  lemma {:induction false} BE16Read(n: nat)
    requires n < U16
    ensures FromBE(F.BE16(n)) == n
  {
    Widths();
    FromTo(n, 2);
  }

  lemma {:induction false} PlainRead(v: Value, ty: Type)
    requires HasType(v, ty) && ty != Varchar
    ensures FieldOf(v).Plain? && |FieldOf(v).bytes| == SizeOf(ty) && DecodePlain(ty, FieldOf(v).bytes) == v
  {
    match v
    case TinyIntV(i) => SignedRoundTrip(i, 1);
    case BoolV(_) =>
    case IntV(i) => SignedRoundTrip(i, 4);
    case BigIntV(i) => SignedRoundTrip(i, 8);
  }

  lemma {:induction false} VarcharRead(col: Column, buf: seq<byte>, off: nat, s: seq<byte>)
    requires col.ty == Varchar && off < U16 && |s| < U16
    requires F.Holds(buf, col.offset, F.BE16(off) + F.BE16(|s|)) && F.Holds(buf, off, s)
    ensures GetValue(col, buf) == Some(VarcharV(s))
  {
    var head := F.BE16(off) + F.BE16(|s|);
    assert head[..2] == F.BE16(off) && head[2..] == F.BE16(|s|);
    hide FromBE, F.BE16;
    BE16Read(off);
    BE16Read(|s|);
  }

  lemma {:induction false} PlainGet(col: Column, buf: seq<byte>, v: Value)
    requires HasType(v, col.ty) && col.ty != Varchar && F.Holds(buf, col.offset, FieldOf(v).bytes)
    ensures GetValue(col, buf) == Some(v)
  {
    PlainRead(v, col.ty);
    hide HasType, FieldOf, DecodePlain;
  }

  /** Column `i` of a packed schema finds value `i`, whatever follows the tuple. */
  lemma {:induction false} ReadBack(vs: seq<Value>, tys: seq<Type>, col: Column, i: nat, junk: seq<byte>)
    requires Typed(vs, tys) && AllValid(vs) && i < |vs| && |Encode(vs)| < U16
    requires col.ty == tys[i] && col.offset == WidthOf(tys[..i])
    ensures GetValue(col, Encode(vs) + junk) == Some(vs[i])
  {
    var fs := FieldsOf(vs);
    WidthsAgree(vs, tys, i);
    F.FieldAt(fs, i, junk);
    F.FieldDataAt(fs, i, junk);
    assert Encode(vs) == F.Assemble(fs) && fs[i] == FieldOf(vs[i]) && HasType(vs[i], tys[i]);
    FieldBytes(vs[i], F.DataAt(fs, i));
    assert vs[i].VarcharV? <==> col.ty == Varchar;
    hide FieldOf, GetValue, F.Assemble, F.DataAt, F.Holds, F.BytesOf, F.BE16, HasType, Encode, Typed, AllValid, FieldsOf, WidthOf;
    if vs[i].VarcharV? {
      VarcharRead(col, Encode(vs) + junk, F.DataAt(fs, i), vs[i].s);
    } else {
      PlainGet(col, Encode(vs) + junk, vs[i]);
    }
  }

  lemma {:induction false} FieldBytes(v: Value, off: nat)
    requires Proper(v)
    ensures v.VarcharV? ==> F.BytesOf(FieldOf(v), off) == F.BE16(off) + F.BE16(|v.s|) && F.DataOf(FieldOf(v)) == v.s
    ensures !v.VarcharV? ==> FieldOf(v).Plain? && F.BytesOf(FieldOf(v), off) == FieldOf(v).bytes
  {
  }

  lemma {:induction false} WidthsMatch(fs: seq<F.Field>, tys: seq<Type>)
    requires |fs| == |tys| && forall i :: 0 <= i < |fs| ==> F.Width(fs[i]) == SizeOf(tys[i])
    ensures F.WidthOf(fs) == WidthOf(tys)
  {
    hide F.Width, SizeOf;
    if |fs| > 0 {
      WidthsMatch(fs[1..], tys[1..]);
    }
  }

  lemma {:induction false} WidthsAgree(vs: seq<Value>, tys: seq<Type>, i: nat)
    requires Typed(vs, tys) && AllValid(vs) && i <= |vs|
    ensures F.WidthOf(FieldsOf(vs)[..i]) == WidthOf(tys[..i])
  {
    var fs := FieldsOf(vs);
    forall k | 0 <= k < i ensures F.Width(fs[k]) == SizeOf(tys[k]) {
      assert fs[k] == FieldOf(vs[k]) && HasType(vs[k], tys[k]);
    }
    hide *;
    WidthsMatch(fs[..i], tys[..i]);
  }
}
