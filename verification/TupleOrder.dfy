/** The order of tuples, and the tuple that follows a tuple. */
module TupleOrder {
  import opened Options
  import opened Bytes
  import opened Schema
  import opened TupleCodec
  import opened Projection

  datatype Ordering = Less | Equal | Greater

  function CmpInt(a: int, b: int): Ordering {
    if a < b then Less else if a == b then Equal else Greater
  }

  function Flip(o: Ordering): Ordering {
    match o case Less => Greater case Equal => Equal case Greater => Less
  }

  /** Strings compare byte by byte; a proper prefix comes first. */
  function CmpBytes(a: seq<byte>, b: seq<byte>): Ordering {
    if |a| == 0 || |b| == 0 then CmpInt(|a|, |b|)
    else if a[0] != b[0] then CmpInt(a[0], b[0])
    else CmpBytes(a[1..], b[1..])
  }

  function Rank(v: Value): nat {
    match v
    case TinyIntV(_) => 0
    case BoolV(_) => 1
    case IntV(_) => 2
    case BigIntV(_) => 3
    case VarcharV(_) => 4
  }

  function CmpValue(a: Value, b: Value): Ordering {
    if Rank(a) != Rank(b) then CmpInt(Rank(a), Rank(b))
    else match a
      case TinyIntV(i) => CmpInt(i, b.i)
      case BoolV(x) => CmpInt(if x then 1 else 0, if b.b then 1 else 0)
      case IntV(i) => CmpInt(i, b.i)
      case BigIntV(i) => CmpInt(i, b.i)
      case VarcharV(s) => CmpBytes(s, b.s)
  }

  /** Rows compare column by column. */
  function CmpValues(vs: seq<Value>, ws: seq<Value>): Ordering
    requires |vs| == |ws|
  {
    if |vs| == 0 then Equal
    else if CmpValue(vs[0], ws[0]) != Equal then CmpValue(vs[0], ws[0])
    else CmpValues(vs[1..], ws[1..])
  }

  lemma {:induction false} BytesLaws(a: seq<byte>, b: seq<byte>)
    ensures CmpBytes(a, b) == Equal <==> a == b
    ensures CmpBytes(b, a) == Flip(CmpBytes(a, b))
  {
    if |a| > 0 && |b| > 0 && a[0] == b[0] {
      BytesLaws(a[1..], b[1..]);
      assert a == [a[0]] + a[1..] && b == [b[0]] + b[1..];
    }
  }

  lemma {:induction false} BytesTransitive(a: seq<byte>, b: seq<byte>, c: seq<byte>)
    requires CmpBytes(a, b) == Less && CmpBytes(b, c) == Less
    ensures CmpBytes(a, c) == Less
  {
    if |a| > 0 && |b| > 0 && |c| > 0 && a[0] == b[0] == c[0] {
      BytesTransitive(a[1..], b[1..], c[1..]);
    }
  }

  lemma {:induction false} ValueLaws(a: Value, b: Value)
    ensures CmpValue(a, b) == Equal <==> a == b
    ensures CmpValue(b, a) == Flip(CmpValue(a, b))
  {
    if a.VarcharV? && b.VarcharV? {
      BytesLaws(a.s, b.s);
    }
  }

  lemma {:induction false} ValueTransitive(a: Value, b: Value, c: Value)
    requires CmpValue(a, b) == Less && CmpValue(b, c) == Less
    ensures CmpValue(a, c) == Less
  {
    if a.VarcharV? && b.VarcharV? && c.VarcharV? {
      BytesTransitive(a.s, b.s, c.s);
    }
  }

  /** Rows compare equal exactly when they are equal, and one way round is the reverse of the other. */
  lemma {:induction false} RowLaws(vs: seq<Value>, ws: seq<Value>)
    requires |vs| == |ws|
    ensures CmpValues(vs, ws) == Equal <==> vs == ws
    ensures CmpValues(ws, vs) == Flip(CmpValues(vs, ws))
    decreases |vs|
  {
    hide CmpValue;
    if |vs| > 0 {
      ValueLaws(vs[0], ws[0]);
      RowLaws(vs[1..], ws[1..]);
      assert vs == [vs[0]] + vs[1..] && ws == [ws[0]] + ws[1..];
    }
  }

  lemma {:induction false} RowTransitive(us: seq<Value>, vs: seq<Value>, ws: seq<Value>)
    requires |us| == |vs| == |ws| && CmpValues(us, vs) == Less && CmpValues(vs, ws) == Less
    ensures CmpValues(us, ws) == Less
    decreases |us|
  {
    ValueLaws(us[0], vs[0]);
    ValueLaws(vs[0], ws[0]);
    if us[0] == vs[0] && vs[0] == ws[0] {
      RowTransitive(us[1..], vs[1..], ws[1..]);
    } else if us[0] != vs[0] && vs[0] != ws[0] {
      ValueTransitive(us[0], vs[0], ws[0]);
    }
    hide CmpValue;
  }

  // ---------------------------------------------------------------- what comes first

  /** The strings agree up to byte `n`; there `a` ends and `b` does not, or has the smaller byte. */
  ghost predicate DiffersAt(a: seq<byte>, b: seq<byte>, n: nat) {
    && n <= |a| && n < |b| && a[..n] == b[..n]
    && (n == |a| || a[n] < b[n])
  }

  ghost predicate StringBefore(a: seq<byte>, b: seq<byte>) {
    exists n :: DiffersAt(a, b, n)
  }

  /** Numbers by size, `false` before `true`, strings as in a dictionary. */
  ghost predicate ValueBefore(a: Value, b: Value) {
    match (a, b)
    case (TinyIntV(i), TinyIntV(j)) => i < j
    case (BoolV(x), BoolV(y)) => !x && y
    case (IntV(i), IntV(j)) => i < j
    case (BigIntV(i), BigIntV(j)) => i < j
    case (VarcharV(s), VarcharV(t)) => StringBefore(s, t)
    case _ => Rank(a) < Rank(b)
  }

  /** The rows agree up to column `i`, where `vs` has the smaller value. */
  ghost predicate ColumnBefore(vs: seq<Value>, ws: seq<Value>, i: nat) {
    i < |vs| && i < |ws| && vs[..i] == ws[..i] && ValueBefore(vs[i], ws[i])
  }

  ghost predicate RowBefore(vs: seq<Value>, ws: seq<Value>) {
    exists i :: ColumnBefore(vs, ws, i)
  }

  lemma {:induction false} StringOrder(a: seq<byte>, b: seq<byte>)
    ensures CmpBytes(a, b) == Less <==> StringBefore(a, b)
  {
    forall n: nat | DiffersAt(a, b, n) && n > 0 ensures |a| > 0 && a[0] == b[0] {
      assert a[0] == a[..n][0] && b[0] == b[..n][0];
    }
    if |a| > 0 && |b| > 0 && a[0] == b[0] {
      StringOrder(a[1..], b[1..]);
      if n: nat :| DiffersAt(a[1..], b[1..], n) {
        assert a[..n + 1] == [a[0]] + a[1..][..n] && b[..n + 1] == [b[0]] + b[1..][..n];
        assert DiffersAt(a, b, n + 1);
      }
      if n: nat :| DiffersAt(a, b, n) {
        assert n > 0;
        assert a[1..][..n - 1] == a[..n][1..] && b[1..][..n - 1] == b[..n][1..];
        assert DiffersAt(a[1..], b[1..], n - 1);
      }
    } else if CmpBytes(a, b) == Less {
      assert DiffersAt(a, b, 0);
    }
  }

  lemma {:induction false} ValueOrder(a: Value, b: Value)
    ensures CmpValue(a, b) == Less <==> ValueBefore(a, b)
  {
    if a.VarcharV? && b.VarcharV? {
      StringOrder(a.s, b.s);
    }
  }

  /** A row comes first exactly when it has the smaller value in the first column in which the rows differ. */
  lemma {:induction false} RowOrder(vs: seq<Value>, ws: seq<Value>)
    requires |vs| == |ws|
    ensures CmpValues(vs, ws) == Less <==> RowBefore(vs, ws)
    decreases |vs|
  {
    hide CmpValue, ValueBefore;
    forall i: nat | ColumnBefore(vs, ws, i) && i > 0 ensures vs[0] == ws[0] {
      assert vs[0] == vs[..i][0] && ws[0] == ws[..i][0];
    }
    if |vs| > 0 {
      ValueLaws(vs[0], ws[0]);
      ValueOrder(vs[0], ws[0]);
      if vs[0] == ws[0] {
        RowOrder(vs[1..], ws[1..]);
        RowTail(vs, ws);
      } else if ValueBefore(vs[0], ws[0]) {
        assert ColumnBefore(vs, ws, 0);
      }
    }
  }

  lemma {:induction false} OrderMeans(vs: seq<Value>, ws: seq<Value>)
    requires |vs| == |ws|
    ensures CmpValues(vs, ws) == Less <==> RowBefore(vs, ws)
    ensures CmpValues(vs, ws) == Greater <==> RowBefore(ws, vs)
    ensures CmpValues(vs, ws) == Equal <==> vs == ws
  {
    RowOrder(vs, ws);
    RowOrder(ws, vs);
    RowLaws(vs, ws);
  }

  lemma {:induction false} RowTail(vs: seq<Value>, ws: seq<Value>)
    requires |vs| == |ws| > 0 && vs[0] == ws[0]
    ensures RowBefore(vs, ws) <==> RowBefore(vs[1..], ws[1..])
  {
    ValueLaws(vs[0], ws[0]);
    ValueOrder(vs[0], ws[0]);
    hide CmpValue, ValueBefore;
    if i: nat :| ColumnBefore(vs[1..], ws[1..], i) {
      assert vs[..i + 1] == [vs[0]] + vs[1..][..i] && ws[..i + 1] == [ws[0]] + ws[1..][..i];
      assert ColumnBefore(vs, ws, i + 1);
    }
    if i: nat :| ColumnBefore(vs, ws, i) {
      assert i > 0;
      assert vs[1..][..i - 1] == vs[..i][1..] && ws[1..][..i - 1] == ws[..i][1..];
      assert ColumnBefore(vs[1..], ws[1..], i - 1);
    }
  }

  // ---------------------------------------------------------------- comparing encoded tuples

  lemma {:induction false} EqualPrefix(vs: seq<Value>, ws: seq<Value>, i: nat)
    requires |vs| == |ws| && i <= |vs| && vs[..i] == ws[..i]
    ensures CmpValues(vs, ws) == CmpValues(vs[i..], ws[i..])
    decreases i
  {
    if i == 0 {
      assert vs[0..] == vs && ws[0..] == ws;
    } else {
      assert vs[0] == vs[..i][0] && ws[0] == ws[..i][0];
      ValueLaws(vs[0], ws[0]);
      assert vs[1..][..i - 1] == vs[..i][1..] && ws[1..][..i - 1] == ws[..i][1..];
      EqualPrefix(vs[1..], ws[1..], i - 1);
      assert vs[1..][i - 1..] == vs[i..] && ws[1..][i - 1..] == ws[i..];
    }
  }

  lemma {:induction false} NextColumn(vs: seq<Value>, ws: seq<Value>, i: nat)
    requires |vs| == |ws| && i < |vs| && vs[..i] == ws[..i]
    ensures CmpValue(vs[i], ws[i]) != Equal ==> CmpValues(vs, ws) == CmpValue(vs[i], ws[i])
    ensures CmpValue(vs[i], ws[i]) == Equal ==> vs[..i + 1] == ws[..i + 1]
  {
    ValueLaws(vs[i], ws[i]);
    EqualPrefix(vs, ws, i);
    hide CmpValue;
    assert vs[..i + 1] == vs[..i] + [vs[i]] && ws[..i + 1] == ws[..i] + [ws[i]];
  }

  lemma {:induction false} ColumnsRead(cols: seq<Column>, vs: seq<Value>)
    requires Describes(cols, vs)
    ensures |vs| == |cols| && forall i :: 0 <= i < |vs| ==> GetValue(cols[i], Encode(vs)) == Some(vs[i])
  {
    forall i | 0 <= i < |vs| ensures GetValue(cols[i], Encode(vs)) == Some(vs[i]) {
      IndexRead(cols, vs, i, []);
      assert Encode(vs) + [] == Encode(vs);
    }
  }

  /** Comparing two encoded tuples tells which row comes first. */
  method Compare(cols: seq<Column>, a: seq<byte>, b: seq<byte>, ghost vs: seq<Value>, ghost ws: seq<Value>) returns (o: Ordering)
    requires Describes(cols, vs) && Describes(cols, ws) && a == Encode(vs) && b == Encode(ws)
    ensures o == Less <==> RowBefore(vs, ws)
    ensures o == Greater <==> RowBefore(ws, vs)
    ensures o == Equal <==> vs == ws
    ensures o == CmpValues(vs, ws)
  {
    o := CompareColumns(cols, a, b, vs, ws);
    hide Describes, Encode, CmpValues, RowBefore;
    OrderMeans(vs, ws);
  }

  /** The first column in which the tuples differ decides. */
  method CompareColumns(cols: seq<Column>, a: seq<byte>, b: seq<byte>, ghost vs: seq<Value>, ghost ws: seq<Value>)
    returns (o: Ordering)
    requires Describes(cols, vs) && Describes(cols, ws) && a == Encode(vs) && b == Encode(ws)
    ensures |vs| == |ws| && o == CmpValues(vs, ws)
  {
    ColumnsRead(cols, vs);
    ColumnsRead(cols, ws);
    RowLaws(vs, ws);
    hide CmpValue, CmpValues, GetValue, Encode, Describes;
    var i := 0;
    while i < |cols|
      invariant 0 <= i <= |cols| && vs[..i] == ws[..i]
    {
      var l, r := GetValue(cols[i], a), GetValue(cols[i], b);
      o := CmpValue(l.value, r.value);
      NextColumn(vs, ws, i);
      if o != Equal {
        return o;
      }
      i := i + 1;
    }
    assert vs[..i] == vs && ws[..i] == ws;
    o := Equal;
  }

  /** Different rows of one schema have different bytes. */
  lemma {:induction false} EncodingInjective(cols: seq<Column>, vs: seq<Value>, ws: seq<Value>)
    requires Describes(cols, vs) && Describes(cols, ws)
    ensures Encode(vs) == Encode(ws) <==> vs == ws
    ensures Encode(vs) == Encode(ws) <==> CmpValues(vs, ws) == Equal
  {
    if Encode(vs) == Encode(ws) {
      forall i | 0 <= i < |vs| ensures vs[i] == ws[i] {
        IndexRead(cols, vs, i, []);
        IndexRead(cols, ws, i, []);
      }
    }
    RowLaws(vs, ws);
  }

  // ---------------------------------------------------------------- the following tuple

  /** Bytes of a character in UTF-8, by its first byte and by its code. */
  function CharLen(first: byte): nat {
    if first < 0x80 then 1 else if first < 0xE0 then 2 else if first < 0xF0 then 3 else 4
  }

  function CodeLen(c: nat): nat {
    if c < 0x80 then 1 else if c < 0x800 then 2 else if c < 0x1_0000 then 3 else 4
  }

  /** A code that stands for a character: not a surrogate, and not above the greatest. */
  predicate IsChar(c: nat) {
    c < 0xD800 || 0xE000 <= c < 0x11_0000
  }

  /** The payload of the bytes of a character behind its first one. */
  function Tail(s: seq<byte>): nat {
    if |s| == 0 then 0 else Tail(s[..|s| - 1]) * 64 + s[|s| - 1] % 64
  }

  /** The code of a string's first character. */
  function FirstCode(s: seq<byte>): nat
    requires |s| > 0 && CharLen(s[0]) <= |s|
  {
    match CharLen(s[0])
    case 1 => s[0]
    case 2 => (s[0] % 32) * 64 + Tail(s[1..2])
    case 3 => (s[0] % 16) * 4096 + Tail(s[1..3])
    case _ => (s[0] % 8) * 262144 + Tail(s[1..4])
  }

  /**
   * What the first column can hold for the following tuple to be computed: an integer below its type's maximum, a bool, or
   * a string that is empty or starts with a character that has a successor whose bytes are no more than the string's.
   */
  predicate CanBump(v: Value) {
    match v
    case TinyIntV(i) => Fits(i + 1, Pow256(1))
    case BoolV(_) => true
    case IntV(i) => Fits(i + 1, Pow256(4))
    case BigIntV(i) => Fits(i + 1, Pow256(8))
    case VarcharV(s) =>
      s == [] || (CharLen(s[0]) <= |s| && IsChar(FirstCode(s) + 1) && CodeLen(FirstCode(s) + 1) <= |s|)
  }

  /** A string starts with the first bytes of the four-byte code of the next character then, not with that character. */
  function Bumped(v: Value): Value
    requires CanBump(v)
  {
    match v
    case TinyIntV(i) => TinyIntV(i + 1)
    case BoolV(_) => BoolV(true)
    case IntV(i) => IntV(i + 1)
    case BigIntV(i) => BigIntV(i + 1)
    case VarcharV(s) =>
      if s == [] then VarcharV([0])
      else var n := CodeLen(FirstCode(s) + 1); VarcharV(ToBE(FirstCode(s) + 1, 4)[..n] + s[n..])
  }

  // ---------------------------------------------------------------- what follows a value

  /** A character in UTF-8. */
  function Utf8(c: nat): (s: seq<byte>)
    requires IsChar(c)
    ensures 1 <= |s| <= 4
  {
    if c < 0x80 then [c]
    else if c < 0x800 then [0xC0 + c / 64, 0x80 + c % 64]
    else if c < 0x1_0000 then [0xE0 + c / 4096, 0x80 + c / 64 % 64, 0x80 + c % 64]
    else [0xF0 + c / 262144, 0x80 + c / 4096 % 64, 0x80 + c / 64 % 64, 0x80 + c % 64]
  }

  ghost predicate StartsWith(s: seq<byte>, c: nat) {
    IsChar(c) && Utf8(c) <= s
  }

  /**
   * The string `t` follows a string `s` with the first character `c`: as many bytes as the next character has in UTF-8 are
   * overwritten, with the leading ones of its code as four bytes; all others stay.
   */
  ghost predicate Overwritten(s: seq<byte>, c: nat, t: seq<byte>) {
    && IsChar(c + 1) && |t| == |s|
    && var n := |Utf8(c + 1)|;
    && n <= |s| && t[n..] == s[n..]
    && forall k :: 0 <= k < n ==> t[k] == Digit(c + 1, 4, k)
  }

  /** What the code makes of a value: the next integer, `true`, a zero byte for the empty string, or an overwritten string. */
  ghost predicate Follows(v: Value, w: Value) {
    match v
    case TinyIntV(i) => w == TinyIntV(i + 1)
    case BoolV(_) => w == BoolV(true)
    case IntV(i) => w == IntV(i + 1)
    case BigIntV(i) => w == BigIntV(i + 1)
    case VarcharV(s) =>
      && w.VarcharV?
      && if s == [] then w.s == [0] else forall c: nat :: StartsWith(s, c) ==> Overwritten(s, c, w.s)
  }

  /** The first character is found in its bytes. */
  lemma {:induction false} FirstCodeIs(s: seq<byte>, c: nat)
    requires StartsWith(s, c)
    ensures CharLen(s[0]) == |Utf8(c)| == CodeLen(c) <= |s| && FirstCode(s) == c
  {
    var u := Utf8(c);
    assert forall k :: 0 <= k < |u| ==> s[k] == u[k];
    if |u| == 1 {
      assert s[0] == c;
    } else if |u| == 2 {
      assert s[1..2] == [u[1]];
      TailOne(u[1]);
      Carried(c % 64);
    } else if |u| == 3 {
      assert s[1..3] == [u[1], u[2]];
      ThreeBytes(c, u);
    } else {
      assert s[1..4] == [u[1], u[2], u[3]];
      FourBytes(c, u);
    }
  }

  lemma {:induction false} ThreeBytes(c: nat, u: seq<byte>)
    requires 0x800 <= c < 0x1_0000 && IsChar(c) && u == Utf8(c)
    ensures (u[0] % 16) * 4096 + Tail([u[1], u[2]]) == c && 0xE0 <= u[0] < 0xF0
  {
    Carried(c / 64 % 64);
    Carried(c % 64);
    TailTwo(u[1], u[2]);
    Sextets(c);
    hide Tail, Low;
    assert u[0] % 16 == c / 4096;
  }

  lemma {:induction false} FourBytes(c: nat, u: seq<byte>)
    requires 0x1_0000 <= c && IsChar(c) && u == Utf8(c)
    ensures (u[0] % 8) * 262144 + Tail([u[1], u[2], u[3]]) == c && 0xF0 <= u[0]
  {
    Carried(c / 4096 % 64);
    Carried(c / 64 % 64);
    Carried(c % 64);
    TailThree(u[1], u[2], u[3]);
    Sextets(c);
    hide Tail, Low;
    assert u[0] % 8 == c / 262144;
  }

  lemma {:induction false} Carried(x: nat)
    requires x < 64
    ensures Low(0x80 + x) == x
  {
  }

  function Low(b: byte): nat {
    b % 64
  }

  lemma {:induction false} TailOne(x: byte)
    ensures Tail([x]) == Low(x)
  {
    assert [x][..0] == [];
  }

  lemma {:induction false} TailTwo(x: byte, y: byte)
    ensures Tail([x, y]) == Low(x) * 64 + Low(y)
  {
    TailOne(x);
    assert [x, y][..1] == [x];
  }

  lemma {:induction false} TailThree(x: byte, y: byte, z: byte)
    ensures Tail([x, y, z]) == Low(x) * 4096 + Low(y) * 64 + Low(z)
  {
    TailTwo(x, y);
    assert [x, y, z][..2] == [x, y];
  }

  /** A code is made up of what its bytes carry. */
  lemma {:induction false} Sextets(c: nat)
    requires c < 0x11_0000
    ensures c == c / 64 * 64 + c % 64 && c / 64 == c / 4096 * 64 + c / 64 % 64 && c / 4096 == c / 262144 * 64 + c / 4096 % 64
    ensures c / 262144 < 8
  {
  }

  /** A string can be followed exactly when its first character has a next one, whose bytes are no more than the string's. */
  lemma {:induction false} BumpExact(s: seq<byte>, c: nat)
    requires StartsWith(s, c)
    ensures CanBump(VarcharV(s)) <==> IsChar(c + 1) && |Utf8(c + 1)| <= |s|
  {
    FirstCodeIs(s, c);
  }

  lemma {:induction false} BumpedFollows(v: Value)
    requires CanBump(v)
    ensures Follows(v, Bumped(v))
  {
    if v.VarcharV? && v.s != [] {
      forall c: nat | StartsWith(v.s, c) ensures Overwritten(v.s, c, Bumped(v).s) {
        FirstCodeIs(v.s, c);
        var n := CodeLen(c + 1);
        forall k | 0 <= k < n ensures Bumped(v).s[k] == Digit(c + 1, 4, k) {
          BEDigit(c + 1, 4, k);
        }
        assert Bumped(v).s[n..] == v.s[n..];
      }
    }
  }

  function NextRow(vs: seq<Value>): seq<Value>
    requires |vs| > 0 && CanBump(vs[0])
  {
    [Bumped(vs[0])] + vs[1..]
  }

  /** The following tuple: read column by column, its first value follows the old one, and the others are the same. */
  method Next(cols: seq<Column>, a: seq<byte>, ghost vs: seq<Value>) returns (b: seq<byte>)
    requires |cols| > 0 && Describes(cols, vs) && a == Encode(vs) && CanBump(vs[0])
    ensures AllValid(NextRow(vs)) && b == Encode(NextRow(vs))
    ensures |b| == |a| + if vs[0] == VarcharV([]) then 1 else 0
    ensures |b| < U16 ==>
              && (exists w :: GetValue(cols[0], b) == Some(w) && Follows(vs[0], w))
              && forall i :: 1 <= i < |cols| ==> GetValue(cols[i], b) == Some(vs[i])
  {
    NextReads(cols, vs);
    ColumnsRead(cols, vs);
    ghost var row := NextRow(vs);
    NextParts(vs);
    hide GetValue, Encode, Describes, NextRow, Bumped, Proper, AllValid, TupleBuilder.Valid;
    var builder := new TupleBuilder();
    builder.Add(Bumped(GetValue(cols[0], a).value));
    AddRest(builder, cols, a, row);
    b := builder.Build();
  }

  lemma {:induction false} NextReads(cols: seq<Column>, vs: seq<Value>)
    requires |cols| > 0 && Describes(cols, vs) && CanBump(vs[0])
    ensures var row := NextRow(vs);
            && AllValid(row)
            && |Encode(row)| == |Encode(vs)| + (if vs[0] == VarcharV([]) then 1 else 0)
            && (|Encode(row)| < U16 ==>
                  && (exists w :: GetValue(cols[0], Encode(row)) == Some(w) && Follows(vs[0], w))
                  && forall i :: 1 <= i < |cols| ==> GetValue(cols[i], Encode(row)) == Some(vs[i]))
  {
    var row := NextRow(vs);
    NextParts(vs);
    BumpedFollows(vs[0]);
    assert Typed(row, TypesOf(cols)) by {
      assert forall i :: 1 <= i < |vs| ==> HasType(vs[i], TypesOf(cols)[i]);
    }
    NextSize(vs);
    hide Encode, Bumped, Follows, GetValue, CanBump, HasType;
    if |Encode(row)| < U16 {
      ColumnsRead(cols, row);
    }
  }

  lemma {:induction false} NextSize(vs: seq<Value>)
    requires |vs| > 0 && AllValid(vs) && CanBump(vs[0])
    ensures AllValid(NextRow(vs))
    ensures |Encode(NextRow(vs))| == |Encode(vs)| + (if vs[0] == VarcharV([]) then 1 else 0)
  {
    var v, w, rest := vs[0], Bumped(vs[0]), vs[1..];
    NextParts(vs);
    assert vs == [v] + rest && NextRow(vs) == [w] + rest;
    ConsSize(v, rest);
    ConsSize(w, rest);
  }

  lemma {:induction false} ConsSize(v: Value, vs: seq<Value>)
    requires Proper(v) && AllValid(vs)
    ensures AllValid([v] + vs)
    ensures |Encode([v] + vs)| == SizeOf(TypeOf(v)) + (if v.VarcharV? then |v.s| else 0) + |Encode(vs)|
  {
    var f, fs := FieldOf(v), FieldsOf(vs);
    assert FieldsOf([v] + vs) == [f] + fs;
    Projection.F.Concat([f], fs, 0);
    Projection.F.One(f, 0);
    EncodeSize(vs);
    EncodeSize([v] + vs);
  }

  /** Add the columns after the first as they are. */
  method AddRest(builder: TupleBuilder, cols: seq<Column>, a: seq<byte>, ghost row: seq<Value>)
    requires builder.Valid() && |cols| == |row| > 0 && builder.added == row[..1]
    requires forall i :: 1 <= i < |cols| ==> GetValue(cols[i], a) == Some(row[i]) && Proper(row[i])
    modifies builder
    ensures builder.Valid() && builder.added == row
  {
    hide GetValue, Proper, TupleBuilder.Valid;
    var i := 1;
    while i < |cols|
      invariant 1 <= i <= |cols| && builder.Valid() && builder.added == row[..i]
    {
      builder.Add(GetValue(cols[i], a).value);
      i := i + 1;
    }
    assert row[..i] == row;
  }

  lemma {:induction false} NextParts(vs: seq<Value>)
    requires |vs| > 0 && AllValid(vs) && CanBump(vs[0])
    ensures AllValid(NextRow(vs)) && |NextRow(vs)| == |vs| && NextRow(vs)[0] == Bumped(vs[0])
    ensures Proper(Bumped(vs[0]))
    ensures forall i :: 1 <= i < |vs| ==> NextRow(vs)[i] == vs[i] && Proper(vs[i])
  {
  }

  /** When the following tuple really is greater: always for an integer in the first column,
      only for `false` and for the empty string otherwise. */
  lemma {:induction false} NextGreater(vs: seq<Value>)
    requires |vs| > 0 && CanBump(vs[0])
    ensures CmpValues(vs, NextRow(vs)) == Less
            <==> !(vs[0].BoolV? && vs[0].b) && !(vs[0].VarcharV? && vs[0].s != [])
  {
    var v := vs[0];
    RowLaws(vs[1..], vs[1..]);
    assert NextRow(vs)[1..] == vs[1..];
    if v.VarcharV? && v.s != [] {
      StringNotBelow(v.s);
    }
  }

  /** The result starts with a zero byte, as codes have at most three bytes; so it is not above the string. */
  lemma {:induction false} StringNotBelow(s: seq<byte>)
    requires s != [] && CanBump(VarcharV(s))
    ensures CmpBytes(s, Bumped(VarcharV(s)).s) != Less
  {
    var c, t := FirstCode(s) + 1, Bumped(VarcharV(s)).s;
    HighByte(c);
    assert t[0] == 0;
    if s[0] == 0 {
      assert t == [0] + s[1..] == s;
      BytesLaws(s, s);
    }
  }

  lemma {:induction false} HighByte(c: nat)
    requires c < 0x100_0000
    ensures ToBE(c, 4)[..1] == [0]
  {
    assert ToBE(c, 4) == ToBE(c / 256, 3) + [c % 256];
    assert ToBE(c / 256, 3) == ToBE(c / 256 / 256, 2) + [c / 256 % 256];
    assert ToBE(c / 256 / 256, 2) == ToBE(c / 256 / 256 / 256, 1) + [c / 256 / 256 % 256];
    assert c / 256 / 256 / 256 == 0;
    assert ToBE(0, 1) == ToBE(0, 0) + [0];
  }

  /** With one integer column nothing lies strictly between a tuple and the one that follows it. */
  lemma {:induction false} NextImmediate(vs: seq<Value>, ws: seq<Value>, ty: Type)
    requires Typed(vs, [ty]) && Typed(ws, [ty]) && ty in {TinyInt, Int, BigInt} && CanBump(vs[0])
    ensures Typed(NextRow(vs), [ty])
    ensures CmpValues(vs, ws) == Less <==> CmpValues(NextRow(vs), ws) != Greater
  {
    assert HasType(vs[0], ty) && HasType(ws[0], ty);
    RowLaws(NextRow(vs)[1..], ws[1..]);
  }

  /** A key of one integer column stands for its integer: tuples compare as the integers do,
      equal bytes are equal integers, and the following tuple holds the integer's successor. */
  lemma {:induction false} IntegerKeys(name: string, j: int, k: int)
    requires Fits(j, Pow256(8)) && Fits(k, Pow256(8))
    ensures var cols, vs, ws := [Column(name, BigInt, 0)], [BigIntV(j)], [BigIntV(k)];
            && Describes(cols, vs) && |Encode(vs)| == 8 && GetValue(cols[0], Encode(vs)) == Some(BigIntV(j))
            && CmpValues(vs, ws) == CmpInt(j, k)
            && AllValid(ws) && (Encode(vs) == Encode(ws) <==> j == k)
            && (Fits(j + 1, Pow256(8)) ==> NextRow(vs) == [BigIntV(j + 1)])
  {
    BigIntKey(name, j);
    BigIntKey(name, k);
    var cols, vs, ws := [Column(name, BigInt, 0)], [BigIntV(j)], [BigIntV(k)];
    EncodingInjective(cols, vs, ws);
    IndexRead(cols, vs, 0, []);
    assert Encode(vs) + [] == Encode(vs);
    assert vs[1..] == [] && ws[1..] == [];
  }

  lemma {:induction false} BigIntKey(name: string, k: int)
    requires Fits(k, Pow256(8))
    ensures Describes([Column(name, BigInt, 0)], [BigIntV(k)]) && |Encode([BigIntV(k)])| == 8
  {
    var cols, vs := [Column(name, BigInt, 0)], [BigIntV(k)];
    assert FieldsOf(vs) == [FieldOf(BigIntV(k))];
    EncodeSize(vs);
    Projection.F.One(FieldOf(BigIntV(k)), 0);
    assert cols[..0] == [];
  }
}
