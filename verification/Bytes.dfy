/** Big-endian integers in byte sequences. */
module Bytes {

  type byte = b: int | 0 <= b < 256

  function Pow256(w: nat): (p: nat)
    ensures p > 0
  {
    if w == 0 then 1 else 256 * Pow256(w - 1)
  }

  /** The `w` low bytes of `v`, most significant first. */
  function ToBE(v: nat, w: nat): (s: seq<byte>)
    ensures |s| == w
  {
    if w == 0 then [] else ToBE(v / 256, w - 1) + [v % 256]
  }

  function FromBE(s: seq<byte>): (v: nat)
    ensures v < Pow256(|s|)
  {
    if |s| == 0 then 0 else FromBE(s[..|s| - 1]) * 256 + s[|s| - 1]
  }

  lemma {:induction false} FromTo(v: nat, w: nat)
    requires v < Pow256(w)
    ensures FromBE(ToBE(v, w)) == v
    decreases w
  {
    if w > 0 {
      FromTo(v / 256, w - 1);
      assert ToBE(v, w)[..w - 1] == ToBE(v / 256, w - 1);
    }
  }

  lemma {:induction false} ToFrom(s: seq<byte>)
    ensures ToBE(FromBE(s), |s|) == s
  {
    if |s| > 0 {
      var r := s[..|s| - 1];
      ToFrom(r);
      assert FromBE(s) / 256 == FromBE(r) && FromBE(s) % 256 == s[|s| - 1];
      assert s == r + [s[|s| - 1]];
    }
  }

  /** Byte `i` of `v` as `w` bytes, most significant first; a negative `v` in two's complement. */
  function Digit(v: int, w: nat, i: nat): byte
    requires i < w
  {
    v / Pow256(w - 1 - i) % 256
  }

  /** The buffer holds `v` in the `w` bytes from `at` on, most significant first, negative numbers in two's complement. */
  predicate BigEndian(buf: seq<byte>, at: nat, w: nat, v: int) {
    at + w <= |buf| && forall i :: 0 <= i < w ==> buf[at + i] == Digit(v, w, i)
  }

  lemma {:induction false} DivTwice(v: int, a: int, b: int)
    requires a > 0 && b > 0
    ensures v / a / b == v / (a * b)
  {
    var q, r := v / (a * b), v % (a * b);
    assert v == a * b * q + r == a * (b * q) + r;
    DivMod(a, b, r);
    assert v / a == b * q + r / a by {
      DivUnique(v, a, b * q + r / a, r % a);
    }
    DivUnique(v / a, b, q, r / a);
  }

  lemma {:induction false} DivMod(a: int, b: int, r: int)
    requires a > 0 && b > 0 && 0 <= r < a * b
    ensures 0 <= r / a < b && r == a * (r / a) + r % a
  {
    var q := r / a;
    assert r == a * q + r % a;
    Scaled(a, b, q);
  }

  lemma {:induction false} Scaled(a: int, b: int, c: int)
    requires a > 0
    ensures b <= c ==> a * b <= a * c
  {
    assert a * c == a * b + a * (c - b);
  }

  lemma {:induction false} DivUnique(v: int, a: int, q: int, r: int)
    requires a > 0 && v == a * q + r && 0 <= r < a
    ensures v / a == q
  {
    var p, m := v / a, v % a;
    assert v == a * p + m && 0 <= m < a;
    Unique(a, p, m, q, r);
  }

  lemma {:induction false} Unique(a: int, p: int, m: int, q: int, r: int)
    requires a > 0 && a * p + m == a * q + r && 0 <= m < a && 0 <= r < a
    ensures p == q
  {
    Scaled(a, q + 1, p);
    Scaled(a, p + 1, q);
    assert a * (q + 1) == a * q + a && a * (p + 1) == a * p + a;
  }

  lemma {:induction false} BEDigit(v: nat, w: nat, i: nat)
    requires i < w
    ensures ToBE(v, w)[i] == Digit(v, w, i)
    decreases w
  {
    if i < w - 1 {
      BEDigit(v / 256, w - 1, i);
      DivTwice(v, 256, Pow256(w - 2 - i));
    }
  }

  /** The order of the bytes, by an example. */
  lemma {:induction false} MostSignificantFirst()
    ensures ToBE(0x0102_0304, 4) == [1, 2, 3, 4]
    ensures BigEndian([0xff, 0xfe], 0, 2, -2)
  {
    assert ToBE(0x0102_0304, 4) == ToBE(0x0102_03, 3) + [4];
    assert ToBE(0x0102_03, 3) == ToBE(0x0102, 2) + [3];
    assert ToBE(0x0102, 2) == ToBE(0x01, 1) + [2] == ToBE(0, 0) + [1] + [2];
    assert Pow256(1) == 256 * Pow256(0) && Digit(-2, 2, 0) == 0xff && Digit(-2, 2, 1) == 0xfe;
  }

  // ---------------------------------------------------------------- two's complement

  const I8: nat := 0x100
  const U16: nat := 0x1_0000
  const I32: nat := 0x1_0000_0000
  const I64: nat := 0x1_0000_0000_0000_0000

  /** The integers an `n`-valued two's-complement type holds. */
  predicate Fits(v: int, n: nat) {
    0 <= 2 * v + n < 2 * n
  }

  function Wrap(v: int, n: nat): (u: nat)
    requires Fits(v, n)
    ensures u < n
  {
    if v < 0 then v + n else v
  }

  function Unwrap(u: nat, n: nat): int {
    if 2 * u < n then u else u - n
  }

  function Signed(v: int, w: nat): (s: seq<byte>)
    requires Fits(v, Pow256(w))
    ensures |s| == w
  {
    ToBE(Wrap(v, Pow256(w)), w)
  }

  function Unsigned(s: seq<byte>): int {
    Unwrap(FromBE(s), Pow256(|s|))
  }

  /** Two's complement by its digits. */
  lemma {:induction false} SignedDigits(v: int, w: nat)
    requires Fits(v, Pow256(w))
    ensures BigEndian(Signed(v, w), 0, w, v)
  {
    var u := Wrap(v, Pow256(w));
    forall i | 0 <= i < w ensures Signed(v, w)[i] == Digit(v, w, i) {
      BEDigit(u, w, i);
      if v < 0 {
        DigitWraps(v, w, i);
      }
    }
  }

  lemma {:induction false} DigitWraps(v: int, w: nat, i: nat)
    requires i < w
    ensures Digit(v + Pow256(w), w, i) == Digit(v, w, i)
  {
    var p, q := Pow256(w - 1 - i), Pow256(i);
    PowSum(w - 1 - i, i + 1);
    assert Pow256(w) == p * (256 * q);
    DivUnique(v + p * (256 * q), p, v / p + 256 * q, v % p);
  }

  lemma {:induction false} PowSum(a: nat, b: nat)
    ensures Pow256(a + b) == Pow256(a) * Pow256(b)
  {
    if a > 0 {
      PowSum(a - 1, b);
    }
  }

  lemma {:induction false} Widths()
    ensures Pow256(1) == I8 && Pow256(2) == U16 && Pow256(4) == I32 && Pow256(8) == I64
  {
    assert Pow256(1) == 256 * Pow256(0);
    assert Pow256(2) == 256 * Pow256(1);
    assert Pow256(3) == 256 * Pow256(2);
    assert Pow256(4) == 256 * Pow256(3);
    assert Pow256(5) == 256 * Pow256(4);
    assert Pow256(6) == 256 * Pow256(5);
    assert Pow256(7) == 256 * Pow256(6);
  }

  /** An integer that fits its type survives being written and read back. */
  lemma {:induction false} SignedRoundTrip(v: int, w: nat)
    requires Fits(v, Pow256(w))
    ensures Unsigned(Signed(v, w)) == v
  {
    FromTo(Wrap(v, Pow256(w)), w);
  }
}
