/** Page buffers: 4096 bytes, written piece by piece. */
module Buffers {
  import opened Bytes

  const PAGE_SIZE: nat := 4096

  type PageBuf = s: seq<byte> | |s| == PAGE_SIZE witness seq(PAGE_SIZE, _ => 0)

  function Zeros(n: nat): (s: seq<byte>)
    ensures |s| == n && forall i :: 0 <= i < n ==> s[i] == 0
  {
    seq(n, _ => 0)
  }

  function Blank(): PageBuf {
    Zeros(PAGE_SIZE)
  }

  /** `s` with the bytes from `at` on replaced by `b`. */
  function Patched(s: seq<byte>, at: nat, b: seq<byte>): seq<byte>
    requires at + |b| <= |s|
  {
    s[..at] + b + s[at + |b|..]
  }

  method BlankBuffer() returns (a: array<byte>)
    ensures fresh(a) && a.Length == PAGE_SIZE && a[..] == Zeros(PAGE_SIZE)
  {
    a := new byte[PAGE_SIZE](_ => 0);
  }

  method CopyInto(a: array<byte>, at: nat, b: seq<byte>)
    requires at + |b| <= a.Length
    modifies a
    ensures a[..] == Patched(old(a[..]), at, b)
  {
    var i := 0;
    while i < |b|
      invariant 0 <= i <= |b|
      invariant forall k :: at <= k < at + i ==> a[k] == b[k - at]
      invariant forall k :: 0 <= k < a.Length && !(at <= k < at + i) ==> a[k] == old(a[k])
    {
      a[at + i] := b[i];
      i := i + 1;
    }
  }

  lemma {:induction false} FillNext(x: seq<byte>, n: nat, b: seq<byte>)
    requires |b| <= n
    ensures Patched(x + Zeros(n), |x|, b) == x + b + Zeros(n - |b|)
  {
  }

  /** Write what comes next into a buffer whose first bytes are done and whose rest is zero. */
  method Fill(a: array<byte>, ghost x: seq<byte>, at: nat, b: seq<byte>)
    requires at == |x| && at + |b| <= a.Length && a[..] == x + Zeros(a.Length - at)
    modifies a
    ensures a[..] == x + b + Zeros(a.Length - at - |b|)
  {
    FillNext(x, a.Length - at, b);
    CopyInto(a, at, b);
  }
}
