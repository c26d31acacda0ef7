/** Bytes, blocks and the padding arithmetic shared by every part of the archiver. */
module Bytes {

  newtype byte = b: int | 0 <= b < 256

  /** A path is a C string: the bytes of the name without the terminating NUL. */
  type Path = seq<byte>

  const BLOCK_SIZE: nat := 512
  const NUL: byte := 0
  const SPACE: byte := 32

  predicate IsCString(s: seq<byte>) {
    forall i :: 0 <= i < |s| ==> s[i] != NUL
  }

  function Min(a: nat, b: nat): nat {
    if a <= b then a else b
  }

  function Zeros(n: nat): (z: seq<byte>)
    ensures |z| == n
    ensures forall i :: 0 <= i < n ==> z[i] == NUL
  {
    seq(n, _ => NUL)
  }

  /** The first `n` bytes of `s`, or all of `s` when it is shorter: what a read or a
      write of `n` bytes moves when only `|s|` are available. */
  function Take(s: seq<byte>, n: nat): (t: seq<byte>)
    ensures |t| == Min(|s|, n)
    ensures t == s[..|t|]
  {
    if n < |s| then s[..n] else s
  }

  lemma ConcatAssoc<T>(a: seq<T>, b: seq<T>, c: seq<T>)
    ensures a + b + c == a + (b + c)
  {
  }

  lemma TakeConcat(a: seq<byte>, b: seq<byte>, n: nat)
    ensures Take(a + b, n) == Take(a, n) + Take(b, if n >= |a| then n - |a| else 0)
  {
    if n >= |a| {
      assert (a + b)[..|a|] == a;
      if n - |a| < |b| {
        assert (a + b)[..n] == a + b[..n - |a|];
      }
    } else {
      assert (a + b)[..n] == a[..n];
    }
  }

  lemma TakeZeros(n: nat, k: nat)
    ensures Take(Zeros(n), k) == Zeros(Min(n, k))
  {
  }

  /** Once `n` bytes are taken from a prefix `p`, the rest of `s` does not matter. */
  lemma TakeOfLongPrefix(p: seq<byte>, s: seq<byte>, n: nat)
    requires p <= s && n <= |p|
    ensures Take(s, n) == Take(p, n)
  {
  }

  /** Size rounded up to whole blocks: `((size + 511) / 512) * 512` in the source. */
  function PaddedSize(size: nat): (p: nat)
    ensures p % BLOCK_SIZE == 0
    ensures size <= p < size + BLOCK_SIZE
  {
    var q := (size + BLOCK_SIZE - 1) / BLOCK_SIZE;
    assert q * BLOCK_SIZE <= size + BLOCK_SIZE - 1 < q * BLOCK_SIZE + BLOCK_SIZE;
    MultipleOfBlock(q);
    q * BLOCK_SIZE
  }

  lemma MultipleOfBlock(q: nat)
    ensures (q * BLOCK_SIZE) % BLOCK_SIZE == 0
  {
  }

  /** Zero bytes written after the content: `512 - size % 512` unless the size is
      already a multiple of the block size. */
  function PadLen(size: nat): (n: nat)
    ensures n < BLOCK_SIZE
    ensures (size + n) % BLOCK_SIZE == 0
    ensures n == 0 <==> size % BLOCK_SIZE == 0
  {
    if size % BLOCK_SIZE != 0 then BLOCK_SIZE - size % BLOCK_SIZE else 0
  }

  /** The padding written after the content brings it exactly to the padded size. */
  lemma PadLenFillsBlock(size: nat)
    ensures size + PadLen(size) == PaddedSize(size)
  {
    var p := PaddedSize(size);
    var t := size + PadLen(size);
    assert t % BLOCK_SIZE == 0 && p % BLOCK_SIZE == 0;
    assert size <= t < size + BLOCK_SIZE;
    if t < p {
      MultiplesApart(t, p);
    } else if p < t {
      MultiplesApart(p, t);
    }
  }

  lemma MultiplesApart(x: nat, y: nat)
    requires x < y && x % BLOCK_SIZE == 0 && y % BLOCK_SIZE == 0
    ensures y - x >= BLOCK_SIZE
  {
    var qx, qy := x / BLOCK_SIZE, y / BLOCK_SIZE;
    assert x == qx * BLOCK_SIZE && y == qy * BLOCK_SIZE;
    assert qx < qy;
  }
}
