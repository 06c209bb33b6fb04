/** Sizes and byte values shared by the models. */
module Machine {

  type Byte = x: int | 0 <= x < 256

  const KB: int := 1024
  const MB: int := 1024 * KB

  /** Values of a C uint32_t. */
  const WORD: int := 0x1_0000_0000

  /** Processes that the kernel has room for. */
  const MAX_PROCESSES: nat := 100

  ghost predicate NulFree(s: seq<Byte>) {
    forall i :: 0 <= i < |s| ==> s[i] != 0
  }

  function Min(a: int, b: int): int {
    if a <= b then a else b
  }

  function AsBytes(s: string): seq<Byte> {
    seq(|s|, i requires 0 <= i < |s| => s[i] as int % 256)
  }

  lemma SeqAssoc<T>(a: seq<T>, b: seq<T>, c: seq<T>)
    ensures a + (b + c) == a + b + c
  {
  }

  lemma MulAtLeast(a: int, k: int)
    requires a >= 1 && k > 0
    ensures a * k >= k
  {
    var b := a - 1;
    assert a * k == b * k + k;
    assert b * k >= 0;
  }

  /** Two multiples of k that are less than k apart are equal. */
  lemma MultiplesApart(a: int, b: int, k: int)
    requires k > 0 && -k < a * k - b * k < k
    ensures a == b
  {
    assert a * k - b * k == (a - b) * k;
    if a > b {
      MulAtLeast(a - b, k);
    } else if a < b {
      MulAtLeast(b - a, k);
    }
  }

  lemma DivModUnique(x: int, q: int, r: int, k: int)
    requires k > 0 && 0 <= r < k && x == q * k + r
    ensures x / k == q && x % k == r
  {
    var q', r' := x / k, x % k;
    assert x == q' * k + r' && 0 <= r' < k;
    MultiplesApart(q, q', k);
  }

  /** A buffer with x written over it from position at on. */
  function Patched<T>(s: seq<T>, at: nat, x: seq<T>): (r: seq<T>)
    requires at + |x| <= |s|
    ensures |r| == |s|
  {
    s[..at] + x + s[at + |x|..]
  }

  lemma PatchedTwice<T>(s: seq<T>, at: nat, x: seq<T>, y: seq<T>)
    requires at + |x| + |y| <= |s|
    ensures Patched(Patched(s, at, x), at + |x|, y) == Patched(s, at, x + y)
  {
  }

  lemma PatchedNone<T>(s: seq<T>, at: nat)
    requires at <= |s|
    ensures Patched(s, at, []) == s
  {
  }

  /** memcpy into part of a buffer. */
  method CopyInto(buf: array<Byte>, pos: nat, src: seq<Byte>)
    requires pos + |src| <= buf.Length
    modifies buf
    ensures buf[..] == Patched(old(buf[..]), pos, src)
  {
    forall i | 0 <= i < |src| {
      buf[pos + i] := src[i];
    }
  }
}
