/** Copies into byte buffers. */
module Buffers {
  import opened Bits
  import opened Decimal

  /** Overwriting part of a buffer. */
  function Put(dst: Text, at: nat, src: Text): (r: Text)
    requires at + |src| <= |dst|
    ensures |r| == |dst|
  {
    dst[..at] + src + dst[at + |src|..]
  }

  method Memcpy(dst: array<byte>, at: nat, src: Text)
    requires at + |src| <= dst.Length
    modifies dst
    ensures dst[..] == Put(old(dst[..]), at, src)
  {
    ghost var was := dst[..];
    for k := 0 to |src|
      invariant forall j | 0 <= j < dst.Length :: dst[j] == if at <= j < at + k then src[j - at] else was[j]
    {
      dst[at + k] := src[k];
    }
    assert dst[..] == Put(was, at, src);
  }

  /** A buffer filled from the front: what is written so far. */
  lemma {:induction false} PutNext(dst: Text, done: Text, src: Text)
    requires |done| + |src| <= |dst| && dst[..|done|] == done
    ensures Put(dst, |done|, src)[..|done| + |src|] == done + src
  {
  }
}
