// Bytes, and the memory operations of the C library that the modules share.
module Bytes {

  type byte = b: int | 0 <= b < 256

  // The digit '0', which the minimizer uses as its neutral filler.
  const ZERO_DIGIT: byte := 48

  function Min(a: int, b: int): int {
    if a < b then a else b
  }

  function Max(a: int, b: int): int {
    if a > b then a else b
  }

  // A buffer with a block written over it.
  function Write(s: seq<byte>, i: nat, block: seq<byte>): (r: seq<byte>)
    requires i + |block| <= |s|
    ensures |r| == |s|
  {
    s[..i] + block + s[i + |block|..]
  }

  // memcpy(dst + d, src + s, n) between two different buffers.
  method CopyBytes(dst: array<byte>, d: nat, src: array<byte>, s: nat, n: nat)
    requires dst != src && d + n <= dst.Length && s + n <= src.Length
    modifies dst
    ensures dst[..] == old(dst[..d]) + src[s..s + n] + old(dst[d + n..])
  {
    forall k | 0 <= k < n {
      dst[d + k] := src[s + k];
    }
  }

  // Storing a block.
  method PutBytes(out: array<byte>, i: nat, block: seq<byte>)
    requires i + |block| <= out.Length
    modifies out
    ensures out[..] == old(out[..i]) + block + old(out[i + |block|..])
  {
    forall k | 0 <= k < |block| {
      out[i + k] := block[k];
    }
  }

  // memset(dst + d, c, n).
  method FillBytes(dst: array<byte>, d: nat, c: byte, n: nat)
    requires d + n <= dst.Length
    modifies dst
    ensures dst[..] == old(dst[..d]) + seq(n, _ => c) + old(dst[d + n..])
  {
    forall k | 0 <= k < n {
      dst[d + k] := c;
    }
  }
}
