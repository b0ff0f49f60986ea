/** A set of tuples packed eight to a byte, as minimize_bits() writes it and cull_queue() reads it. */
module PackedBits {
  import opened Bytes
  import opened Bits

  function Bit(b: nat, k: nat): bool {
    if k == 0 then b % 2 == 1 else Bit(b / 2, k - 1)
  }

  lemma {:induction false} BitOfAndNot(a: nat, b: nat, k: nat)
    ensures Bit(AndNot(a, b), k) == (Bit(a, k) && !Bit(b, k))
  {
    var x := AndNot(a, b);
    assert x % 2 == (if a % 2 == 1 && b % 2 == 0 then 1 else 0) && x / 2 == AndNot(a / 2, b / 2);
    if k > 0 {
      BitOfAndNot(a / 2, b / 2, k - 1);
    }
  }

  lemma {:induction false} OrDigits(a: nat, b: nat)
    ensures Or(a, b) % 2 == (if a % 2 == 1 || b % 2 == 1 then 1 else 0) && Or(a, b) / 2 == Or(a / 2, b / 2)
  {
  }

  lemma {:induction false} BitOfOr(a: nat, b: nat, k: nat)
    ensures Bit(Or(a, b), k) == (Bit(a, k) || Bit(b, k))
  {
    OrDigits(a, b);
    if k > 0 {
      BitOfOr(a / 2, b / 2, k - 1);
    }
  }

  lemma {:induction false} BitOfShl(n: nat, k: nat)
    ensures Bit(Pow2(n), k) <==> k == n
  {
    if k > 0 && n > 0 {
      BitOfShl(n - 1, k - 1);
    } else if k > 0 {
      BitOfZero(k - 1);
    }
  }

  lemma {:induction false} BitOfZero(k: nat)
    ensures !Bit(0, k)
  {
    if k > 0 {
      BitOfZero(k - 1);
    }
  }

  // b & (1 << k), as a condition.
  lemma {:induction false} AndShl(b: nat, k: nat)
    ensures And(b, Pow2(k)) != 0 <==> Bit(b, k)
  {
    if k > 0 {
      AndShl(b / 2, k - 1);
    } else {
      assert And(b / 2, 0) == 0;
    }
  }

  lemma {:induction false} OrBelow(k: nat, a: nat, b: nat)
    requires a < Pow2(k) && b < Pow2(k)
    ensures Or(a, b) < Pow2(k)
  {
    if k > 0 {
      OrBelow(k - 1, a / 2, b / 2);
    }
  }

  lemma ShlByte(k: nat)
    requires k < 8
    ensures Pow2(k) < 256 && Pow2(8) == 256
  {
    assert Pow2(4) == 16;
    if k < 4 {
      assert Pow2(k) <= 8;
    } else {
      assert Pow2(k) == 16 * Pow2(k - 4);
    }
  }

  // ------------------------------------------------------------ packed sets

  ghost function HitSet(trace: seq<byte>): set<nat> {
    set i: nat | i < |trace| && trace[i] != 0
  }

  predicate Marked(m: seq<byte>, i: nat) {
    i / 8 < |m| && Bit(m[i / 8], i % 8)
  }

  ghost predicate Packs(m: seq<byte>, n: nat, s: set<nat>) {
    && 8 * |m| == n
    && forall i: nat | i < n :: Marked(m, i) <==> i in s
  }

  function Mark(b: byte, k: nat): (r: byte)
    requires k < 8
  {
    ShlByte(k);
    OrBelow(8, b, Pow2(k));
    Or(b, Pow2(k))
  }

  lemma MarkOne(m: seq<byte>, i: nat, j: nat)
    requires i / 8 < |m| && j / 8 < |m|
    ensures Marked(m[i / 8 := Mark(m[i / 8], i % 8)], j) <==> Marked(m, j) || j == i
  {
    if i / 8 == j / 8 {
      BitOfOr(m[i / 8], Pow2(i % 8), j % 8);
      BitOfShl(i % 8, j % 8);
    }
  }

  // minimize_bits(), on a fresh zeroed buffer.
  method MinimizeBits(trace: array<byte>, n: nat) returns (dst: array<byte>)
    requires n % 8 == 0 && n <= trace.Length
    ensures fresh(dst) && Packs(dst[..], n, HitSet(trace[..n]))
  {
    dst := new byte[n / 8](_ => 0);
    forall j: nat | j < n
      ensures !Marked(dst[..], j)
    {
      BitOfZero(j % 8);
    }
    for i := 0 to n
      invariant forall j: nat | j < n :: Marked(dst[..], j) <==> j < i && trace[j] != 0
    {
      if trace[i] != 0 {
        ghost var before := dst[..];
        dst[i / 8] := Mark(dst[i / 8], i % 8);
        assert dst[..] == before[i / 8 := Mark(before[i / 8], i % 8)];
        forall j: nat | j < n
          ensures Marked(dst[..], j) <==> Marked(before, j) || j == i
        {
          MarkOne(before, i, j);
        }
      }
    }
  }

  // temp_v[j] &= ~mini[j] for every j, skipping the bytes of mini that are 0.
  method RemoveBits(temp: array<byte>, mini: seq<byte>, ghost n: nat, ghost u: set<nat>, ghost s: set<nat>)
    requires Packs(temp[..], n, u) && Packs(mini, n, s)
    modifies temp
    ensures Packs(temp[..], n, u - s)
  {
    ghost var before := temp[..];
    var j := temp.Length;
    while j > 0
      invariant 0 <= j <= temp.Length
      invariant forall k :: 0 <= k < temp.Length ==> temp[k] == if k < j then before[k] else AndNot(before[k], mini[k])
    {
      j := j - 1;
      if mini[j] != 0 {
        temp[j] := AndNot(temp[j], mini[j]);
      } else {
        AndNotIsRest(temp[j], 0);
      }
    }
    forall i: nat | i < n
      ensures Marked(temp[..], i) <==> i in u - s
    {
      BitOfAndNot(before[i / 8], mini[i / 8], i % 8);
      assert Marked(before, i) <==> i in u;
      assert Marked(mini, i) <==> i in s;
    }
  }

  lemma {:induction false} BitOfOnes(k: nat, ones: nat)
    requires ones == 255 || ones == 127 || ones == 63 || ones == 31 || ones == 15 || ones == 7 || ones == 3 || ones == 1
    requires Pow2(k) <= ones
    ensures Bit(ones, k)
  {
    if k > 0 {
      BitOfOnes(k - 1, ones / 2);
    }
  }

  ghost function Below(n: nat): set<nat> {
    set i: nat {:trigger Marked([], i)} | i < n
  }

  // memset(temp, 255, n / 8): everything is marked.
  lemma AllMarked(m: seq<byte>, n: nat)
    requires 8 * |m| == n && forall j :: 0 <= j < |m| ==> m[j] == 255
    ensures Packs(m, n, Below(n))
  {
    forall i: nat | i < n
      ensures Marked(m, i)
    {
      ShlByte(i % 8);
      BitOfOnes(i % 8, 255);
    }
  }

  // m[i >> 3] & (1 << (i & 7)), as a condition.
  predicate TestBit(m: byte, k: nat)
    ensures TestBit(m, k) <==> Bit(m, k)
  {
    AndShl(m, k);
    And(m, Pow2(k)) != 0
  }
}
