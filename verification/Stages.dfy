/** The byte-sized deterministic stages on their buffer. Each puts the buffer back as it was. */
module Stages {
  import opened Bytes
  import opened Flips
  import opened WalkingFlips
  import opened Bits
  import opened Deterministic

  /** The fuzzed program, as far as the stages are concerned: what it was run on. */
  class Target {
    var runs: seq<seq<byte>>

    method Run(buf: array<byte>)
      modifies this
      ensures runs == old(runs) + [buf[..]]
    {
      runs := runs + [buf[..]];
    }

    method RunPrefix(buf: array<byte>, len: nat)
      requires len <= buf.Length
      modifies this
      ensures runs == old(runs) + [buf[..len]]
    {
      runs := runs + [buf[..len]];
    }
  }

  /** The runs since `before`, kept folded so that loops need not look into them. */
  ghost predicate Ran(runs: seq<seq<byte>>, before: seq<seq<byte>>, since: seq<seq<byte>>) {
    forall k | SeeRuns(k) :: runs == before + since
  }

  predicate SeeRuns(k: int) { k == 0 }

  lemma RanNothing(before: seq<seq<byte>>)
    ensures Ran(before, before, [])
  {
  }

  lemma RanMore(runs: seq<seq<byte>>, before: seq<seq<byte>>, since: seq<seq<byte>>, more: seq<seq<byte>>)
    requires Ran(runs, before, since)
    ensures Ran(runs + more, before, since + more)
  {
    assert SeeRuns(0);
  }

  lemma RanThen(first: seq<seq<byte>>, a: seq<seq<byte>>, second: seq<seq<byte>>, b: seq<seq<byte>>,
                third: seq<seq<byte>>)
    requires Ran(second, first, a) && Ran(third, second, b)
    ensures Ran(third, first, a + b)
  {
    assert SeeRuns(0);
  }

  lemma RanAll(runs: seq<seq<byte>>, before: seq<seq<byte>>, since: seq<seq<byte>>)
    requires Ran(runs, before, since)
    ensures runs == before + since
  {
    assert SeeRuns(0);
  }

  method FlipBit(ar: array<byte>, b: nat)
    requires b < 8 * ar.Length
    modifies ar
    ensures ar[..] == FlipAt(old(ar[..]), b)
  {
    ghost var s := ar[..];
    PowGrows(7 - b % 8, 7);
    XorBound(ar[b / 8], Pow2(7 - b % 8), 8);
    XorByteIs(ar[b / 8], Bit(b % 8));
    ar[b / 8] := Xor(ar[b / 8], Pow2(7 - b % 8));
  }

  method FlipBits(ar: array<byte>, b: nat, n: nat)
    requires b + n <= 8 * ar.Length
    modifies ar
    ensures ar[..] == FlipMany(old(ar[..]), b, n)
  {
    ghost var s := ar[..];
    for i := 0 to n
      invariant ar[..] == FlipMany(s, b, i)
    {
      FlipBit(ar, b + i);
    }
  }

  /** The walking flips of `n` bits. */
  method WalkBits(out: array<byte>, n: nat, target: Target)
    requires 1 <= n <= 8 && out.Length > 0
    modifies out, target
    ensures out[..] == old(out[..])
    ensures target.runs == old(target.runs) + FlipStage(out[..], n)
  {
    ghost var s, before := out[..], target.runs;
    RanNothing(before);
    for cur := 0 to 8 * out.Length - n + 1
      invariant out[..] == s
      invariant Ran(target.runs, before, FlipRuns(s, n, cur))
    {
      RanMore(target.runs, before, FlipRuns(s, n, cur), [FlipMany(s, cur, n)]);
      FlipBits(out, cur, n);
      target.Run(out);
      FlipTwice(s, cur, n);
      FlipBits(out, cur, n);
    }
    RanAll(target.runs, before, FlipStage(s, n));
  }

  /** Whether an adjustment of one byte could have made the change. */
  method CouldBeArith8(c: Tuning, was: byte, now: byte) returns (yes: bool)
    ensures yes <==> was == now || Near(was, now, c.arithMax)
  {
    if was == now {
      return true;
    }
    return U8(was - now) <= c.arithMax || U8(now - was) <= c.arithMax;
  }

  /** The buffer holds `s`, except perhaps at `i`. */
  ghost predicate OnlyAt(out: array<byte>, s: seq<byte>, i: nat)
    reads out
  {
    i < |s| == out.Length && out[..] == s[i := out[i]]
  }

  method TryUnless(out: array<byte>, i: nat, v: byte, skipped: bool, target: Target, ghost s: seq<byte>,
                   ghost skip: byte -> bool)
    requires OnlyAt(out, s, i) && skipped == skip(v)
    modifies out, target
    ensures OnlyAt(out, s, i)
    ensures target.runs == old(target.runs) + Variants(s, i, Unless(skip, v))
  {
    if !skipped {
      out[i] := v;
      target.Run(out);
      OneVariant(s, i, v);
      assert out[..] == s[i := v];
    }
  }

  lemma OneVariant(s: seq<byte>, i: nat, v: byte)
    requires i < |s|
    ensures Variants(s, i, [v]) == [s[i := v]]
  {
    assert Variants(s, i, []) == [];
  }

  method CouldBeFlipOf(was: byte, now: byte) returns (yes: bool)
    ensures yes == IsFlip(was, now)
  {
    XorBound(was, now, 8);
    XorByteIs(was, now);
    yes := CouldBeBitflip(Xor(was, now));
  }

  /** `skip` is the filter of the arithmetic for the byte `was`, kept folded. */
  ghost predicate SkipsFlips(skip: byte -> bool, was: byte) {
    forall k | SeeSkip(k) :: skip == FlipsOf(was)
  }

  predicate SeeSkip(k: int) { k == 0 }

  predicate SeeArith(k: int) { k == 0 }

  /** The runs since `before`: the first `j` adjustments of the byte at `i`, kept folded. */
  ghost predicate RanArith(runs: seq<seq<byte>>, before: seq<seq<byte>>, s: seq<byte>, i: nat, was: byte,
                           skip: byte -> bool, j: nat)
    requires i < |s| && j <= 127
  {
    forall k | SeeArith(k) :: Ran(runs, before, Variants(s, i, ArithValues(was, skip, j)))
  }

  lemma RanNoArith(before: seq<seq<byte>>, s: seq<byte>, i: nat, was: byte, skip: byte -> bool)
    requires i < |s|
    ensures RanArith(before, before, s, i, was, skip, 0)
  {
    RanNothing(before);
  }

  lemma RanAllArith(runs: seq<seq<byte>>, before: seq<seq<byte>>, s: seq<byte>, i: nat, was: byte,
                    skip: byte -> bool, j: nat)
    requires i < |s| && j <= 127 && RanArith(runs, before, s, i, was, skip, j)
    ensures Ran(runs, before, Variants(s, i, ArithValues(was, skip, j)))
  {
    assert SeeArith(0);
  }

  method Arith8At(arithMax: nat, out: array<byte>, i: nat, target: Target, ghost s: seq<byte>, ghost skip: byte -> bool)
    requires arithMax <= 127 && i < out.Length && out[..] == s && SkipsFlips(skip, s[i])
    modifies out, target
    ensures out[..] == s
    ensures RanArith(target.runs, old(target.runs), s, i, s[i], skip, arithMax)
  {
    ghost var before := target.runs;
    var orig := out[i];
    RanNoArith(before, s, i, orig, skip);
    for j := 1 to arithMax + 1
      invariant out[..] == s
      invariant RanArith(target.runs, before, s, i, orig, skip, j - 1)
    {
      Arith8Round(out, i, orig, j, target, s, before, skip);
    }
  }

  ghost function UpDown(was: byte, skip: byte -> bool, j: nat): seq<byte>
    requires 1 <= j <= 127
  {
    Unless(skip, U8(was + j)) + Unless(skip, U8(was - j))
  }

  lemma ArithVariants(s: seq<byte>, i: nat, was: byte, skip: byte -> bool, j: nat)
    requires i < |s| && 1 <= j <= 127
    ensures Variants(s, i, ArithValues(was, skip, j))
         == Variants(s, i, ArithValues(was, skip, j - 1)) + Variants(s, i, UpDown(was, skip, j))
  {
    var a := ArithValues(was, skip, j - 1);
    assert ArithValues(was, skip, j) == a + UpDown(was, skip, j);
    VariantsConcat(s, i, a, UpDown(was, skip, j));
  }

  lemma ArithGoesOn(runs: seq<seq<byte>>, before: seq<seq<byte>>, s: seq<byte>, i: nat, was: byte,
                    skip: byte -> bool, j: nat)
    requires i < |s| && 1 <= j <= 127 && RanArith(runs, before, s, i, was, skip, j - 1)
    ensures RanArith(runs + Variants(s, i, UpDown(was, skip, j)), before, s, i, was, skip, j)
  {
    RanAllArith(runs, before, s, i, was, skip, j - 1);
    ArithVariants(s, i, was, skip, j);
    RanUpTo(runs, before, Variants(s, i, ArithValues(was, skip, j - 1)), Variants(s, i, UpDown(was, skip, j)),
            Variants(s, i, ArithValues(was, skip, j)));
    RanIsArith(runs + Variants(s, i, UpDown(was, skip, j)), before, s, i, was, skip, j);
  }

  lemma RanUpTo(runs: seq<seq<byte>>, before: seq<seq<byte>>, since: seq<seq<byte>>, more: seq<seq<byte>>,
                all: seq<seq<byte>>)
    requires Ran(runs, before, since) && all == since + more
    ensures Ran(runs + more, before, all)
  {
    RanMore(runs, before, since, more);
  }

  lemma RanIsArith(runs: seq<seq<byte>>, before: seq<seq<byte>>, s: seq<byte>, i: nat, was: byte, skip: byte -> bool,
                   j: nat)
    requires i < |s| && j <= 127 && Ran(runs, before, Variants(s, i, ArithValues(was, skip, j)))
    ensures RanArith(runs, before, s, i, was, skip, j)
  {
  }

  method Arith8Round(out: array<byte>, i: nat, orig: byte, j: nat, target: Target, ghost s: seq<byte>,
                     ghost before: seq<seq<byte>>, ghost skip: byte -> bool)
    requires i < out.Length && out[..] == s && out[i] == orig && 1 <= j <= 127 && SkipsFlips(skip, orig)
    requires RanArith(target.runs, before, s, i, orig, skip, j - 1)
    modifies out, target
    ensures out[..] == s
    ensures RanArith(target.runs, before, s, i, orig, skip, j)
  {
    ArithGoesOn(target.runs, before, s, i, orig, skip, j);
    Arith8Step(out, i, orig, j, target, s, skip);
    out[i] := orig;
    assert out[..] == s;
  }

  method Arith8Step(out: array<byte>, i: nat, orig: byte, j: nat, target: Target, ghost s: seq<byte>,
                    ghost skip: byte -> bool)
    requires OnlyAt(out, s, i) && 1 <= j <= 127 && SkipsFlips(skip, orig)
    modifies out, target
    ensures OnlyAt(out, s, i)
    ensures target.runs == old(target.runs) + Variants(s, i, UpDown(orig, skip, j))
  {
    assert SeeSkip(0);
    var r := CouldBeFlipOf(orig, U8(orig + j));
    TryUnless(out, i, U8(orig + j), r, target, s, skip);
    r := CouldBeFlipOf(orig, U8(orig - j));
    TryUnless(out, i, U8(orig - j), r, target, s, skip);
    VariantsConcat(s, i, Unless(skip, U8(orig + j)), Unless(skip, U8(orig - j)));
  }

  lemma NothingTried(s: seq<byte>, values: seq<seq<byte>>, k: nat)
    requires k < |s| == |values| && values[k] == []
    ensures ByteRuns(s, values, k + 1) == ByteRuns(s, values, k)
  {
  }

  /** The arithmetic on single bytes, where the effector map has its flag set. */
  method Arith8(c: Tuning, out: array<byte>, eff: seq<bool>, target: Target)
    requires Sound(c) && Covers(eff, out[..])
    modifies out, target
    ensures out[..] == old(out[..])
    ensures target.runs == old(target.runs) + ByteStage(out[..], Arith8Values(c, out[..], eff))
  {
    ghost var s, before := out[..], target.runs;
    RanNothing(before);
    ghost var values := Arith8Values(c, s, eff);
    for i := 0 to out.Length
      invariant out[..] == s
      invariant Ran(target.runs, before, ByteRuns(s, values, i))
    {
      assert values[i] == if eff[i / 8] then ArithValues(s[i], FlipsOf(s[i]), c.arithMax) else [];
      if eff[i / 8] {
        ghost var runs := target.runs;
        Arith8At(c.arithMax, out, i, target, s, FlipsOf(s[i]));
        RanAllArith(target.runs, runs, s, i, s[i], FlipsOf(s[i]), c.arithMax);
        RanThen(before, ByteRuns(s, values, i), runs, Variants(s, i, values[i]), target.runs);
      } else {
        NothingTried(s, values, i);
      }
    }
    RanAll(target.runs, before, ByteStage(s, values));
  }

  ghost predicate SkipsNear(c: Tuning, skip: byte -> bool, was: byte) {
    forall k | SeeSkip(k) :: skip == NearOf(c, was)
  }

  method Interest8At(c: Tuning, out: array<byte>, i: nat, target: Target, ghost s: seq<byte>, ghost skip: byte -> bool)
    requires i < out.Length && out[..] == s && SkipsNear(c, skip, s[i])
    modifies out, target
    ensures out[..] == s
    ensures Ran(target.runs, old(target.runs), Variants(s, i, InterestValues(skip, c.ints)))
  {
    ghost var before := target.runs;
    RanNothing(before);
    var orig := out[i];
    for j := 0 to |c.ints|
      invariant out[..] == s
      invariant Ran(target.runs, before, Variants(s, i, InterestValues(skip, c.ints[..j])))
    {
      Interest8Round(c, out, i, orig, j, target, s, before, skip);
    }
    assert c.ints[..|c.ints|] == c.ints;
  }

  lemma InterestGoesOn(c: Tuning, runs: seq<seq<byte>>, before: seq<seq<byte>>, s: seq<byte>, i: nat,
                       skip: byte -> bool, j: nat)
    requires i < |s| && j < |c.ints| && Ran(runs, before, Variants(s, i, InterestValues(skip, c.ints[..j])))
    ensures Ran(runs + Variants(s, i, Unless(skip, c.ints[j])), before,
                Variants(s, i, InterestValues(skip, c.ints[..j + 1])))
  {
    RanMore(runs, before, Variants(s, i, InterestValues(skip, c.ints[..j])), Variants(s, i, Unless(skip, c.ints[j])));
    InterestVariants(c, s, i, skip, j);
  }

  method Interest8Round(c: Tuning, out: array<byte>, i: nat, orig: byte, j: nat, target: Target, ghost s: seq<byte>,
                        ghost before: seq<seq<byte>>, ghost skip: byte -> bool)
    requires i < out.Length && out[..] == s && out[i] == orig && j < |c.ints| && SkipsNear(c, skip, orig)
    requires Ran(target.runs, before, Variants(s, i, InterestValues(skip, c.ints[..j])))
    modifies out, target
    ensures out[..] == s
    ensures Ran(target.runs, before, Variants(s, i, InterestValues(skip, c.ints[..j + 1])))
  {
    InterestGoesOn(c, target.runs, before, s, i, skip, j);
    Interest8Step(c, out, i, orig, j, target, s, skip);
    out[i] := orig;
    assert out[..] == s;
  }

  lemma InterestVariants(c: Tuning, s: seq<byte>, i: nat, skip: byte -> bool, j: nat)
    requires i < |s| && j < |c.ints|
    ensures Variants(s, i, InterestValues(skip, c.ints[..j + 1]))
         == Variants(s, i, InterestValues(skip, c.ints[..j])) + Variants(s, i, Unless(skip, c.ints[j]))
  {
    assert c.ints[..j + 1][..j] == c.ints[..j];
    VariantsConcat(s, i, InterestValues(skip, c.ints[..j]), Unless(skip, c.ints[j]));
  }

  method Interest8Step(c: Tuning, out: array<byte>, i: nat, orig: byte, j: nat, target: Target, ghost s: seq<byte>,
                       ghost skip: byte -> bool)
    requires OnlyAt(out, s, i) && j < |c.ints| && SkipsNear(c, skip, orig)
    modifies out, target
    ensures OnlyAt(out, s, i)
    ensures target.runs == old(target.runs) + Variants(s, i, Unless(skip, c.ints[j]))
  {
    assert SeeSkip(0);
    var v := c.ints[j];
    var skipped := CouldBeFlipOf(orig, v);
    if !skipped {
      skipped := CouldBeArith8(c, orig, v);
    }
    TryUnless(out, i, v, skipped, target, s, skip);
  }

  /** Interesting single bytes, where the effector map has its flag set. */
  method Interest8(c: Tuning, out: array<byte>, eff: seq<bool>, target: Target)
    requires Sound(c) && Covers(eff, out[..])
    modifies out, target
    ensures out[..] == old(out[..])
    ensures target.runs == old(target.runs) + ByteStage(out[..], Interest8Values(c, out[..], eff))
  {
    ghost var s, before := out[..], target.runs;
    RanNothing(before);
    ghost var values := Interest8Values(c, s, eff);
    for i := 0 to out.Length
      invariant out[..] == s
      invariant Ran(target.runs, before, ByteRuns(s, values, i))
    {
      assert values[i] == if eff[i / 8] then InterestValues(NearOf(c, s[i]), c.ints) else [];
      if eff[i / 8] {
        ghost var runs := target.runs;
        Interest8At(c, out, i, target, s, NearOf(c, s[i]));
        RanThen(before, ByteRuns(s, values, i), runs, Variants(s, i, values[i]), target.runs);
      } else {
        NothingTried(s, values, i);
      }
    }
    RanAll(target.runs, before, ByteStage(s, values));
  }
}
