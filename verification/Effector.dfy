/** The byte flips, and the map they leave of the blocks worth further work. */
module Effector {
  import opened Bytes
  import opened Flips
  import opened Deterministic
  import opened WalkingFlips
  import opened Stages
  import opened WordFlips
  import opened WordArith
  import opened Counting

  const EFF_MAX_PERC := 90

  function EffAlen(len: nat): nat {
    len / 8 + if len % 8 != 0 then 1 else 0
  }

  /** The blocks flagged once the first `k` bytes were flipped: the first and the last one,
      and those with a byte whose flip changed the path, or all if no path is compared. */
  ghost function Flagged(s: seq<byte>, changes: seq<byte> -> bool, always: bool, k: nat): set<nat>
    requires k <= |s| && s != []
  {
    if k == 0 then {0, (|s| - 1) / 8}
    else
      Flagged(s, changes, always, k - 1)
      + if always || changes(s[k - 1 := XorByte(s[k - 1], 255)]) then {(k - 1) / 8} else {}
  }

  /** So many flags that the rest is not worth skipping. */
  predicate Dense(flags: nat, alen: nat)
    requires alen > 0
  {
    flags * 100 / alen > EFF_MAX_PERC
  }

  ghost predicate IsEffMap(eff: seq<bool>, s: seq<byte>, changes: seq<byte> -> bool, always: bool) {
    s != [] && |eff| == EffAlen(|s|) &&
    var flagged := Flagged(s, changes, always, |s|);
    forall j | 0 <= j < |eff| :: eff[j] <==> j in flagged || Dense(|flagged|, |eff|)
  }

  /** A byte is left out of the later stages only if neither its flip nor that of any other
      byte of its block changed the path. */
  lemma {:induction false} NothingEffectiveSkipped(s: seq<byte>, changes: seq<byte> -> bool, always: bool, k: nat,
                                                   i: nat)
    requires i < k <= |s| && (always || changes(s[i := XorByte(s[i], 255)]))
    ensures i / 8 in Flagged(s, changes, always, k)
  {
    if i < k - 1 {
      NothingEffectiveSkipped(s, changes, always, k - 1, i);
    }
  }

  /** A byte of block j whose flip changes the path, or the block is the first or the last one. */
  ghost predicate Wanted(s: seq<byte>, changes: seq<byte> -> bool, always: bool, j: nat) {
    s != [] && (always || j == 0 || j == (|s| - 1) / 8 || ChangesIn(s, changes, j))
  }

  ghost predicate ChangesIn(s: seq<byte>, changes: seq<byte> -> bool, j: nat) {
    exists i: nat | i < |s| && i / 8 == j :: changes(s[i := 255 - s[i]])
  }

  ghost function WantedBlocks(s: seq<byte>, changes: seq<byte> -> bool, always: bool, alen: nat): set<nat> {
    set j: nat | j < alen && Wanted(s, changes, always, j)
  }

  lemma {:induction false} FlaggedHas(s: seq<byte>, changes: seq<byte> -> bool, always: bool, k: nat, j: nat)
    requires k <= |s| && s != []
    ensures j in Flagged(s, changes, always, k) <==>
              || j == 0 || j == (|s| - 1) / 8
              || exists i: nat | i < k && i / 8 == j :: always || changes(s[i := 255 - s[i]])
  {
    if k > 0 {
      FlaggedHas(s, changes, always, k - 1, j);
      ByteFlipped(s[k - 1]);
    }
  }

  lemma FlaggedIsWanted(s: seq<byte>, changes: seq<byte> -> bool, always: bool)
    requires s != []
    ensures Flagged(s, changes, always, |s|) == WantedBlocks(s, changes, always, EffAlen(|s|))
  {
    FlagsInRange(s, changes, always, |s|);
    forall j: nat | true
      ensures j in Flagged(s, changes, always, |s|) <==> j < EffAlen(|s|) && Wanted(s, changes, always, j)
    {
      FlaggedHas(s, changes, always, |s|, j);
      if always && j < EffAlen(|s|) {
        assert 8 * j < |s| && 8 * j / 8 == j;
      }
    }
  }

  /** The bytes left out are exactly those of a block other than the first and the last one in which
      no flip of a whole byte changes the path, as long as paths are compared and no more than ninety
      percent of the blocks, one for every eight bytes, are wanted. */
  lemma SkippedExactly(eff: seq<bool>, s: seq<byte>, changes: seq<byte> -> bool, always: bool, i: nat)
    requires IsEffMap(eff, s, changes, always) && i < |s|
    ensures 8 * |eff| - 8 < |s| <= 8 * |eff|
    ensures !eff[i / 8] <==>
              && !always && i / 8 != 0 && i / 8 != (|s| - 1) / 8
              && (forall k: nat | k < |s| && k / 8 == i / 8 :: !changes(s[k := 255 - s[k]]))
              && |WantedBlocks(s, changes, always, |eff|)| * 100 / |eff| <= 90
  {
    FlaggedIsWanted(s, changes, always);
  }

  lemma {:induction false} FlagsInRange(s: seq<byte>, changes: seq<byte> -> bool, always: bool, k: nat)
    requires s != [] && k <= |s|
    ensures forall j <- Flagged(s, changes, always, k) :: j < EffAlen(|s|)
  {
    if k > 0 {
      FlagsInRange(s, changes, always, k - 1);
    }
  }

  /** The map and its count after `k` bytes, kept folded. */
  ghost predicate Tracks(effMap: array<bool>, effCnt: nat, s: seq<byte>, changes: seq<byte> -> bool, always: bool,
                         k: nat)
    requires k <= |s| && s != []
    reads effMap
  {
    forall x | SeeRuns(x) ::
      effMap.Length == EffAlen(|s|) && Mirrors(effMap[..], effCnt, Flagged(s, changes, always, k))
  }

  ghost predicate Mirrors(m: seq<bool>, n: nat, flags: set<nat>) {
    n == |flags| && forall j: nat | j < |m| :: m[j] <==> j in flags
  }

  lemma MirrorsMore(m: seq<bool>, n: nat, flags: set<nat>, b: nat)
    requires Mirrors(m, n, flags) && b < |m|
    ensures m[b] ==> flags + {b} == flags
    ensures !m[b] ==> Mirrors(m[b := true], n + 1, flags + {b})
  {
  }

  lemma FlaggedNext(s: seq<byte>, changes: seq<byte> -> bool, always: bool, k: nat)
    requires k < |s|
    ensures Flagged(s, changes, always, k + 1)
         == if always || changes(s[k := XorByte(s[k], 255)]) then Flagged(s, changes, always, k) + {k / 8}
            else Flagged(s, changes, always, k)
  {
  }

  method NewMap(len: nat, changes: seq<byte> -> bool, always: bool, ghost s: seq<byte>)
      returns (effMap: array<bool>, effCnt: nat)
    requires len == |s| > 0
    ensures fresh(effMap) && Tracks(effMap, effCnt, s, changes, always, 0)
  {
    effMap := new bool[EffAlen(len)](_ => false);
    effMap[0] := true;
    effCnt := 1;
    if (len - 1) / 8 != 0 {
      effMap[(len - 1) / 8] := true;
      effCnt := effCnt + 1;
    }
  }

  method Flip8(out: array<byte>, target: Target, changes: seq<byte> -> bool, always: bool) returns (eff: seq<bool>)
    requires out.Length > 0
    modifies out, target
    ensures out[..] == old(out[..])
    ensures target.runs == old(target.runs) + ByteStage(out[..], Flip8Values(out[..]))
    ensures IsEffMap(eff, out[..], changes, always)
  {
    ghost var s := out[..];
    var effMap, effCnt := NewMap(out.Length, changes, always, s);
    effCnt := Flip8All(out, target, changes, always, effMap, effCnt, s);
    eff := EffOf(effMap, effCnt, s, changes, always);
  }

  method EffOf(effMap: array<bool>, effCnt: nat, ghost s: seq<byte>, ghost changes: seq<byte> -> bool,
               ghost always: bool)
      returns (eff: seq<bool>)
    requires s != [] && Tracks(effMap, effCnt, s, changes, always, |s|)
    ensures IsEffMap(eff, s, changes, always)
  {
    assert SeeRuns(0);
    FlagsInRange(s, changes, always, |s|);
    if effCnt != effMap.Length && Dense(effCnt, effMap.Length) {
      eff := seq(effMap.Length, _ => true);
    } else {
      eff := effMap[..];
      if Dense(effCnt, effMap.Length) {
        AllFlagged(Flagged(s, changes, always, |s|), effMap.Length);
      }
    }
  }

  lemma {:induction false} AllFlagged(flags: set<nat>, n: nat)
    requires |flags| == n && forall j <- flags :: j < n
    ensures forall j: nat | j < n :: j in flags
  {
    if j: nat :| j < n && j !in flags {
      BoundedSize(flags + {j}, n);
    }
  }

  method Flip8All(out: array<byte>, target: Target, changes: seq<byte> -> bool, always: bool,
                  effMap: array<bool>, flags: nat, ghost s: seq<byte>) returns (effCnt: nat)
    requires out.Length > 0 && out[..] == s && Tracks(effMap, flags, s, changes, always, 0)
    modifies out, target, effMap
    ensures out[..] == s
    ensures target.runs == old(target.runs) + ByteStage(s, Flip8Values(s))
    ensures Tracks(effMap, effCnt, s, changes, always, |s|)
  {
    ghost var before := target.runs;
    effCnt := flags;
    RanNothing(before);
    for i := 0 to out.Length
      invariant out[..] == s
      invariant Ran(target.runs, before, ByteRuns(s, Flip8Values(s), i))
      invariant Tracks(effMap, effCnt, s, changes, always, i)
    {
      effCnt := Flip8Round(out, i, target, changes, always, effMap, effCnt, s, before);
    }
    RanAll(target.runs, before, ByteStage(s, Flip8Values(s)));
  }

  method Flip8Round(out: array<byte>, i: nat, target: Target, changes: seq<byte> -> bool, always: bool,
                    effMap: array<bool>, flags: nat, ghost s: seq<byte>, ghost before: seq<seq<byte>>)
      returns (effCnt: nat)
    requires i < out.Length && out[..] == s && Tracks(effMap, flags, s, changes, always, i)
    requires Ran(target.runs, before, ByteRuns(s, Flip8Values(s), i))
    modifies out, target, effMap
    ensures out[..] == s
    ensures Ran(target.runs, before, ByteRuns(s, Flip8Values(s), i + 1))
    ensures Tracks(effMap, effCnt, s, changes, always, i + 1)
  {
    ghost var runs := target.runs;
    ghost var values := Flip8Values(s);
    FlipByte(out, i, target, s);
    RanThen(before, ByteRuns(s, values, i), runs, Variants(s, i, values[i]), target.runs);
    effCnt := Note(out, i, changes, always, effMap, flags, s);
    Unflip(out, i, s);
  }

  method Note(out: array<byte>, i: nat, changes: seq<byte> -> bool, always: bool,
              effMap: array<bool>, flags: nat, ghost s: seq<byte>) returns (effCnt: nat)
    requires FlippedAt(out, i, s) && Tracks(effMap, flags, s, changes, always, i)
    modifies effMap
    ensures Tracks(effMap, effCnt, s, changes, always, i + 1)
    ensures FlippedAt(out, i, s)
  {
    effCnt := flags;
    BlockExists(effMap, effCnt, s, changes, always, i);
    if !effMap[i / 8] && (always || changes(out[..])) {
      effCnt := Raise(effMap, flags, s, changes, always, i);
    } else {
      NothingRaised(effMap, flags, s, changes, always, i);
    }
  }

  lemma BlockExists(effMap: array<bool>, effCnt: nat, s: seq<byte>, changes: seq<byte> -> bool, always: bool, i: nat)
    requires i < |s| && Tracks(effMap, effCnt, s, changes, always, i)
    ensures i / 8 < effMap.Length
  {
    assert SeeRuns(0);
  }

  method Raise(effMap: array<bool>, flags: nat, ghost s: seq<byte>, ghost changes: seq<byte> -> bool,
               ghost always: bool, i: nat)
      returns (effCnt: nat)
    requires i < |s| && Tracks(effMap, flags, s, changes, always, i) && i / 8 < effMap.Length
    requires !effMap[i / 8] && (always || changes(s[i := XorByte(s[i], 255)]))
    modifies effMap
    ensures Tracks(effMap, effCnt, s, changes, always, i + 1)
  {
    assert SeeRuns(0);
    ghost var m, was := effMap[..], Flagged(s, changes, always, i);
    MirrorsMore(m, flags, was, i / 8);
    FlaggedNext(s, changes, always, i);
    effMap[i / 8] := true;
    effCnt := flags + 1;
    assert effMap[..] == m[i / 8 := true];
  }

  lemma NothingRaised(effMap: array<bool>, flags: nat, s: seq<byte>, changes: seq<byte> -> bool, always: bool, i: nat)
    requires i < |s| && Tracks(effMap, flags, s, changes, always, i) && i / 8 < effMap.Length
    requires effMap[i / 8] || !(always || changes(s[i := XorByte(s[i], 255)]))
    ensures Tracks(effMap, flags, s, changes, always, i + 1)
  {
    assert SeeRuns(0);
    MirrorsMore(effMap[..], flags, Flagged(s, changes, always, i), i / 8);
    FlaggedNext(s, changes, always, i);
  }

  /** One byte with all its bits flipped. */
  ghost predicate FlippedAt(out: array<byte>, i: nat, s: seq<byte>)
    reads out
  {
    i < |s| && out[..] == s[i := XorByte(s[i], 255)]
  }

  method FlipByte(out: array<byte>, i: nat, target: Target, ghost s: seq<byte>)
    requires i < out.Length && out[..] == s
    modifies out, target
    ensures FlippedAt(out, i, s)
    ensures Ran(target.runs, old(target.runs), Variants(s, i, Flip8Values(s)[i]))
  {
    XorBound(out[i], 255, 8);
    XorByteIs(out[i], 255);
    out[i] := Xor(out[i], 255);
    assert out[..] == s[i := XorByte(s[i], 255)];
    target.Run(out);
    OneVariant(s, i, XorByte(s[i], 255));
  }

  method Unflip(out: array<byte>, i: nat, ghost s: seq<byte>)
    requires FlippedAt(out, i, s)
    modifies out
    ensures out[..] == s
  {
    assert out[i] == XorByte(s[i], 255);
    ByteAssoc(s[i], 255, 255);
    ByteSame(255);
    ByteSame(s[i]);
    XorBound(out[i], 255, 8);
    XorByteIs(out[i], 255);
    out[i] := Xor(out[i], 255);
    assert out[..] == s;
  }

  /** The flips of bits and bytes, which leave the effector map. */
  method BitAndByteFlips(out: array<byte>, target: Target, changes: seq<byte> -> bool, always: bool)
      returns (eff: seq<bool>)
    requires out.Length > 0
    modifies out, target
    ensures out[..] == old(out[..])
    ensures IsEffMap(eff, out[..], changes, always) && Covers(eff, out[..])
    ensures Ran(target.runs, old(target.runs), AllFlips(out[..]))
  {
    ghost var s, before := out[..], target.runs;
    RanNothing(before);
    RanMore(target.runs, before, [], FlipStage(s, 1));
    WalkBits(out, 1, target);
    RanMore(target.runs, before, [] + FlipStage(s, 1), FlipStage(s, 2));
    WalkBits(out, 2, target);
    RanMore(target.runs, before, [] + FlipStage(s, 1) + FlipStage(s, 2), FlipStage(s, 4));
    WalkBits(out, 4, target);
    RanMore(target.runs, before, [] + FlipStage(s, 1) + FlipStage(s, 2) + FlipStage(s, 4),
            ByteStage(s, Flip8Values(s)));
    eff := Flip8(out, target, changes, always);
    assert [] + FlipStage(s, 1) == FlipStage(s, 1);
  }

  method TryArith(c: Tuning, out: array<byte>, eff: seq<bool>, target: Target, noArith: bool)
    requires Sound(c) && Covers(eff, out[..])
    modifies out, target
    ensures out[..] == old(out[..])
    ensures Ran(target.runs, old(target.runs),
                if noArith then [] else ByteStage(out[..], Arith8Values(c, out[..], eff)))
  {
    if !noArith {
      Arith8(c, out, eff, target);
    }
  }

  method TryInterest(c: Tuning, out: array<byte>, eff: seq<bool>, target: Target)
    requires Sound(c) && Covers(eff, out[..])
    modifies out, target
    ensures out[..] == old(out[..])
    ensures Ran(target.runs, old(target.runs), ByteStage(out[..], Interest8Values(c, out[..], eff)))
  {
    Interest8(c, out, eff, target);
  }

  /** All byte-sized stages one after the other: between them they leave the buffer alone. */
  method ByteStages(c: Tuning, out: array<byte>, target: Target, changes: seq<byte> -> bool, always: bool,
                    noArith: bool)
      returns (eff: seq<bool>)
    requires Sound(c) && out.Length > 0
    modifies out, target
    ensures out[..] == old(out[..])
    ensures IsEffMap(eff, out[..], changes, always) && Covers(eff, out[..])
    ensures target.runs == old(target.runs) + AllRuns(c, out[..], eff, !noArith)
  {
    ghost var s, before := out[..], target.runs;
    eff := BitAndByteFlips(out, target, changes, always);
    ghost var flipped := target.runs;
    TryArith(c, out, eff, target, noArith);
    ghost var arith := if noArith then [] else ByteStage(s, Arith8Values(c, s, eff));
    RanThen(before, AllFlips(s), flipped, arith, target.runs);
    ghost var adjusted := target.runs;
    TryInterest(c, out, eff, target);
    RanThen(before, AllFlips(s) + arith, adjusted, ByteStage(s, Interest8Values(c, s, eff)), target.runs);
    RanAll(target.runs, before, AllRuns(c, s, eff, !noArith));
  }

  /** The flips of bits, bytes and words one after the other make exactly the runs that the
      filter for flips is measured against. */
  method FlipStages(out: array<byte>, target: Target, changes: seq<byte> -> bool, always: bool) returns (eff: seq<bool>)
    requires out.Length > 0
    modifies out, target
    ensures out[..] == old(out[..])
    ensures IsEffMap(eff, out[..], changes, always) && Covers(eff, out[..])
    ensures target.runs == old(target.runs) + EveryFlip(out[..], eff)
  {
    ghost var s, before := out[..], target.runs;
    eff := BitAndByteFlips(out, target, changes, always);
    RanMore(target.runs, before, AllFlips(s), BlockStage(s, eff, 2));
    WalkBlocks(out, eff, 2, target);
    RanMore(target.runs, before, AllFlips(s) + BlockStage(s, eff, 2), BlockStage(s, eff, 4));
    WalkBlocks(out, eff, 4, target);
    RanAll(target.runs, before, EveryFlip(s, eff));
  }

  /** All flips and all arithmetic, in their order, make exactly the runs that the candidates of the
      arithmetic on words are looked for in. */
  method FlipAndArithStages(c: Tuning, out: array<byte>, target: Target, changes: seq<byte> -> bool, always: bool)
      returns (eff: seq<bool>)
    requires Sound(c) && out.Length > 0
    modifies out, target
    ensures out[..] == old(out[..])
    ensures IsEffMap(eff, out[..], changes, always) && Covers(eff, out[..])
    ensures target.runs == old(target.runs) + Through32(c, out[..], eff)
  {
    ghost var s, before := out[..], target.runs;
    RanNothing(before);
    eff := FlipStages(out, target, changes, always);
    ghost var flips, bytes := EveryFlip(s, eff), ByteStage(s, Arith8Values(c, s, eff));
    ghost var words, longs := ArithStage(s, eff, 2, c.arithMax), ArithStage(s, eff, 4, c.arithMax);
    assert [] + flips == flips;
    RanMore(before, before, [], flips);
    RanMore(target.runs, before, flips, bytes);
    Arith8(c, out, eff, target);
    RanMore(target.runs, before, flips + bytes, words);
    ArithWords(out, eff, 2, c.arithMax, target);
    RanMore(target.runs, before, flips + bytes + words, longs);
    ArithWords(out, eff, 4, c.arithMax, target);
    RanAll(target.runs, before, Through32(c, s, eff));
  }
}
