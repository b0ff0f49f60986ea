// afl-tmin: the in-place loops of minimize() and the verdict that drives them.
module Tmin {
  import opened Bytes
  import opened Bits
  import opened Constants
  import opened Bitmap
  import Classify
  import opened Minimizer
  import opened MinimizerStages

  // ------------------------------------------------------------ the verdict of one run

  datatype Execution = Execution(timedOut: bool, signaled: bool, exitCode: nat, trace: seq<byte>)

  // The options, and the target as a deterministic function of its input. No mask is the empty mask.
  datatype Config = Config(
    exec: seq<byte> -> Execution,
    exitCrash: bool,
    exactMode: bool,
    edgesOnly: bool,
    mask: seq<byte>)

  function Crashes(c: Config, e: Execution): bool {
    e.signaled || e.exitCode == MSAN_ERROR || (e.exitCode != 0 && c.exitCrash)
  }

  // The trace as it is fingerprinted: classified, or flattened to hit / not hit, then masked.
  function Footprint(c: Config, trace: seq<byte>): (t: seq<byte>)
    ensures |t| == |trace|
  {
    seq(|trace|, i requires 0 <= i < |trace| =>
      var b := if !c.edgesOnly then CountClass(trace[i]) else if trace[i] != 0 then 1 else 0;
      if i < |c.mask| then AndNot(b, c.mask[i]) else b)
  }

  // What the tool promises to preserve: a candidate with this property behaves like the original.
  ghost predicate SameBehaviour(c: Config, original: seq<byte>, candidate: seq<byte>) {
    var o, e := c.exec(original), c.exec(candidate);
    && !e.timedOut
    && Crashes(c, e) == Crashes(c, o)
    && ((Crashes(c, o) && !c.exactMode) || Footprint(c, e.trace) == Footprint(c, o.trace))
  }

  // ------------------------------------------------------------ what the same behaviour is

  // A byte of a trace leaves nothing: it is zero, or its class, or in edge mode the bit of a hit, is
  // masked.
  ghost predicate Hidden(c: Config, trace: seq<byte>, i: nat)
    requires i < |trace|
  {
    || trace[i] == 0
    || (i < |c.mask| && if c.edgesOnly then c.mask[i] % 2 == 1 else And(CountClass(trace[i]), c.mask[i]) != 0)
  }

  // Two bytes leave the same: nothing both, or something of the same class.
  ghost predicate LeaveSame(c: Config, s: seq<byte>, t: seq<byte>, i: nat)
    requires i < |s| == |t|
  {
    && (Hidden(c, s, i) <==> Hidden(c, t, i))
    && (!Hidden(c, s, i) && !c.edgesOnly ==> Classify.Alike(s[i], t[i]))
  }

  // A single bit is masked whole or not at all.
  lemma BitMasked(a: nat, m: nat)
    requires Pop(a) <= 1
    ensures AndNot(a, m) == if And(a, m) == 0 then a else 0
  {
    AndNotIsRest(a, m);
    PopSplit(a, m);
    PopZero(And(a, m));
    PopZero(AndNot(a, m));
  }

  lemma LowBit(m: nat)
    ensures And(1, m) == m % 2 && And(0, m) == 0 && Pop(0) == 0 && Pop(1) == 1
  {
    assert And(0, m / 2) == 0 && Pop(0) == 0;
  }

  lemma FootprintAt(c: Config, s: seq<byte>, i: nat)
    requires i < |s|
    ensures Footprint(c, s)[i] == if Hidden(c, s, i) then 0 else if c.edgesOnly then 1 else CountClass(s[i])
  {
    Classify.ClassesExactly(s[i], s[i]);
    if i < |c.mask| {
      LowBit(c.mask[i]);
      BitMasked(if !c.edgesOnly then CountClass(s[i]) else if s[i] != 0 then 1 else 0, c.mask[i]);
    }
  }

  lemma FootprintsAlike(c: Config, s: seq<byte>, t: seq<byte>, i: nat)
    requires i < |s| == |t|
    ensures Footprint(c, s)[i] == Footprint(c, t)[i] <==> LeaveSame(c, s, t, i)
  {
    FootprintAt(c, s, i);
    FootprintAt(c, t, i);
    Classify.ClassesExactly(s[i], t[i]);
    ClassOfSome(s[i]);
    ClassOfSome(t[i]);
  }

  lemma ClassOfSome(b: byte)
    ensures CountClass(b) == 0 <==> b == 0
  {
  }

  ghost predicate Dies(c: Config, e: Execution) {
    e.signaled || e.exitCode == 86 || (c.exitCrash && e.exitCode > 0)
  }

  /** A candidate behaves like the original exactly if it does not time out, dies if and only if that
      did, and, unless both die outside exact mode, every byte of its trace leaves the same: nothing,
      being zero or masked, or a hit count of the same class, which edge mode does not look at. */
  lemma BehaviourExactly(c: Config, original: seq<byte>, candidate: seq<byte>)
    ensures SameBehaviour(c, original, candidate) <==>
              var o, e := c.exec(original), c.exec(candidate);
              && !e.timedOut && (Dies(c, e) <==> Dies(c, o))
              && ((Dies(c, o) && !c.exactMode)
                  || (|e.trace| == |o.trace| && forall i: nat | i < |o.trace| :: LeaveSame(c, e.trace, o.trace, i)))
  {
    var s, t := c.exec(candidate).trace, c.exec(original).trace;
    if |s| == |t| {
      forall i: nat | i < |t| ensures Footprint(c, s)[i] == Footprint(c, t)[i] <==> LeaveSame(c, s, t, i) {
        FootprintsAlike(c, s, t, i);
      }
      SameFootprints(c, s, t);
    }
  }

  lemma SameFootprints(c: Config, s: seq<byte>, t: seq<byte>)
    requires |s| == |t|
    requires forall i: nat | i < |t| :: Footprint(c, s)[i] == Footprint(c, t)[i] <==> LeaveSame(c, s, t, i)
    ensures Footprint(c, s) == Footprint(c, t) <==> forall i: nat | i < |t| :: LeaveSame(c, s, t, i)
  {
    if Footprint(c, s) == Footprint(c, t) {
      forall i: nat | i < |t| ensures LeaveSame(c, s, t, i) {
        assert Footprint(c, s)[i] == Footprint(c, t)[i];
      }
    }
  }

  ghost predicate IsVerdict(c: Config, original: seq<byte>, accepts: Oracle) {
    forall s :: accepts(s) <==> SameBehaviour(c, original, s)
  }

  // What run_target() decides about a candidate once the dry run has fixed the mode.
  predicate Judged(c: Config, crashMode: bool, origFootprint: seq<byte>, mem: seq<byte>) {
    var e := c.exec(mem);
    && !e.timedOut
    && (if Crashes(c, e) then crashMode && (!c.exactMode || origFootprint == Footprint(c, e.trace))
        else !crashMode && origFootprint == Footprint(c, e.trace))
  }

  class Target {
    const cfg: Config
    var crashMode: bool
    var origFootprint: seq<byte>
    var missedHangs: nat
    var missedCrashes: nat
    var missedPaths: nat

    constructor (cfg: Config)
      ensures this.cfg == cfg && !crashMode && origFootprint == []
    {
      this.cfg := cfg;
      crashMode, origFootprint := false, [];
      missedHangs, missedCrashes, missedPaths := 0, 0, 0;
    }

    // The verdict of every run after the first, as a function of the candidate.
    function Verdict(): (accepts: Oracle)
      reads this
      ensures forall mem :: accepts(mem) == Judged(cfg, crashMode, origFootprint, mem)
    {
      var c, m, f := cfg, crashMode, origFootprint;
      mem => Judged(c, m, f, mem)
    }

    method Run(mem: seq<byte>, firstRun: bool) returns (keep: bool)
      modifies this
      ensures !firstRun ==> crashMode == old(crashMode) && origFootprint == old(origFootprint)
      ensures !firstRun || cfg.exec(mem).timedOut ==> keep == old(Verdict())(mem)
      ensures firstRun && !old(crashMode) && !cfg.exec(mem).timedOut ==>
                && keep
                && IsVerdict(cfg, mem, Verdict())
                && crashMode == Dies(cfg, cfg.exec(mem))
      ensures var late, dies := cfg.exec(mem).timedOut, Dies(cfg, cfg.exec(mem)) && !crashMode;
              && missedHangs == old(missedHangs) + (if late then 1 else 0)
              && missedCrashes == old(missedCrashes) + (if !late && dies then 1 else 0)
              && missedPaths == old(missedPaths) + (if !late && !dies && !keep then 1 else 0)
    {
      var e := cfg.exec(mem);
      if e.timedOut {
        missedHangs := missedHangs + 1;
        return false;
      }
      if e.signaled || e.exitCode == MSAN_ERROR || (e.exitCode != 0 && cfg.exitCrash) {
        if firstRun {
          crashMode := true;
        }
        if crashMode {
          if !cfg.exactMode {
            return true;
          }
        } else {
          missedCrashes := missedCrashes + 1;
          return false;
        }
      } else if crashMode {
        missedPaths := missedPaths + 1;
        return false;
      }
      var cksum := Footprint(cfg, e.trace);
      if firstRun {
        origFootprint := cksum;
      }
      if origFootprint == cksum {
        return true;
      }
      missedPaths := missedPaths + 1;
      return false;
    }
  }

  // ------------------------------------------------------------ the stages, in place

  // The least power of two that is not below val, and below twice val.
  method NextPowerOfTwo(val: nat) returns (ret: nat)
    ensures ret == NextP2(val) && val <= ret && (exists j: nat :: ret == Pow2(j))
    ensures forall k: nat :: val <= Pow2(k) ==> ret <= Pow2(k)
    ensures val > 1 ==> ret < 2 * val
  {
    ret := 1;
    while val > ret
      invariant ret > 0 && NextP2From(val, ret) == NextP2(val)
      decreases val - ret
    {
      ret := 2 * ret;
    }
    var j := NextP2IsLeast(val, 0);
    forall k: nat | val <= Pow2(k) ensures ret <= Pow2(k) {
      PowersOrdered(j, k);
    }
  }

  ghost function Occurrences(s: seq<byte>): multiset<byte> {
    multiset(s)
  }

  // in_data, in_len and tmp_buf, with the verdict of the runs that follow the dry run.
  class TestCase {
    const accepts: Oracle
    const inData: array<byte>
    const tmpBuf: array<byte>
    var inLen: nat

    ghost predicate Valid()
      reads this
    {
      inLen <= inData.Length == tmpBuf.Length && inData != tmpBuf
    }

    ghost function Input(): seq<byte>
      requires inLen <= inData.Length
      reads this, inData
    {
      inData[..inLen]
    }

    constructor (accepts: Oracle, data: seq<byte>)
      ensures Valid() && Input() == data && this.accepts == accepts
      ensures fresh(inData) && fresh(tmpBuf)
    {
      this.accepts := accepts;
      inData := new byte[|data|](i requires 0 <= i < |data| => data[i]);
      tmpBuf := new byte[|data|](i => 0);
      inLen := |data|;
    }

    // Test the scratch buffer's first len bytes and, if the verdict allows, make them the input.
    method KeepIfAccepted(len: nat, ghost candidate: seq<byte>) returns (keep: bool)
      requires Valid() && len <= inLen && candidate == tmpBuf[..len]
      modifies this`inLen, inData
      ensures Valid() && keep == accepts(candidate)
      ensures Input() == Try(accepts, old(Input()), candidate)
      ensures inLen == if keep then len else old(inLen)
    {
      keep := accepts(tmpBuf[..len]);
      if keep {
        CopyBytes(inData, 0, tmpBuf, 0, len);
        inLen := len;
        assert Input() == candidate;
      }
    }

    // Stage 0, one block: unless it is all '0's already, turn it into '0's if that is accepted.
    method NormalizeBlock(setPos: nat, useLen: nat)
      requires Valid() && setPos + useLen <= inLen
      modifies this`inLen, inData, tmpBuf
      ensures Valid() && BlockZeroTried(accepts, old(Input()), setPos, useLen, Input())
    {
      var blank := IsAllZeroDigits(setPos, useLen);
      if !blank {
        ZeroBlockInCopy(setPos, useLen);
        var _ := KeepIfAccepted(inLen, Zeroed(Input(), setPos, useLen));
      }
    }

    method ZeroBlockInCopy(setPos: nat, useLen: nat)
      requires Valid() && setPos + useLen <= inLen
      modifies tmpBuf
      ensures tmpBuf[..inLen] == Zeroed(Input(), setPos, useLen)
    {
      CopyInput();
      FillBytes(tmpBuf, setPos, ZERO_DIGIT, useLen);
    }

    method IsAllZeroDigits(pos: nat, n: nat) returns (b: bool)
      requires pos + n <= inLen <= inData.Length
      ensures b ==> Zeroed(Input(), pos, n) == Input()
      ensures !b ==> exists k :: pos <= k < pos + n && inData[k] != ZERO_DIGIT
    {
      var i := 0;
      while i < n && inData[pos + i] == ZERO_DIGIT
        invariant 0 <= i <= n
        invariant forall k :: pos <= k < pos + i ==> inData[k] == ZERO_DIGIT
      {
        i := i + 1;
      }
      b := i == n;
    }

    // Stage 0: turn whole blocks into '0's, passing over blocks that already are.
    method NormalizeBlocks()
      requires Valid()
      modifies this`inLen, inData, tmpBuf
      ensures Valid() && Input() == NormalizedBlocks(accepts, old(Input()), 0, SetLen(old(inLen)))
    {
      var setLen := NextPowerOfTwo(inLen / TMIN_SET_STEPS);
      if setLen < TMIN_SET_MIN_SIZE {
        setLen := TMIN_SET_MIN_SIZE;
      }
      ghost var done := NormalizedBlocks(accepts, Input(), 0, setLen);
      NormalizeLoop(setLen, done);
    }

    method NormalizeLoop(setLen: nat, ghost done: seq<byte>)
      requires Valid() && NormalizesTo(accepts, Input(), 0, setLen, done)
      modifies this`inLen, inData, tmpBuf
      ensures Valid() && Input() == done
    {
      var setPos := 0;
      while setPos < inLen
        invariant Valid() && setPos >= 0
        invariant NormalizesTo(accepts, Input(), setPos, setLen, done)
        decreases inLen - setPos
      {
        NormalizeTurn(setPos, setLen, done);
        setPos := setPos + setLen;
      }
      StageEnds(accepts, Input(), setPos, setLen, done);
    }

    method NormalizeTurn(setPos: nat, setLen: nat, ghost done: seq<byte>)
      requires Valid() && setPos < inLen && NormalizesTo(accepts, Input(), setPos, setLen, done)
      modifies this`inLen, inData, tmpBuf
      ensures Valid() && inLen == old(inLen) && NormalizesTo(accepts, Input(), setPos + setLen, setLen, done)
    {
      ghost var before := Input();
      NormalizeBlock(setPos, Min(setLen, inLen - setPos));
      NormalizeStep(accepts, before, setPos, setLen, Input(), done);
    }

    // Stage 1, one block: remove it if that is accepted.
    method DeleteBlock(delPos: nat, delLen: nat) returns (res: bool)
      requires Valid() && delPos < inLen && delLen > 0
      modifies this`inLen, inData, tmpBuf
      ensures Valid() && DeletionTried(accepts, old(Input()), delPos, delLen, Input(), res)
    {
      var tailLen := Max(inLen - delPos - delLen, 0);
      CopyBytes(tmpBuf, 0, inData, 0, delPos);
      CopyBytes(tmpBuf, delPos, inData, Min(delPos + delLen, inLen), tailLen);
      assert tmpBuf[..delPos + tailLen] == Without(Input(), delPos, delLen);
      res := KeepIfAccepted(delPos + tailLen, Without(Input(), delPos, delLen));
    }

    // memcmp() of two blocks of the input.
    method SameBlocks(i: nat, j: nat, n: nat) returns (b: bool)
      requires i + n <= inLen && j + n <= inLen <= inData.Length
      ensures b <==> Input()[i..i + n] == Input()[j..j + n]
    {
      ghost var x, y := Input()[i..i + n], Input()[j..j + n];
      for k := 0 to n
        invariant x[..k] == y[..k]
      {
        assert x[k] == inData[i + k] && y[k] == inData[j + k];
        if inData[i + k] != inData[j + k] {
          return false;
        }
      }
      return true;
    }

    // Stage 1, one block size. A block equal to the one before it is passed over when that one
    // was rejected: removing either leaves the same buffer.
    method DeleteBlocks(delLen: nat) returns (changed: bool)
      requires Valid() && delLen > 0
      modifies this`inLen, inData, tmpBuf
      ensures Valid() && Input() == DeletedBlocks(accepts, old(Input()), 0, delLen)
      ensures changed == (Input() != old(Input()))
    {
      ghost var done := DeletedBlocks(accepts, Input(), 0, delLen);
      changed := DeleteLoop(delLen, done);
    }

    method DeleteLoop(delLen: nat, ghost done: seq<byte>) returns (changed: bool)
      requires Valid() && DeletesTo(accepts, Input(), 0, delLen, done)
      modifies this`inLen, inData, tmpBuf
      ensures Valid() && Input() == done
      ensures changed == (Input() != old(Input()))
    {
      var delPos, prevDel := 0, true;
      changed := false;
      while delPos < inLen
        invariant Valid() && inLen <= old(inLen) && delPos >= 0
        invariant DeletesTo(accepts, Input(), delPos, delLen, done)
        invariant if changed then inLen < old(inLen) else Input() == old(Input())
        invariant !prevDel ==> delLen <= delPos
        invariant !prevDel && delPos <= inLen ==> RejectedAt(accepts, Input(), delPos - delLen, delLen)
        decreases inLen - delPos
      {
        ghost var before := Input();
        var tailLen := Max(inLen - delPos - delLen, 0);
        var repeated := false;
        if !prevDel && tailLen > 0 {
          repeated := SameBlocks(delPos - delLen, delPos, delLen);
        }
        if repeated {
          SkipStep(accepts, before, delPos, delLen, done);
          delPos := delPos + delLen;
        } else {
          prevDel := DeleteBlock(delPos, delLen);
          DeleteStep(accepts, before, delPos, delLen, Input(), prevDel, done);
          if prevDel {
            changed := true;
          } else {
            delPos := delPos + delLen;
          }
        }
      }
      StageEnds(accepts, Input(), delPos, delLen, done);
    }

    // Stage 1.
    method DeleteAll() returns (changed: bool)
      requires Valid()
      modifies this`inLen, inData, tmpBuf
      ensures Valid() && Input() == Deleted(accepts, old(Input()), NextP2(old(inLen) / TRIM_START_STEPS))
      ensures changed == (Input() != old(Input()))
    {
      var delLen := NextPowerOfTwo(inLen / TRIM_START_STEPS);
      ghost var done := Deleted(accepts, Input(), delLen);
      changed := DeleteBlocks(delLen);
      while delLen > 1 && inLen >= 1
        invariant Valid() && delLen > 0
        invariant (if delLen > 1 && inLen >= 1 then Deleted(accepts, Input(), delLen / 2) else Input()) == done
        invariant inLen <= old(inLen)
        invariant if changed then inLen < old(inLen) else Input() == old(Input())
        decreases delLen
      {
        delLen := delLen / 2;
        var c := DeleteBlocks(delLen);
        changed := changed || c;
      }
    }

    // Stage 2, one symbol: recode it if that is accepted.
    method RecodeSymbol(sym: byte) returns (res: bool)
      requires Valid()
      modifies this`inLen, inData, tmpBuf
      ensures Valid() && RecodingTried(accepts, old(Input()), sym, Input(), res)
    {
      CopyBytes(tmpBuf, 0, inData, 0, inLen);
      var r := 0;
      while r < inLen
        invariant 0 <= r <= inLen
        invariant forall k :: 0 <= k < r ==> tmpBuf[k] == if inData[k] == sym then ZERO_DIGIT else inData[k]
        invariant forall k :: r <= k < inLen ==> tmpBuf[k] == inData[k]
        modifies tmpBuf
      {
        if tmpBuf[r] == sym {
          tmpBuf[r] := ZERO_DIGIT;
        }
        r := r + 1;
      }
      assert tmpBuf[..inLen] == Recoded(Input(), sym);
      res := KeepIfAccepted(inLen, Recoded(Input(), sym));
    }

    method CountSymbols() returns (alphaMap: array<nat>)
      requires inLen <= inData.Length
      ensures fresh(alphaMap) && alphaMap.Length == 256
      ensures forall c: byte :: alphaMap[c] == Occurrences(Input())[c]
    {
      alphaMap := new nat[256](i => 0);
      for i := 0 to inLen
        invariant forall c: byte :: alphaMap[c] == Occurrences(inData[..i])[c]
      {
        alphaMap[inData[i]] := alphaMap[inData[i]] + 1;
        assert inData[..i + 1] == inData[..i] + [inData[i]];
      }
    }

    // Stage 2: one symbol at a time, only the symbols that the alphabet map counted. The map is
    // counted once: symbols still to come are where they were, and only '0' can have gained.
    method RecodeSymbols() returns (changed: bool)
      requires Valid()
      modifies this`inLen, inData, tmpBuf
      ensures Valid() && Input() == RecodedSymbols(accepts, old(Input()), 0)
      ensures changed == (Input() != old(Input()))
    {
      ghost var done := RecodedSymbols(accepts, Input(), 0);
      changed := RecodeLoop(done);
    }

    method RecodeLoop(ghost done: seq<byte>) returns (changed: bool)
      requires Valid() && RecodesTo(accepts, Input(), 0, done)
      modifies this`inLen, inData, tmpBuf
      ensures Valid() && Input() == done
      ensures changed == (Input() != old(Input()))
    {
      changed := false;
      var alphaMap := CountSymbols();
      ghost var start := Input();
      for i := 0 to 256
        invariant Valid()
        invariant RecodesTo(accepts, Input(), i, done)
        invariant Untouched(Input(), start, i)
        invariant forall c: byte :: alphaMap[c] == Occurrences(start)[c]
        invariant changed == (Input() != start)
      {
        var sym := i as byte;
        ghost var before := Input();
        var res := false;
        if sym != ZERO_DIGIT && alphaMap[sym] > 0 {
          res := RecodeSymbol(sym);
          changed := changed || res;
        }
        RecodeStep(accepts, before, sym, Input(), res, done, start);
      }
      StageEnds(accepts, Input(), inLen, 0, done);
    }

    // Stage 3, one byte.
    method ZeroChar(i: nat) returns (res: bool)
      requires Valid() && i < inLen && tmpBuf[..inLen] == Input() && inData[i] != ZERO_DIGIT
      modifies this`inLen, inData, tmpBuf
      ensures Valid() && tmpBuf[..inLen] == Input()
      ensures ZeroTried(accepts, old(Input()), i, Input()) && res == (Input() != old(Input()))
    {
      ghost var before := Input();
      var orig := tmpBuf[i];
      tmpBuf[i] := ZERO_DIGIT;
      assert tmpBuf[..inLen] == before[i := ZERO_DIGIT];
      res := accepts(tmpBuf[..inLen]);
      if res {
        inData[i] := ZERO_DIGIT;
        assert Input() == before[i := ZERO_DIGIT] && Input()[i] != before[i];
      } else {
        tmpBuf[i] := orig;
        assert tmpBuf[..inLen] == before;
      }
    }

    method ZeroRound(i: nat, ghost start: seq<byte>, ghost done: seq<byte>) returns (res: bool)
      requires Valid() && i < inLen && tmpBuf[..inLen] == Input()
      requires ZeroesTo(accepts, Input(), i, done) && SameFrom(Input(), start, i)
      modifies this`inLen, inData, tmpBuf
      ensures Valid() && inLen == old(inLen) && tmpBuf[..inLen] == Input()
      ensures ZeroesTo(accepts, Input(), i + 1, done) && SameFrom(Input(), start, i + 1)
      ensures if res then Input() != start else Input() == old(Input())
    {
      ghost var before := Input();
      assert tmpBuf[i] == before[i];
      res := false;
      if tmpBuf[i] != ZERO_DIGIT {
        res := ZeroChar(i);
      }
      ZeroStep(accepts, before, i, Input(), done, start);
    }

    // Stage 3: one byte at a time, passing over '0's; the scratch buffer follows the input.
    method ZeroChars() returns (changed: bool)
      requires Valid()
      modifies this`inLen, inData, tmpBuf
      ensures Valid() && Input() == ZeroedChars(accepts, old(Input()), 0)
      ensures changed == (Input() != old(Input()))
    {
      ghost var done := ZeroedChars(accepts, Input(), 0);
      changed := ZeroLoop(done);
    }

    method ZeroLoop(ghost done: seq<byte>) returns (changed: bool)
      requires Valid() && ZeroesTo(accepts, Input(), 0, done)
      modifies this`inLen, inData, tmpBuf
      ensures Valid() && Input() == done
      ensures changed == (Input() != old(Input()))
    {
      CopyInput();
      changed := ZeroEach(done);
    }

    method CopyInput()
      requires Valid()
      modifies tmpBuf
      ensures tmpBuf[..inLen] == Input()
    {
      CopyBytes(tmpBuf, 0, inData, 0, inLen);
    }

    method ZeroEach(ghost done: seq<byte>) returns (changed: bool)
      requires Valid() && tmpBuf[..inLen] == Input() && ZeroesTo(accepts, Input(), 0, done)
      modifies this`inLen, inData, tmpBuf
      ensures Valid() && Input() == done
      ensures changed == (Input() != old(Input()))
    {
      changed := false;
      ghost var start := Input();
      for i := 0 to inLen
        invariant Valid() && tmpBuf[..inLen] == Input()
        invariant ZeroesTo(accepts, Input(), i, done) && SameFrom(Input(), start, i)
        invariant changed == (Input() != start)
      {
        var res := ZeroRound(i, start, done);
        changed := changed || res;
      }
      StageEnds(accepts, Input(), inLen, 0, done);
    }

    // The pass loop.
    method Minimize()
      requires Valid()
      modifies this`inLen, inData, tmpBuf
      ensures Valid() && Input() == Minimized(accepts, old(Input()))
    {
      ghost var done := Minimized(accepts, Input());
      NormalizeBlocks();
      var curPass := 0;
      while true
        invariant Valid()
        invariant Passes(accepts, Input(), curPass == 0) == done
        decreases Weight(Input())
      {
        ghost var before := Input();
        PassSimplifies(accepts, before);
        ghost var deleted := Deleted(accepts, before, NextP2(|before| / TRIM_START_STEPS));
        UnchangedPass(accepts, before, deleted, RecodedSymbols(accepts, deleted, 0));
        curPass := curPass + 1;
        var changedAny := DeleteAll();
        if curPass > 1 && !changedAny {
          return;
        }
        var c := RecodeSymbols();
        changedAny := changedAny || c;
        c := ZeroChars();
        changedAny := changedAny || c;
        if !changedAny {
          return;
        }
      }
    }
  }

  // ------------------------------------------------------------ the tool

  datatype Outcome = TimesOut | NoInstrumentation | Written(output: seq<byte>)

  ghost predicate Blank(trace: seq<byte>) {
    forall i :: 0 <= i < |trace| ==> trace[i] == 0
  }

  // The test for instrumentation sees nothing exactly if every byte of the trace leaves nothing.
  lemma BlankExactly(c: Config, trace: seq<byte>)
    ensures Blank(Footprint(c, trace)) <==> forall i: nat | i < |trace| :: Hidden(c, trace, i)
  {
    forall i: nat | i < |trace| ensures Footprint(c, trace)[i] == 0 <==> Hidden(c, trace, i) {
      FootprintAt(c, trace, i);
      ClassOfSome(trace[i]);
    }
  }

  // No byte can be removed without changing the behaviour.
  ghost predicate IrreducibleFor(c: Config, original: seq<byte>, s: seq<byte>) {
    forall p :: 0 <= p < |s| ==> !SameBehaviour(c, original, s[..p] + s[p + 1..])
  }

  lemma VerdictCarriesOver(c: Config, original: seq<byte>, accepts: Oracle)
    requires IsVerdict(c, original, accepts) && !c.exec(original).timedOut
    ensures SameBehaviour(c, original, Minimized(accepts, original))
    ensures Embeds(Minimized(accepts, original), original)
    ensures IrreducibleFor(c, original, Minimized(accepts, original))
  {
    MinimizedCorrect(accepts, original);
    var t := Minimized(accepts, original);
    forall p | 0 <= p < |t|
      ensures !SameBehaviour(c, original, t[..p] + t[p + 1..])
    {
      assert !accepts(t[..p] + t[p + 1..]);
    }
  }

  // The dry run and the minimization that main() makes of it.
  method MinimizeFile(cfg: Config, input: seq<byte>) returns (r: Outcome)
    ensures r.TimesOut? <==> cfg.exec(input).timedOut
    ensures r.NoInstrumentation? <==>
              var e := cfg.exec(input);
              !e.timedOut && !Dies(cfg, e) && forall i: nat | i < |e.trace| :: Hidden(cfg, e.trace, i)
    ensures r.Written? ==>
              && SameBehaviour(cfg, input, r.output)
              && Embeds(r.output, input)
              && IrreducibleFor(cfg, input, r.output)
              && (exists accepts: Oracle :: IsVerdict(cfg, input, accepts) && r.output == Minimized(accepts, input))
  {
    var target := new Target(cfg);
    var keep := target.Run(input, true);
    var e := cfg.exec(input);
    if e.timedOut {
      return TimesOut;
    }
    BlankExactly(cfg, e.trace);
    if !target.crashMode {
      var anything := AnythingSet(Footprint(cfg, e.trace));
      if !anything {
        return NoInstrumentation;
      }
    }
    var accepts := target.Verdict();
    var test := new TestCase(accepts, input);
    test.Minimize();
    VerdictCarriesOver(cfg, input, accepts);
    r := Written(test.inData[..test.inLen]);
  }

  method AnythingSet(trace: seq<byte>) returns (b: bool)
    ensures b <==> !Blank(trace)
  {
    for i := 0 to |trace|
      invariant forall k :: 0 <= k < i ==> trace[k] == 0
    {
      if trace[i] != 0 {
        return true;
      }
    }
    return false;
  }
}
