/** The four stages of the test case minimizer.

    Each stage has a plain recursive specification that tries every candidate. The methods of
    Tmin are the code's own loops, with its short cuts (the "same as the previous rejected
    block" skip, the all-'0' block skip, the alphabet map), and are proved to leave exactly the
    buffer that the plain form leaves; the steps of these proofs are here. */
module MinimizerStages {
  import opened Bytes
  import opened Bits

  const TRIM_START_STEPS: nat := 16
  const TMIN_SET_STEPS: nat := 128
  const TMIN_SET_MIN_SIZE: nat := 4

  // The verdict of one run: keep this candidate or not. The target is deterministic.
  type Oracle = seq<byte> -> bool

  // ------------------------------------------------------------ candidates

  function Without(s: seq<byte>, pos: nat, n: nat): seq<byte>
    requires pos <= |s|
  {
    s[..pos] + s[Min(pos + n, |s|)..]
  }

  function ZeroDigits(n: nat): (s: seq<byte>)
    ensures |s| == n && forall i :: 0 <= i < n ==> s[i] == ZERO_DIGIT
  {
    if n == 0 then [] else [ZERO_DIGIT] + ZeroDigits(n - 1)
  }

  function Zeroed(s: seq<byte>, pos: nat, n: nat): (t: seq<byte>)
    requires pos + n <= |s|
    ensures |t| == |s|
  {
    s[..pos] + ZeroDigits(n) + s[pos + n..]
  }

  function Recoded(s: seq<byte>, sym: byte): (t: seq<byte>)
    ensures |t| == |s|
    ensures forall i :: 0 <= i < |s| ==> t[i] == if s[i] == sym then ZERO_DIGIT else s[i]
  {
    if |s| == 0 then [] else [if s[0] == sym then ZERO_DIGIT else s[0]] + Recoded(s[1..], sym)
  }

  function Try(accepts: Oracle, s: seq<byte>, candidate: seq<byte>): seq<byte> {
    if accepts(candidate) then candidate else s
  }

  // ------------------------------------------------------------ plain stages

  function NormalizedBlocks(accepts: Oracle, s: seq<byte>, pos: nat, setLen: nat): (t: seq<byte>)
    requires setLen > 0
    ensures |t| == |s|
    decreases |s| - pos
  {
    if pos >= |s| then s
    else
      NormalizedBlocks(accepts, Try(accepts, s, Zeroed(s, pos, Min(setLen, |s| - pos))), pos + setLen, setLen)
  }

  // One sweep over the buffer with one block size, testing every block.
  function DeletedBlocks(accepts: Oracle, s: seq<byte>, pos: nat, delLen: nat): (t: seq<byte>)
    requires delLen > 0
    ensures |t| <= |s| && (|t| == |s| ==> t == s)
    decreases |s| - pos
  {
    if pos >= |s| then s
    else if accepts(Without(s, pos, delLen)) then DeletedBlocks(accepts, Without(s, pos, delLen), pos, delLen)
    else DeletedBlocks(accepts, s, pos + delLen, delLen)
  }

  // Sweeps with delLen, delLen / 2, ..., 1, ending early only on an empty buffer.
  function Deleted(accepts: Oracle, s: seq<byte>, delLen: nat): (t: seq<byte>)
    requires delLen > 0
    ensures |t| <= |s| && (|t| == |s| ==> t == s)
    decreases delLen
  {
    var t := DeletedBlocks(accepts, s, 0, delLen);
    if delLen > 1 && |t| >= 1 then Deleted(accepts, t, delLen / 2) else t
  }

  // Every byte value in turn, whether or not the buffer holds it.
  function RecodedSymbols(accepts: Oracle, s: seq<byte>, sym: nat): (t: seq<byte>)
    requires sym <= 256
    ensures |t| == |s|
    decreases 256 - sym
  {
    if sym == 256 then s
    else RecodedSymbols(accepts, Try(accepts, s, Recoded(s, sym as byte)), sym + 1)
  }

  function ZeroedChars(accepts: Oracle, s: seq<byte>, pos: nat): (t: seq<byte>)
    ensures |t| == |s|
    decreases |s| - pos
  {
    if pos >= |s| then s
    else ZeroedChars(accepts, Try(accepts, s, s[pos := ZERO_DIGIT]), pos + 1)
  }

  // Least power of two not below val.
  function NextP2From(val: nat, p: nat): (r: nat)
    requires p > 0
    ensures r >= val && r >= p
    decreases val - p
  {
    if val > p then NextP2From(val, 2 * p) else p
  }

  function NextP2(val: nat): (r: nat)
    ensures r >= val && r >= 1
  {
    NextP2From(val, 1)
  }

  // The search from 2^i on ends at a power of two whose predecessor is too small.
  lemma {:induction false} NextP2IsLeast(val: nat, i: nat) returns (j: nat)
    requires i == 0 || Pow2(i - 1) < val
    ensures NextP2From(val, Pow2(i)) == Pow2(j) && (j == 0 || Pow2(j - 1) < val)
    decreases val - Pow2(i)
  {
    if val > Pow2(i) {
      assert Pow2(i + 1) == 2 * Pow2(i);
      j := NextP2IsLeast(val, i + 1);
    } else {
      j := i;
    }
  }

  lemma {:induction false} PowersOrdered(j: nat, k: nat)
    ensures j <= k ==> Pow2(j) <= Pow2(k)
    ensures k < j ==> Pow2(k) <= Pow2(j - 1)
  {
    if j < k {
      PowersOrdered(j, k - 1);
    } else if k < j {
      PowersOrdered(j - 1, k);
    }
  }

  function Pass(accepts: Oracle, s: seq<byte>): seq<byte> {
    ZeroedChars(accepts, RecodedSymbols(accepts, Deleted(accepts, s, NextP2(|s| / TRIM_START_STEPS)), 0), 0)
  }

  // ------------------------------------------------------------ the stages seen from a loop

  // Where a loop over a buffer stands with respect to the plain stage. The loops carry these as
  // invariants; Peek keeps the recursive definitions out of their proofs, and only the step lemmas
  // below look inside.

  ghost predicate Peek(k: int) { true }

  // What is still to be done to s, from pos on, leads to done.
  ghost predicate NormalizesTo(accepts: Oracle, s: seq<byte>, pos: nat, setLen: nat, done: seq<byte>) {
    setLen > 0 && forall k | Peek(k) :: NormalizedBlocks(accepts, s, pos, setLen) == done
  }

  ghost predicate DeletesTo(accepts: Oracle, s: seq<byte>, pos: nat, delLen: nat, done: seq<byte>) {
    delLen > 0 && forall k | Peek(k) :: DeletedBlocks(accepts, s, pos, delLen) == done
  }

  ghost predicate RecodesTo(accepts: Oracle, s: seq<byte>, sym: nat, done: seq<byte>) {
    sym <= 256 && forall k | Peek(k) :: RecodedSymbols(accepts, s, sym) == done
  }

  ghost predicate ZeroesTo(accepts: Oracle, s: seq<byte>, pos: nat, done: seq<byte>) {
    forall k | Peek(k) :: ZeroedChars(accepts, s, pos) == done
  }

  // t is s after one candidate has been tried; keep is the verdict.
  ghost predicate BlockZeroTried(accepts: Oracle, s: seq<byte>, pos: nat, n: nat, t: seq<byte>) {
    pos + n <= |s| == |t| && forall k | Peek(k) :: t == Try(accepts, s, Zeroed(s, pos, n))
  }

  ghost predicate DeletionTried(accepts: Oracle, s: seq<byte>, pos: nat, n: nat, t: seq<byte>, keep: bool) {
    && pos < |s|
    && (if keep then |t| < |s| else t == s)
    && forall k | Peek(k) :: keep == accepts(Without(s, pos, n)) && t == Try(accepts, s, Without(s, pos, n))
  }

  ghost predicate RecodingTried(accepts: Oracle, s: seq<byte>, sym: byte, t: seq<byte>, keep: bool) {
    && (!keep ==> t == s)
    && forall k | Peek(k) :: keep == accepts(Recoded(s, sym)) && t == Try(accepts, s, Recoded(s, sym))
  }

  ghost predicate ZeroTried(accepts: Oracle, s: seq<byte>, pos: nat, t: seq<byte>) {
    pos < |s| == |t| && forall k | Peek(k) :: t == Try(accepts, s, s[pos := ZERO_DIGIT])
  }

  // The block at pos has been tried on this very buffer, and rejected.
  ghost predicate RejectedAt(accepts: Oracle, s: seq<byte>, pos: nat, n: nat) {
    pos <= |s| && forall k | Peek(k) :: !accepts(Without(s, pos, n))
  }

  lemma NormalizeStep(accepts: Oracle, s: seq<byte>, pos: nat, setLen: nat, t: seq<byte>, done: seq<byte>)
    requires pos < |s| && NormalizesTo(accepts, s, pos, setLen, done)
    requires BlockZeroTried(accepts, s, pos, Min(setLen, |s| - pos), t)
    ensures NormalizesTo(accepts, t, pos + setLen, setLen, done)
  {
    assert Peek(0);
  }

  lemma DeleteStep(accepts: Oracle, s: seq<byte>, pos: nat, delLen: nat, t: seq<byte>, keep: bool, done: seq<byte>)
    requires DeletesTo(accepts, s, pos, delLen, done) && DeletionTried(accepts, s, pos, delLen, t, keep)
    ensures DeletesTo(accepts, t, if keep then pos else pos + delLen, delLen, done)
    ensures !keep ==> RejectedAt(accepts, t, pos, delLen)
  {
    assert Peek(0);
  }

  // Two equal neighbours: removing the second leaves what removing the first leaves, so that a
  // rejection carries over and the second need not be tried.
  lemma SkipStep(accepts: Oracle, s: seq<byte>, pos: nat, delLen: nat, done: seq<byte>)
    requires delLen <= pos && pos + delLen < |s|
    requires s[pos - delLen..pos] == s[pos..pos + delLen]
    requires DeletesTo(accepts, s, pos, delLen, done) && RejectedAt(accepts, s, pos - delLen, delLen)
    ensures DeletesTo(accepts, s, pos + delLen, delLen, done) && RejectedAt(accepts, s, pos, delLen)
  {
    assert Peek(0);
    assert s[..pos] == s[..pos - delLen] + s[pos - delLen..pos];
    assert s[pos..] == s[pos..pos + delLen] + s[pos + delLen..];
    assert Without(s, pos - delLen, delLen) == Without(s, pos, delLen);
  }

  lemma RecodeStep(accepts: Oracle, s: seq<byte>, sym: byte, t: seq<byte>, keep: bool, done: seq<byte>,
                   start: seq<byte>)
    requires RecodesTo(accepts, s, sym as nat, done) && Untouched(s, start, sym as nat)
    requires if sym in start && sym != ZERO_DIGIT then RecodingTried(accepts, s, sym, t, keep) else t == s && !keep
    ensures RecodesTo(accepts, t, sym as nat + 1, done) && Untouched(t, start, sym as nat + 1)
    ensures keep ==> t != start
  {
    assert Peek(0);
    RecodedAfter(s, sym, start);
  }

  lemma RecodedAfter(s: seq<byte>, sym: byte, start: seq<byte>)
    requires Untouched(s, start, sym as nat)
    ensures Untouched(Recoded(s, sym), start, sym as nat + 1) && Untouched(s, start, sym as nat + 1)
    ensures if sym in start && sym != ZERO_DIGIT then Recoded(s, sym) != start else Recoded(s, sym) == s
  {
    if sym in start && sym != ZERO_DIGIT {
      var k :| 0 <= k < |start| && start[k] == sym;
      assert Recoded(s, sym)[k] != start[k];
    } else {
      assert Recoded(s, sym) == s;
    }
  }

  // While the alphabet is walked upwards from 0, at symbol sym: no byte of value sym or above has
  // been touched or has appeared, '0' apart.
  ghost predicate Untouched(s: seq<byte>, start: seq<byte>, sym: nat) {
    && |s| == |start|
    && (forall k :: 0 <= k < |s| && start[k] as int >= sym ==> s[k] == start[k])
    && (forall k :: 0 <= k < |s| ==> s[k] == start[k] || s[k] == ZERO_DIGIT)
  }

  // At pos: no byte from there on has been touched yet.
  ghost predicate SameFrom(s: seq<byte>, start: seq<byte>, pos: nat) {
    |s| == |start| && forall k :: pos <= k < |s| ==> s[k] == start[k]
  }

  lemma ZeroStep(accepts: Oracle, s: seq<byte>, pos: nat, t: seq<byte>, done: seq<byte>, start: seq<byte>)
    requires pos < |s| && ZeroesTo(accepts, s, pos, done) && SameFrom(s, start, pos)
    requires if s[pos] == ZERO_DIGIT then t == s else ZeroTried(accepts, s, pos, t)
    ensures ZeroesTo(accepts, t, pos + 1, done) && SameFrom(t, start, pos + 1)
    ensures t == s || t != start
  {
    assert Peek(0);
    if s[pos] == ZERO_DIGIT {
      assert s[pos := ZERO_DIGIT] == s;
    } else if t != s {
      assert t[pos] == ZERO_DIGIT && start[pos] == s[pos];
    }
  }

  lemma StageEnds(accepts: Oracle, s: seq<byte>, pos: nat, n: nat, done: seq<byte>)
    requires pos >= |s|
    ensures NormalizesTo(accepts, s, pos, n, done) ==> s == done
    ensures DeletesTo(accepts, s, pos, n, done) ==> s == done
    ensures ZeroesTo(accepts, s, pos, done) ==> s == done
    ensures RecodesTo(accepts, s, 256, done) ==> s == done
  {
    assert Peek(0);
  }
}
