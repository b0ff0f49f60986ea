/** trim_case(): chunks of a queue entry that do not change its execution path are cut out. The
    sweep of one chunk size is the minimizer's plain deletion sweep, begun one chunk in. */
module Trimming {
  import opened Bits
  import opened Bytes
  import opened Minimizer
  import opened MinimizerStages
  import opened Rejections

  const TRIM_MIN_BYTES: nat := 4
  const TRIM_END_STEPS: nat := 1024

  function LeastChunk(n: nat): (r: nat)
    ensures r >= TRIM_MIN_BYTES
  {
    Max(NextP2(n) / TRIM_END_STEPS, TRIM_MIN_BYTES)
  }

  function TrimmedFrom(samePath: Oracle, s: seq<byte>, removeLen: nat): (t: seq<byte>)
    ensures |t| <= |s|
    decreases removeLen
  {
    if removeLen < LeastChunk(|s|) then s
    else TrimmedFrom(samePath, DeletedBlocks(samePath, s, removeLen, removeLen), removeLen / 2)
  }

  function Trimmed(samePath: Oracle, s: seq<byte>): (t: seq<byte>)
    ensures |t| <= |s|
  {
    if |s| < 5 then s
    else TrimmedFrom(samePath, s, Max(NextP2(|s|) / TRIM_START_STEPS, TRIM_MIN_BYTES))
  }

  lemma {:induction false} TrimmedFromCorrect(samePath: Oracle, s: seq<byte>, removeLen: nat)
    requires |s| >= TRIM_MIN_BYTES
    ensures var t := TrimmedFrom(samePath, s, removeLen);
              && Simplifies(samePath, t, s)
              && |t| >= TRIM_MIN_BYTES && t[..TRIM_MIN_BYTES] == s[..TRIM_MIN_BYTES]
    decreases removeLen
  {
    if removeLen < LeastChunk(|s|) {
      SimplifiesRefl(samePath, s);
    } else {
      var u := DeletedBlocks(samePath, s, removeLen, removeLen);
      DeletedBlocksSimplifies(samePath, s, removeLen, removeLen);
      SweepKeepsHead(samePath, s, removeLen, removeLen, TRIM_MIN_BYTES);
      TrimmedFromCorrect(samePath, u, removeLen / 2);
      SimplifiesTrans(samePath, TrimmedFrom(samePath, s, removeLen), u, s);
    }
  }

  // ------------------------------------------------------------ what is left is unchanged

  // f places the bytes of t in s, in their order and unchanged.
  ghost predicate CutVia(t: seq<byte>, s: seq<byte>, f: seq<nat>) {
    && |f| == |t|
    && (forall i :: 0 <= i < |f| ==> f[i] < |s|)
    && (forall i, j :: 0 <= i < j < |f| ==> f[i] < f[j])
    && (forall i :: 0 <= i < |f| ==> t[i] == s[f[i]])
  }

  ghost predicate IsCutFrom(t: seq<byte>, s: seq<byte>) {
    exists f: seq<nat> :: CutVia(t, s, f)
  }

  lemma CutRefl(s: seq<byte>)
    ensures IsCutFrom(s, s)
  {
    assert CutVia(s, s, seq(|s|, i => i));
  }

  lemma CutTrans(u: seq<byte>, t: seq<byte>, s: seq<byte>)
    requires IsCutFrom(u, t) && IsCutFrom(t, s)
    ensures IsCutFrom(u, s)
  {
    var f :| CutVia(u, t, f);
    var g :| CutVia(t, s, g);
    assert CutVia(u, s, seq(|u|, i requires 0 <= i < |u| => g[f[i]]));
  }

  lemma WithoutIsCut(s: seq<byte>, pos: nat, n: nat)
    requires pos < |s|
    ensures IsCutFrom(Without(s, pos, n), s)
  {
    var end := Min(pos + n, |s|);
    assert CutVia(Without(s, pos, n), s, seq(|Without(s, pos, n)|, i => if i < pos then i else i + end - pos));
  }

  lemma {:induction false} SweepCuts(samePath: Oracle, s: seq<byte>, pos: nat, n: nat)
    requires n > 0
    ensures IsCutFrom(DeletedBlocks(samePath, s, pos, n), s)
    decreases |s| - pos
  {
    if pos >= |s| {
      CutRefl(s);
    } else {
      var w := Without(s, pos, n);
      if samePath(w) {
        WithoutIsCut(s, pos, n);
        SweepCuts(samePath, w, pos, n);
        CutTrans(DeletedBlocks(samePath, w, pos, n), w, s);
      } else {
        SweepCuts(samePath, s, pos + n, n);
      }
    }
  }

  lemma {:induction false} TrimmedFromCuts(samePath: Oracle, s: seq<byte>, removeLen: nat)
    ensures IsCutFrom(TrimmedFrom(samePath, s, removeLen), s)
    decreases removeLen
  {
    if removeLen < LeastChunk(|s|) {
      CutRefl(s);
    } else {
      var u := DeletedBlocks(samePath, s, removeLen, removeLen);
      SweepCuts(samePath, s, removeLen, removeLen);
      TrimmedFromCuts(samePath, u, removeLen / 2);
      CutTrans(TrimmedFrom(samePath, u, removeLen / 2), u, s);
    }
  }

  // ------------------------------------------------------------ what is left was rejected

  // The chunk sizes for an entry of n bytes are four and the powers of two from there on that are
  // below an eighth of it, but no size below its 1024th part.
  ghost predicate IsChunk(k: nat, n: nat) {
    k >= 2 && (k == 2 || Pow2(k + 3) < n) && n <= Pow2(k + 10)
  }

  // No chunk of the entry but the first one of its size can be cut out.
  ghost predicate ChunksRejected(samePath: Oracle, s: seq<byte>) {
    forall k: nat, p: nat | IsChunk(k, |s|) && Pow2(k) <= p < |s| && p % Pow2(k) == 0 ::
      !samePath(s[..p] + s[Min(p + Pow2(k), |s|)..])
  }

  // The last sweep took u to t with chunks of 2^k bytes.
  ghost predicate LastChunks(samePath: Oracle, s: seq<byte>, u: seq<byte>, k: nat, t: seq<byte>) {
    && IsCutFrom(u, s)
    && k >= 2 && |u| <= Pow2(k + 10) && (k == 2 || Pow2(k + 9) < |t|)
    && forall p: nat | Pow2(k) <= p < |t| && p % Pow2(k) == 0 :: ChunkKept(samePath, u, t, p, Pow2(k))
  }

  ghost predicate ChunkKept(samePath: Oracle, u: seq<byte>, t: seq<byte>, p: nat, n: nat) {
    exists q: nat :: KeptFrom(samePath, u, t, p, n, q)
  }

  lemma LeastChunkIs(n: nat, k: nat)
    ensures Pow2(k) < LeastChunk(n) <==> k < 2 || Pow2(k + 10) < n
  {
    var m := NextP2IsLeast(n, 0);
    assert Pow2(0) == 1 && Pow2(1) == 2 && Pow2(2) == 4;
    PowersOrdered(2, k);
    PowersOrdered(m, k + 10);
    if m >= 10 {
      ThousandTimes(m - 10);
      PowersOrdered(m - 10, k);
    } else {
      PowersOrdered(m + 1, 10);
      ThousandTimes(0);
    }
  }

  lemma ThousandTimes(k: nat)
    ensures Pow2(k + 10) == 1024 * Pow2(k) && Pow2(k + 10) / 1024 == Pow2(k)
  {
    SixteenTimes(k);
    SixteenTimes(k + 4);
    assert Pow2(k + 9) == 2 * Pow2(k + 8);
  }

  lemma SixteenTimes(k: nat)
    ensures Pow2(k + 4) == 16 * Pow2(k)
  {
    assert Pow2(k + 2) == 2 * Pow2(k + 1);
    assert Pow2(k + 3) == 2 * Pow2(k + 2);
  }

  lemma FirstChunk(n: nat) returns (k: nat)
    requires n >= 5
    ensures Max(NextP2(n) / TRIM_START_STEPS, TRIM_MIN_BYTES) == Pow2(k)
    ensures k >= 2 && (k == 2 || Pow2(k + 3) < n) && n <= Pow2(k + 4)
  {
    var m := NextP2IsLeast(n, 0);
    assert Pow2(0) == 1 && Pow2(1) == 2 && Pow2(2) == 4;
    if m >= 6 {
      k := m - 4;
      SixteenTimes(k);
      PowersOrdered(2, k);
    } else {
      k := 2;
      PowersOrdered(m, 5);
      SixteenTimes(1);
      SixteenTimes(2);
    }
  }

  lemma BehindFirst(p: nat, n: nat)
    requires 0 < n <= p
    ensures Aligned(p, n, n) <==> p % n == 0
  {
    AlignedIs(p, n);
    if Aligned(p, 0, n) {
      Farther(p, 0, n);
    }
    if Aligned(p, n, n) {
      Nearer(p, 0, n);
    }
  }

  lemma {:induction false} LastSweepOf(samePath: Oracle, s: seq<byte>, k: nat) returns (u: seq<byte>, j: nat)
    requires Pow2(k) >= LeastChunk(|s|)
    ensures LastChunks(samePath, s, u, j, TrimmedFrom(samePath, s, Pow2(k)))
    decreases k
  {
    var n := Pow2(k);
    var t := DeletedBlocks(samePath, s, n, n);
    LeastChunkIs(|s|, k);
    if n / 2 >= LeastChunk(|t|) {
      u, j := LastSweepOf(samePath, t, k - 1);
      SweepCuts(samePath, s, n, n);
      CutTrans(u, t, s);
    } else {
      u, j := s, k;
      CutRefl(s);
      LeastChunkIs(|t|, k - 1);
      forall p: nat | n <= p < |t| && p % n == 0 ensures ChunkKept(samePath, s, t, p, n) {
        BehindFirst(p, n);
        var q := SweepRejects(samePath, s, n, n, p);
      }
    }
  }

  lemma {:induction false} ChunkRejected(samePath: Oracle, s: seq<byte>, k: nat, j: nat, p: nat)
    requires TrimmedFrom(samePath, s, Pow2(k)) == s && 2 <= j <= k && |s| <= Pow2(j + 10)
    requires Pow2(j) <= p < |s| && p % Pow2(j) == 0
    ensures !samePath(Without(s, p, Pow2(j)))
    decreases k
  {
    SweptUnchanged(samePath, s, k, j);
    if j == k {
      BehindFirst(p, Pow2(j));
      SweepRejected(samePath, s, Pow2(k), Pow2(k), p);
    } else {
      ChunkRejected(samePath, s, k - 1, j, p);
    }
  }

  lemma SweptUnchanged(samePath: Oracle, s: seq<byte>, k: nat, j: nat)
    requires TrimmedFrom(samePath, s, Pow2(k)) == s && 2 <= j <= k && |s| <= Pow2(j + 10)
    ensures DeletedBlocks(samePath, s, Pow2(k), Pow2(k)) == s && TrimmedFrom(samePath, s, Pow2(k - 1)) == s
  {
    PowersOrdered(j + 10, k + 10);
    LeastChunkIs(|s|, k);
    HalfChunk(k);
  }

  lemma HalfChunk(k: nat)
    requires k > 0
    ensures Pow2(k) / 2 == Pow2(k - 1)
  {
  }

  lemma SweepOfUntouched(samePath: Oracle, s: seq<byte>, k: nat)
    requires k >= 2 && (k == 2 || Pow2(k + 3) < |s|) && |s| <= Pow2(k + 10) && ChunksRejected(samePath, s)
    ensures DeletedBlocks(samePath, s, Pow2(k), Pow2(k)) == s
  {
    forall p: nat | p < |s| && Aligned(p, Pow2(k), Pow2(k)) ensures !samePath(Without(s, p, Pow2(k))) {
      BehindFirst(p, Pow2(k));
      assert IsChunk(k, |s|);
    }
    SweepUnchanged(samePath, s, Pow2(k), Pow2(k));
  }

  // The sweeps from chunks of 2^k bytes down change nothing.
  ghost predicate Stays(samePath: Oracle, s: seq<byte>, k: nat) {
    forall x | SeeSweeps(x) :: TrimmedFrom(samePath, s, Pow2(k)) == s
  }

  predicate SeeSweeps(x: int) { x == 0 }

  lemma {:induction false} NothingTrimmed(samePath: Oracle, s: seq<byte>, k: nat)
    requires k >= 2 && (k == 2 || Pow2(k + 3) < |s|) && ChunksRejected(samePath, s)
    ensures Stays(samePath, s, k)
    decreases k
  {
    if k > 2 {
      NothingTrimmed(samePath, s, k - 1);
    }
    NextChunk(samePath, s, k);
  }

  lemma NextChunk(samePath: Oracle, s: seq<byte>, k: nat)
    requires k >= 2 && (k == 2 || Pow2(k + 3) < |s|) && ChunksRejected(samePath, s)
    requires k == 2 || Stays(samePath, s, k - 1)
    ensures Stays(samePath, s, k)
  {
    assert SeeSweeps(0);
    LeastChunkIs(|s|, k);
    if |s| <= Pow2(k + 10) {
      SweepOfUntouched(samePath, s, k);
      LeastChunkIs(|s|, k - 1);
      HalfChunk(k);
    }
  }

  /** A trimmed entry is its old self with pieces cut out: the bytes left are unchanged and in their
      order, the first four stay, and unless nothing was cut it follows the same path. Nothing is
      cut exactly if no chunk of any size could be; and every chunk left but the first was rejected
      in the last sweep, whose chunks are of four bytes or of a 1024th to a 512th of the entry. */
  lemma TrimmedCorrect(samePath: Oracle, s: seq<byte>)
    ensures IsCutFrom(Trimmed(samePath, s), s)
    ensures Trimmed(samePath, s) != s ==> |Trimmed(samePath, s)| < |s| && samePath(Trimmed(samePath, s))
    ensures |s| >= 4 ==> Trimmed(samePath, s)[..Min(4, |Trimmed(samePath, s)|)] == s[..4]
    ensures Trimmed(samePath, s) == s <==> |s| < 5 || ChunksRejected(samePath, s)
    ensures |s| >= 5 ==> exists u, k :: LastChunks(samePath, s, u, k, Trimmed(samePath, s))
  {
    if |s| < 5 {
      CutRefl(s);
    } else {
      var removeLen := Max(NextP2(|s|) / TRIM_START_STEPS, TRIM_MIN_BYTES);
      TrimmedFromCorrect(samePath, s, removeLen);
      TrimmedFromCuts(samePath, s, removeLen);
      SameLengthIsSame(Trimmed(samePath, s), s);
      LastChunksAre(samePath, s);
      NothingTrimmedExactly(samePath, s);
    }
  }

  lemma LastChunksAre(samePath: Oracle, s: seq<byte>)
    requires |s| >= 5
    ensures exists u, k :: LastChunks(samePath, s, u, k, Trimmed(samePath, s))
  {
    var k := FirstChunk(|s|);
    PowersOrdered(k + 4, k + 10);
    LeastChunkIs(|s|, k);
    var u, j := LastSweepOf(samePath, s, k);
    assert LastChunks(samePath, s, u, j, Trimmed(samePath, s));
  }

  lemma NothingTrimmedExactly(samePath: Oracle, s: seq<byte>)
    requires |s| >= 5
    ensures Trimmed(samePath, s) == s <==> ChunksRejected(samePath, s)
  {
    var k := FirstChunk(|s|);
    if Trimmed(samePath, s) == s {
      forall j: nat, p: nat | IsChunk(j, |s|) && Pow2(j) <= p < |s| && p % Pow2(j) == 0
        ensures !samePath(s[..p] + s[Min(p + Pow2(j), |s|)..])
      {
        PowersOrdered(k + 4, j + 3);
        ChunkRejected(samePath, s, k, j, p);
      }
    }
    if ChunksRejected(samePath, s) {
      NothingTrimmed(samePath, s, k);
      assert SeeSweeps(0);
    }
  }

  lemma {:induction false} PlacesGrow(f: seq<nat>, i: nat)
    requires i < |f| && forall a, b :: 0 <= a < b < |f| ==> f[a] < f[b]
    ensures f[i] >= i
  {
    if i > 0 {
      PlacesGrow(f, i - 1);
    }
  }

  lemma SameLengthIsSame(t: seq<byte>, s: seq<byte>)
    requires IsCutFrom(t, s)
    ensures |t| <= |s| && (|t| == |s| ==> t == s)
  {
    var f :| CutVia(t, s, f);
    if t != [] {
      PlacesGrow(f, |t| - 1);
    }
    if |t| == |s| {
      forall i | 0 <= i < |t| ensures t[i] == s[i] {
        PlacesGrow(f, i);
        PlacesFit(f, |s|, i);
      }
    }
  }

  lemma {:induction false} PlacesFit(f: seq<nat>, n: nat, i: nat)
    requires i < |f| && (forall a, b :: 0 <= a < b < |f| ==> f[a] < f[b]) && forall a :: 0 <= a < |f| ==> f[a] < n
    ensures f[i] + |f| - i <= n
    decreases |f| - i
  {
    if i < |f| - 1 {
      PlacesFit(f, n, i + 1);
    }
  }

  // One chunk size; the buffer's first len bytes are the entry.
  method TrimSweep(samePath: Oracle, buf: array<byte>, len: nat, removeLen: nat, ghost done: seq<byte>)
      returns (newLen: nat)
    requires len <= buf.Length && DeletesTo(samePath, buf[..len], removeLen, removeLen, done)
    modifies buf
    ensures newLen <= len && buf[..newLen] == done
  {
    newLen := len;
    var removePos := removeLen;
    while removePos < newLen
      invariant newLen <= len && removePos >= 0
      invariant DeletesTo(samePath, buf[..newLen], removePos, removeLen, done)
      decreases newLen - removePos
    {
      ghost var before := buf[..newLen];
      var res;
      newLen, res := TrimChunk(samePath, buf, newLen, removePos, removeLen);
      DeleteStep(samePath, before, removePos, removeLen, buf[..newLen], res, done);
      if !res {
        removePos := removePos + removeLen;
      }
    }
    StageEnds(samePath, buf[..newLen], removePos, removeLen, done);
  }

  // Cut out one chunk, moving the tail down, if the path stays the same without it.
  method TrimChunk(samePath: Oracle, buf: array<byte>, len: nat, removePos: nat, removeLen: nat)
      returns (newLen: nat, res: bool)
    requires removePos < len <= buf.Length && removeLen > 0
    modifies buf
    ensures newLen <= len && DeletionTried(samePath, old(buf[..len]), removePos, removeLen, buf[..newLen], res)
  {
    var trimAvail := Min(removeLen, len - removePos);
    ghost var before := buf[..len];
    ghost var w := Without(before, removePos, removeLen);
    assert buf[..removePos] + buf[removePos + trimAvail..len] == w;
    res := samePath(buf[..removePos] + buf[removePos + trimAvail..len]);
    newLen := len;
    if res {
      forall k | removePos <= k < len - trimAvail {
        buf[k] := buf[k + trimAvail];
      }
      newLen := len - trimAvail;
      assert buf[..newLen] == w;
    }
  }

  method Trim(samePath: Oracle, buf: array<byte>, len: nat) returns (newLen: nat)
    requires len <= buf.Length
    modifies buf
    ensures newLen <= len && buf[..newLen] == Trimmed(samePath, old(buf[..len]))
  {
    newLen := len;
    if len < 5 {
      return;
    }
    ghost var done := Trimmed(samePath, buf[..len]);
    var removeLen := Max(NextP2(len) / TRIM_START_STEPS, TRIM_MIN_BYTES);
    while removeLen >= Max(NextP2(newLen) / TRIM_END_STEPS, TRIM_MIN_BYTES)
      invariant newLen <= len && removeLen >= 0
      invariant TrimmedFrom(samePath, buf[..newLen], removeLen) == done
      decreases removeLen
    {
      newLen := TrimSweep(samePath, buf, newLen, removeLen,
                          DeletedBlocks(samePath, buf[..newLen], removeLen, removeLen));
      removeLen := removeLen / 2;
    }
  }
}
