/** The test case minimizer as a whole, on the plain stages: what it may do to its input, that its
    pass loop ends, and that what it leaves cannot be made smaller. */
module Minimizer {
  import opened Bytes
  import opened Bits
  import opened MinimizerStages
  import opened Rejections

  // ------------------------------------------------------------ what a stage may do to the buffer

  // f places the bytes of t in s in their order; a byte that was not kept has become '0'.
  ghost predicate EmbedsVia(t: seq<byte>, s: seq<byte>, f: seq<nat>) {
    && |f| == |t|
    && (forall i :: 0 <= i < |f| ==> f[i] < |s|)
    && (forall i, j :: 0 <= i < j < |f| ==> f[i] < f[j])
    && (forall i :: 0 <= i < |f| ==> t[i] == s[f[i]] || t[i] == ZERO_DIGIT)
  }

  ghost predicate Embeds(t: seq<byte>, s: seq<byte>) {
    exists f: seq<nat> :: EmbedsVia(t, s, f)
  }

  // Length plus the number of bytes other than '0'.
  function Weight(s: seq<byte>): nat {
    if |s| == 0 then 0 else (if s[0] == ZERO_DIGIT then 1 else 2) + Weight(s[1..])
  }

  // A buffer that a stage may leave: it embeds, it is either untouched or lighter, and accepted.
  ghost predicate Simplifies(accepts: Oracle, t: seq<byte>, s: seq<byte>) {
    && Embeds(t, s)
    && (t == s || (Weight(t) < Weight(s) && accepts(t)))
  }

  lemma WeightSplit(a: seq<byte>, b: seq<byte>)
    ensures Weight(a + b) == Weight(a) + Weight(b)
  {
    if |a| == 0 {
      assert a + b == b;
    } else {
      assert (a + b)[1..] == a[1..] + b;
      WeightSplit(a[1..], b);
    }
  }

  // Bytewise refilling: same length, every byte kept or turned to '0'.
  ghost predicate Refills(t: seq<byte>, s: seq<byte>) {
    |t| == |s| && forall i :: 0 <= i < |s| ==> t[i] == s[i] || t[i] == ZERO_DIGIT
  }

  lemma {:induction false} RefillWeight(t: seq<byte>, s: seq<byte>)
    requires Refills(t, s)
    ensures t == s || Weight(t) < Weight(s)
  {
    if |s| > 0 {
      RefillWeight(t[1..], s[1..]);
      assert t == [t[0]] + t[1..] && s == [s[0]] + s[1..];
    }
  }

  lemma RefillSimplifies(accepts: Oracle, t: seq<byte>, s: seq<byte>)
    requires Refills(t, s) && accepts(t)
    ensures Simplifies(accepts, t, s)
  {
    RefillWeight(t, s);
    assert EmbedsVia(t, s, seq(|t|, i => i));
  }

  lemma WithoutSimplifies(accepts: Oracle, s: seq<byte>, pos: nat, n: nat)
    requires pos < |s| && n > 0 && accepts(Without(s, pos, n))
    ensures Simplifies(accepts, Without(s, pos, n), s)
  {
    var t := Without(s, pos, n);
    var end := Min(pos + n, |s|);
    assert EmbedsVia(t, s, seq(|t|, i => if i < pos then i else i + end - pos));
    assert s == s[..pos] + (s[pos..end] + s[end..]);
    WeightSplit(s[..pos], s[pos..end] + s[end..]);
    WeightSplit(s[pos..end], s[end..]);
    WeightSplit(s[..pos], s[end..]);
    assert Weight(s[pos..end]) > 0;
  }

  lemma SimplifiesRefl(accepts: Oracle, s: seq<byte>)
    ensures Simplifies(accepts, s, s)
  {
    assert EmbedsVia(s, s, seq(|s|, i => i));
  }

  lemma SimplifiesTrans(accepts: Oracle, u: seq<byte>, t: seq<byte>, s: seq<byte>)
    requires Simplifies(accepts, u, t) && Simplifies(accepts, t, s)
    ensures Simplifies(accepts, u, s)
  {
    var f :| EmbedsVia(u, t, f);
    var g :| EmbedsVia(t, s, g);
    assert EmbedsVia(u, s, seq(|u|, i requires 0 <= i < |u| => g[f[i]]));
  }

  lemma TrySimplifies(accepts: Oracle, s: seq<byte>, t: seq<byte>)
    requires Refills(t, s)
    ensures Simplifies(accepts, Try(accepts, s, t), s)
  {
    SimplifiesRefl(accepts, s);
    if accepts(t) {
      RefillSimplifies(accepts, t, s);
    }
  }

  // ------------------------------------------------------------ the stages simplify

  lemma {:induction false} NormalizedBlocksSimplifies(accepts: Oracle, s: seq<byte>, pos: nat, setLen: nat)
    requires setLen > 0
    ensures Simplifies(accepts, NormalizedBlocks(accepts, s, pos, setLen), s)
    decreases |s| - pos
  {
    if pos >= |s| {
      SimplifiesRefl(accepts, s);
    } else {
      var c := Zeroed(s, pos, Min(setLen, |s| - pos));
      TrySimplifies(accepts, s, c);
      var t := Try(accepts, s, c);
      NormalizedBlocksSimplifies(accepts, t, pos + setLen, setLen);
      SimplifiesTrans(accepts, NormalizedBlocks(accepts, s, pos, setLen), t, s);
    }
  }

  lemma {:induction false} DeletedBlocksSimplifies(accepts: Oracle, s: seq<byte>, pos: nat, delLen: nat)
    requires delLen > 0
    ensures Simplifies(accepts, DeletedBlocks(accepts, s, pos, delLen), s)
    decreases |s| - pos
  {
    if pos >= |s| {
      SimplifiesRefl(accepts, s);
    } else {
      var t := Without(s, pos, delLen);
      if accepts(t) {
        WithoutSimplifies(accepts, s, pos, delLen);
        DeletedBlocksSimplifies(accepts, t, pos, delLen);
        SimplifiesTrans(accepts, DeletedBlocks(accepts, s, pos, delLen), t, s);
      } else {
        DeletedBlocksSimplifies(accepts, s, pos + delLen, delLen);
      }
    }
  }

  lemma {:induction false} DeletedSimplifies(accepts: Oracle, s: seq<byte>, delLen: nat)
    requires delLen > 0
    ensures Simplifies(accepts, Deleted(accepts, s, delLen), s)
    decreases delLen
  {
    DeletedBlocksSimplifies(accepts, s, 0, delLen);
    var t := DeletedBlocks(accepts, s, 0, delLen);
    if delLen > 1 && |t| >= 1 {
      DeletedSimplifies(accepts, t, delLen / 2);
      SimplifiesTrans(accepts, Deleted(accepts, s, delLen), t, s);
    }
  }

  lemma {:induction false} RecodedSymbolsSimplifies(accepts: Oracle, s: seq<byte>, sym: nat)
    requires sym <= 256
    ensures Simplifies(accepts, RecodedSymbols(accepts, s, sym), s)
    decreases 256 - sym
  {
    if sym == 256 {
      SimplifiesRefl(accepts, s);
    } else {
      var c := Recoded(s, sym as byte);
      TrySimplifies(accepts, s, c);
      var t := Try(accepts, s, c);
      RecodedSymbolsSimplifies(accepts, t, sym + 1);
      SimplifiesTrans(accepts, RecodedSymbols(accepts, s, sym), t, s);
    }
  }

  lemma {:induction false} ZeroedCharsSimplifies(accepts: Oracle, s: seq<byte>, pos: nat)
    ensures Simplifies(accepts, ZeroedChars(accepts, s, pos), s)
    decreases |s| - pos
  {
    if pos >= |s| {
      SimplifiesRefl(accepts, s);
    } else {
      var c := s[pos := ZERO_DIGIT];
      TrySimplifies(accepts, s, c);
      var t := Try(accepts, s, c);
      ZeroedCharsSimplifies(accepts, t, pos + 1);
      SimplifiesTrans(accepts, ZeroedChars(accepts, s, pos), t, s);
    }
  }

  // A whole pass: deletion, recoding and zeroing one after the other.
  lemma PassSimplifies(accepts: Oracle, s: seq<byte>)
    ensures Simplifies(accepts, Pass(accepts, s), s)
  {
    var n := NextP2(|s| / TRIM_START_STEPS);
    var t := Deleted(accepts, s, n);
    var u := RecodedSymbols(accepts, t, 0);
    DeletedSimplifies(accepts, s, n);
    RecodedSymbolsSimplifies(accepts, t, 0);
    ZeroedCharsSimplifies(accepts, u, 0);
    SimplifiesTrans(accepts, u, t, s);
    SimplifiesTrans(accepts, Pass(accepts, s), u, s);
  }

  // A pass changes nothing only if none of its stages does: no stage can undo another.
  lemma UnchangedPass(accepts: Oracle, s: seq<byte>, t: seq<byte>, u: seq<byte>)
    requires t == Deleted(accepts, s, NextP2(|s| / TRIM_START_STEPS)) && u == RecodedSymbols(accepts, t, 0)
    ensures Pass(accepts, s) == s ==> t == s && u == s
  {
    DeletedSimplifies(accepts, s, NextP2(|s| / TRIM_START_STEPS));
    RecodedSymbolsSimplifies(accepts, t, 0);
    ZeroedCharsSimplifies(accepts, u, 0);
  }

  // ------------------------------------------------------------ the pass loop

  // Passes until one changes nothing; every pass but the first may end after its deletion stage.
  function Passes(accepts: Oracle, s: seq<byte>, firstPass: bool): seq<byte>
    decreases Weight(s)
  {
    var t := Deleted(accepts, s, NextP2(|s| / TRIM_START_STEPS));
    if !firstPass && t == s then t
    else
      var u := Pass(accepts, s);
      PassSimplifies(accepts, s);
      if u == s then u else Passes(accepts, u, false)
  }

  function SetLen(n: nat): (r: nat)
    ensures r > 0
  {
    Max(NextP2(n / TMIN_SET_STEPS), TMIN_SET_MIN_SIZE)
  }

  function Minimized(accepts: Oracle, s: seq<byte>): seq<byte> {
    Passes(accepts, NormalizedBlocks(accepts, s, 0, SetLen(|s|)), true)
  }

  // No block that the deletion stage would look at can be removed: the stage is at a fixpoint.
  ghost predicate BlockMinimal(accepts: Oracle, s: seq<byte>) {
    Deleted(accepts, s, NextP2(|s| / TRIM_START_STEPS)) == s
  }

  ghost predicate OneMinimal(accepts: Oracle, s: seq<byte>) {
    forall p :: 0 <= p < |s| ==> !accepts(s[..p] + s[p + 1..])
  }

  lemma FixedIsBlockMinimal(accepts: Oracle, s: seq<byte>)
    requires Pass(accepts, s) == s
    ensures BlockMinimal(accepts, s)
  {
    var t := Deleted(accepts, s, NextP2(|s| / TRIM_START_STEPS));
    UnchangedPass(accepts, s, t, RecodedSymbols(accepts, t, 0));
  }

  lemma {:induction false} PassesCorrect(accepts: Oracle, s: seq<byte>, firstPass: bool)
    ensures Simplifies(accepts, Passes(accepts, s, firstPass), s)
    ensures BlockMinimal(accepts, Passes(accepts, s, firstPass))
    decreases Weight(s)
  {
    var u := Pass(accepts, s);
    PassSimplifies(accepts, s);
    if !firstPass && BlockMinimal(accepts, s) {
      assert Passes(accepts, s, firstPass) == s;
      SimplifiesRefl(accepts, s);
    } else if u == s {
      assert Passes(accepts, s, firstPass) == s;
      FixedIsBlockMinimal(accepts, s);
    } else {
      PassesCorrect(accepts, u, false);
      SimplifiesTrans(accepts, Passes(accepts, u, false), u, s);
      assert Passes(accepts, s, firstPass) == Passes(accepts, u, false);
    }
  }

  // ------------------------------------------------------------ what was rejected, spelled out

  // No aligned block of any size from a sixteenth of the buffer down can be removed.
  ghost predicate BlocksRejected(accepts: Oracle, s: seq<byte>) {
    forall j: nat, p: nat | IsSize(j, |s|) && p < |s| && p % Pow2(j) == 0 ::
      !accepts(s[..p] + s[Min(p + Pow2(j), |s|)..])
  }

  // The sizes are the powers of two up to the first one that is not below a sixteenth.
  predicate IsSize(j: nat, n: nat) {
    j == 0 || Pow2(j) < 2 * (n / 16)
  }

  lemma SizeIsHalved(j: nat, n: nat) returns (m: nat)
    ensures NextP2(n / TRIM_START_STEPS) == Pow2(m) && (IsSize(j, n) <==> j <= m)
  {
    m := NextP2IsLeast(n / TRIM_START_STEPS, 0);
    PowersOrdered(j, m);
    PowersOrdered(j, m + 1);
    PowersOrdered(m + 1, j);
  }

  lemma {:induction false} SweepUnchanged(accepts: Oracle, s: seq<byte>, pos: nat, n: nat)
    requires n > 0 && forall p: nat | p < |s| && Aligned(p, pos, n) :: !accepts(Without(s, p, n))
    ensures DeletedBlocks(accepts, s, pos, n) == s
    decreases |s| - pos
  {
    if pos < |s| {
      assert Aligned(pos, pos, n);
      forall p: nat | p < |s| && Aligned(p, pos + n, n) ensures !accepts(Without(s, p, n)) {
        Nearer(p, pos, n);
      }
      SweepUnchanged(accepts, s, pos + n, n);
    }
  }

  lemma {:induction false} StageUnchanged(accepts: Oracle, s: seq<byte>, m: nat)
    requires forall j: nat, p: nat | j <= m && p < |s| && p % Pow2(j) == 0 :: !accepts(Without(s, p, Pow2(j)))
    ensures Deleted(accepts, s, Pow2(m)) == s
  {
    forall p: nat | p < |s| && Aligned(p, 0, Pow2(m)) ensures !accepts(Without(s, p, Pow2(m))) {
      AlignedIs(p, Pow2(m));
    }
    SweepUnchanged(accepts, s, 0, Pow2(m));
    if m > 0 {
      StageUnchanged(accepts, s, m - 1);
    }
  }

  lemma {:induction false} SweepRejected(accepts: Oracle, s: seq<byte>, pos: nat, n: nat, p: nat)
    requires n > 0 && DeletedBlocks(accepts, s, pos, n) == s && p < |s| && Aligned(p, pos, n)
    ensures !accepts(Without(s, p, n))
    decreases |s| - pos
  {
    assert |Without(s, pos, n)| < |s|;
    if p != pos {
      Farther(p, pos, n);
      SweepRejected(accepts, s, pos + n, n, p);
    }
  }

  lemma {:induction false} StageRejected(accepts: Oracle, s: seq<byte>, m: nat, j: nat, p: nat)
    requires Deleted(accepts, s, Pow2(m)) == s && j <= m && p < |s| && p % Pow2(j) == 0
    ensures !accepts(Without(s, p, Pow2(j)))
    decreases m
  {
    assert DeletedBlocks(accepts, s, 0, Pow2(m)) == s;
    if j == m {
      AlignedIs(p, Pow2(m));
      SweepRejected(accepts, s, 0, Pow2(m), p);
    } else {
      StageRejected(accepts, s, m - 1, j, p);
    }
  }

  /** The deletion stage changes nothing exactly if every such block was rejected. */
  lemma BlockMinimalExactly(accepts: Oracle, s: seq<byte>)
    ensures BlockMinimal(accepts, s) <==> BlocksRejected(accepts, s)
  {
    var m := SizeIsHalved(0, |s|);
    forall j: nat | true ensures IsSize(j, |s|) <==> j <= m {
      var l := SizeIsHalved(j, |s|);
      PowersOrdered(l, m);
      PowersOrdered(m, l);
    }
    if BlockMinimal(accepts, s) {
      forall j: nat, p: nat | IsSize(j, |s|) && p < |s| && p % Pow2(j) == 0
        ensures !accepts(s[..p] + s[Min(p + Pow2(j), |s|)..])
      {
        StageRejected(accepts, s, m, j, p);
      }
    }
    if BlocksRejected(accepts, s) {
      StageUnchanged(accepts, s, m);
    }
  }

  lemma BlockMinimalIsOneMinimal(accepts: Oracle, s: seq<byte>)
    requires BlockMinimal(accepts, s)
    ensures OneMinimal(accepts, s)
  {
    BlockMinimalExactly(accepts, s);
    forall p | 0 <= p < |s| ensures !accepts(s[..p] + s[p + 1..]) {
      assert IsSize(0, |s|) && p % Pow2(0) == 0 && Min(p + Pow2(0), |s|) == p + 1;
    }
  }

  // ------------------------------------------------------------ the whole run, spelled out

  // d is what the deletion stage leaves of s: its last sweep cut single bytes out of u.
  ghost predicate BytesTried(accepts: Oracle, s: seq<byte>, d: seq<byte>) {
    && (d == s <==> BlocksRejected(accepts, s))
    && (d != [] ==> exists u :: Simplifies(accepts, u, s) && LastSweep(accepts, u, d))
  }

  ghost predicate LastSweep(accepts: Oracle, u: seq<byte>, d: seq<byte>) {
    forall p: nat | p < |d| :: ByteKept(accepts, u, d, p)
  }

  ghost predicate ByteKept(accepts: Oracle, u: seq<byte>, d: seq<byte>, p: nat) {
    exists q: nat :: KeptFrom(accepts, u, d, p, 1, q)
  }

  // One pass takes s to t: over d by deletion and r by symbols.
  ghost predicate PassVia(accepts: Oracle, s: seq<byte>, d: seq<byte>, r: seq<byte>, t: seq<byte>) {
    && Simplifies(accepts, d, s) && BytesTried(accepts, s, d)
    && SymbolsTried(accepts, d, r)
    && CharsTried(accepts, r, t)
    && (t == s ==> d == s && r == s)
  }

  // The buffers before the first pass and after each one.
  ghost predicate PassesVia(accepts: Oracle, h: seq<seq<byte>>) {
    && |h| >= 2
    && (forall j: nat | j < |h| - 1 :: PassAt(accepts, h, j))
    && BlocksRejected(accepts, h[|h| - 1])
  }

  // Every pass but the first starts from a buffer with a block that can be removed.
  ghost predicate PassAt(accepts: Oracle, h: seq<seq<byte>>, j: nat)
    requires j < |h| - 1
  {
    OnePass(accepts, h[j], h[j + 1]) && (j > 0 ==> !BlocksRejected(accepts, h[j]))
  }

  ghost predicate OnePass(accepts: Oracle, s: seq<byte>, t: seq<byte>) {
    forall x | SeePass(x) :: exists d, r :: PassVia(accepts, s, d, r, t)
  }

  predicate SeePass(x: int) { x == 0 }

  // The blocks of stage 0 are the least power of two that is not below a 128th, and at least four
  // bytes.
  predicate IsBlockLen(n: nat, len: nat) {
    len >= 4 && len >= n / 128 && (len > 4 ==> len < 2 * (n / 128))
  }

  // Stage 0 takes s to the first of the buffers, and t is the last one.
  ghost predicate LeftBy(accepts: Oracle, s: seq<byte>, j: nat, h: seq<seq<byte>>, t: seq<byte>) {
    && IsBlockLen(|s|, Pow2(j)) && PassesVia(accepts, h)
    && BlocksTried(accepts, s, Pow2(j), h[0]) && h[|h| - 1] == t
  }

  lemma BlockLen(n: nat) returns (j: nat)
    ensures SetLen(n) == Pow2(j) && IsBlockLen(n, Pow2(j))
  {
    j := NextP2IsLeast(n / TMIN_SET_STEPS, 0);
    assert Pow2(0) == 1 && Pow2(1) == 2 && Pow2(2) == 4;
    if Pow2(j) < 4 {
      j := 2;
    }
  }

  lemma {:induction false} DeletedLastSweep(accepts: Oracle, s: seq<byte>, delLen: nat) returns (u: seq<byte>)
    requires delLen > 0 && Deleted(accepts, s, delLen) != []
    ensures Simplifies(accepts, u, s) && LastSweep(accepts, u, Deleted(accepts, s, delLen))
    decreases delLen
  {
    var t := DeletedBlocks(accepts, s, 0, delLen);
    if delLen > 1 && |t| >= 1 {
      DeletedBlocksSimplifies(accepts, s, 0, delLen);
      u := DeletedLastSweep(accepts, t, delLen / 2);
      SimplifiesTrans(accepts, u, t, s);
    } else {
      u := s;
      SimplifiesRefl(accepts, s);
      forall p: nat | p < |t| ensures ByteKept(accepts, s, t, p) {
        AlignedIs(p, 1);
        var q := SweepRejects(accepts, s, 0, 1, p);
      }
    }
  }

  lemma PassIsVia(accepts: Oracle, s: seq<byte>) returns (d: seq<byte>, r: seq<byte>)
    ensures PassVia(accepts, s, d, r, Pass(accepts, s))
  {
    var n := NextP2(|s| / TRIM_START_STEPS);
    d := Deleted(accepts, s, n);
    r := RecodedSymbols(accepts, d, 0);
    DeletedSimplifies(accepts, s, n);
    BlockMinimalExactly(accepts, s);
    if d != [] {
      var u := DeletedLastSweep(accepts, s, n);
    }
    SymbolsAreTried(accepts, d);
    CharsAreTried(accepts, r);
    UnchangedPass(accepts, s, d, r);
  }

  lemma PassIsOne(accepts: Oracle, s: seq<byte>)
    ensures OnePass(accepts, s, Pass(accepts, s))
  {
    var d, r := PassIsVia(accepts, s);
  }

  ghost predicate PassesTo(accepts: Oracle, s: seq<byte>, t: seq<byte>) {
    forall x | SeePass(x) :: Passes(accepts, s, true) == t
  }

  // What a pass leads to: to the buffer that is left, or on to a lighter one.
  lemma PassLeads(accepts: Oracle, s: seq<byte>, t: seq<byte>) returns (u: seq<byte>, last: bool)
    requires PassesTo(accepts, s, t)
    ensures OnePass(accepts, s, u) && last == BlocksRejected(accepts, u)
    ensures if last then u == t else Weight(u) < Weight(s) && PassesTo(accepts, u, t)
  {
    assert SeePass(0);
    u := Pass(accepts, s);
    last := u == s || BlockMinimal(accepts, u);
    PassIsOne(accepts, s);
    PassSimplifies(accepts, s);
    BlockMinimalExactly(accepts, u);
    if last {
      PassesEnd(accepts, s);
    } else {
      PassesGoOn(accepts, s);
    }
  }

  lemma {:induction false} PassesAreVia(accepts: Oracle, s: seq<byte>, t: seq<byte>) returns (h: seq<seq<byte>>)
    requires PassesTo(accepts, s, t)
    ensures PassesVia(accepts, h) && h[0] == s && h[|h| - 1] == t
    decreases Weight(s)
  {
    var u, last := PassLeads(accepts, s, t);
    if last {
      h := LastPass(accepts, s, u);
    } else {
      h := PassesAreVia(accepts, u, t);
      OneMorePass(accepts, s, h);
      h := [s] + h;
    }
  }

  lemma LastPass(accepts: Oracle, s: seq<byte>, u: seq<byte>) returns (h: seq<seq<byte>>)
    requires OnePass(accepts, s, u) && BlocksRejected(accepts, u)
    ensures h == [s, u] && PassesVia(accepts, h)
  {
    h := [s, u];
    forall j: nat | j < |h| - 1 ensures PassAt(accepts, h, j) {
      assert j == 0;
    }
  }

  lemma PassesEnd(accepts: Oracle, s: seq<byte>)
    requires Pass(accepts, s) == s || BlockMinimal(accepts, Pass(accepts, s))
    ensures Passes(accepts, s, true) == Pass(accepts, s) && BlockMinimal(accepts, Pass(accepts, s))
  {
    if Pass(accepts, s) == s {
      FixedIsBlockMinimal(accepts, s);
    }
  }

  // Between passes it makes no difference whether one is the first.
  lemma PassesGoOn(accepts: Oracle, s: seq<byte>)
    requires Pass(accepts, s) != s && !BlockMinimal(accepts, Pass(accepts, s))
    ensures Passes(accepts, s, true) == Passes(accepts, Pass(accepts, s), true)
  {
  }

  lemma OneMorePass(accepts: Oracle, s: seq<byte>, h: seq<seq<byte>>)
    requires PassesVia(accepts, h) && OnePass(accepts, s, h[0]) && !BlocksRejected(accepts, h[0])
    ensures PassesVia(accepts, [s] + h)
  {
    var g := [s] + h;
    forall j: nat | j < |g| - 1 ensures PassAt(accepts, g, j) {
      if j > 0 {
        assert PassAt(accepts, h, j - 1);
        assert g[j] == h[j - 1] && g[j + 1] == h[j];
      }
    }
  }

  /** The minimizer on any input and any deterministic verdict: what is left embeds in the input,
      is accepted when the input was, and no aligned block of any size, down to one byte, can be
      deleted from it. It is reached over stage 0 and the first passes, at least one, after which
      this is so; and each of these stages made of each block, symbol and byte what the verdict on
      the buffer of that moment says. */
  lemma MinimizedCorrect(accepts: Oracle, s: seq<byte>)
    ensures Embeds(Minimized(accepts, s), s)
    ensures accepts(s) ==> accepts(Minimized(accepts, s))
    ensures Minimized(accepts, s) != s ==> accepts(Minimized(accepts, s))
    ensures Weight(Minimized(accepts, s)) <= Weight(s)
    ensures BlocksRejected(accepts, Minimized(accepts, s))
    ensures OneMinimal(accepts, Minimized(accepts, s))
    ensures exists j, h :: LeftBy(accepts, s, j, h, Minimized(accepts, s))
  {
    var b := NormalizedBlocks(accepts, s, 0, SetLen(|s|));
    NormalizedBlocksSimplifies(accepts, s, 0, SetLen(|s|));
    PassesCorrect(accepts, b, true);
    SimplifiesTrans(accepts, Minimized(accepts, s), b, s);
    BlockMinimalIsOneMinimal(accepts, Minimized(accepts, s));
    BlockMinimalExactly(accepts, Minimized(accepts, s));
    var j := BlockLen(|s|);
    BlocksAreTried(accepts, s, SetLen(|s|));
    var h := PassesAreVia(accepts, b, Minimized(accepts, s));
    assert LeftBy(accepts, s, j, h, Minimized(accepts, s));
  }
}
