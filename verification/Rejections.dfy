/** What the stages of the minimizer leave, said about the buffers alone: for every change that a
    stage could have made and did not make, on which buffer it was rejected. */
module Rejections {
  import opened Bytes
  import opened Words
  import opened MinimizerStages

  // ------------------------------------------------------------ characters

  // Every byte became '0' exactly if that was accepted, with the bytes before it as they are left
  // and those behind it as they were.
  ghost predicate CharsTried(accepts: Oracle, r: seq<byte>, t: seq<byte>) {
    |t| == |r| && forall i :: 0 <= i < |r| ==>
      t[i] == if accepts(t[..i] + ['0' as int] + r[i + 1..]) then '0' as int else r[i]
  }

  lemma {:induction false} ZeroedCharsTried(accepts: Oracle, s: seq<byte>, pos: nat, i: nat)
    requires i < |s|
    ensures var t := ZeroedChars(accepts, s, pos);
            if i < pos then t[i] == s[i]
            else t[i] == if accepts(t[..i] + [ZERO_DIGIT] + s[i + 1..]) then ZERO_DIGIT else s[i]
    decreases |s| - pos
  {
    if pos < |s| {
      var c := s[pos := ZERO_DIGIT];
      var u := Try(accepts, s, c);
      ZeroedCharsTried(accepts, u, pos + 1, i);
      var t := ZeroedChars(accepts, u, pos + 1);
      if i == pos {
        ZeroedCharsKeeps(accepts, u, pos + 1);
        assert t[..pos + 1] == u[..pos + 1];
        assert t[..pos] == t[..pos + 1][..pos] == s[..pos] && t[pos] == t[..pos + 1][pos];
        assert c == t[..pos] + [ZERO_DIGIT] + s[pos + 1..];
      } else if i > pos {
        assert u[i + 1..] == s[i + 1..];
      }
    }
  }

  lemma {:induction false} ZeroedCharsKeeps(accepts: Oracle, s: seq<byte>, pos: nat)
    requires pos <= |s|
    ensures ZeroedChars(accepts, s, pos)[..pos] == s[..pos]
    decreases |s| - pos
  {
    if pos < |s| {
      var u := Try(accepts, s, s[pos := ZERO_DIGIT]);
      ZeroedCharsKeeps(accepts, u, pos + 1);
      var t := ZeroedChars(accepts, u, pos + 1);
      assert t[..pos] == t[..pos + 1][..pos] == u[..pos + 1][..pos] == s[..pos];
    }
  }

  lemma CharsAreTried(accepts: Oracle, s: seq<byte>)
    ensures CharsTried(accepts, s, ZeroedChars(accepts, s, 0))
  {
    forall i | 0 <= i < |s|
      ensures var t := ZeroedChars(accepts, s, 0);
              t[i] == if accepts(t[..i] + [ZERO_DIGIT] + s[i + 1..]) then ZERO_DIGIT else s[i]
    {
      ZeroedCharsTried(accepts, s, 0, i);
    }
  }

  // ------------------------------------------------------------ symbols

  // The buffer on which the symbol c of d is tried: the symbols below it are as they are left, c is
  // '0', and the others are as they were.
  function SymbolCandidate(d: seq<byte>, r: seq<byte>, c: int): (m: seq<byte>)
    requires |r| == |d|
    ensures |m| == |d|
  {
    seq(|d|, k requires 0 <= k < |d| => if d[k] < c then r[k] else if d[k] == c then ZERO_DIGIT else d[k])
  }

  // All bytes of a symbol became '0' exactly if that was accepted.
  ghost predicate SymbolsTried(accepts: Oracle, d: seq<byte>, r: seq<byte>) {
    |r| == |d| && forall k: nat | k < |d| :: SymbolTried(accepts, d, r, k)
  }

  ghost predicate SymbolTried(accepts: Oracle, d: seq<byte>, r: seq<byte>, k: nat)
    requires k < |d| == |r|
  {
    forall x | SeeTurn(x) :: r[k] == if accepts(SymbolCandidate(d, r, d[k])) then ZERO_DIGIT else d[k]
  }

  predicate SeeTurn(x: int) { x == 0 }

  // From c on, symbol by symbol; below c, bytes are either '0' or untouched.
  ghost predicate Mixed(d: seq<byte>, s: seq<byte>, c: int) {
    && |s| == |d|
    && (forall k :: 0 <= k < |d| && d[k] >= c ==> s[k] == d[k])
    && (forall k :: 0 <= k < |d| && d[k] < c ==> s[k] == d[k] || s[k] == ZERO_DIGIT)
  }

  lemma {:induction false} RecodedLeaves(accepts: Oracle, d: seq<byte>, s: seq<byte>, sym: nat)
    requires sym <= 256 && Mixed(d, s, sym)
    ensures var r := RecodedSymbols(accepts, s, sym);
            && Mixed(d, r, 256)
            && (forall k :: 0 <= k < |d| && d[k] < sym ==> r[k] == s[k])
    decreases 256 - sym
  {
    if sym < 256 {
      var u := Try(accepts, s, Recoded(s, sym as byte));
      RecodedMixed(d, s, sym, u);
      RecodedLeaves(accepts, d, u, sym + 1);
    }
  }

  lemma RecodedMixed(d: seq<byte>, s: seq<byte>, sym: byte, u: seq<byte>)
    requires Mixed(d, s, sym) && (u == s || u == Recoded(s, sym))
    ensures Mixed(d, u, sym + 1) && forall k :: 0 <= k < |d| && d[k] < sym ==> u[k] == s[k]
  {
    if u != s {
      forall k | 0 <= k < |d| && d[k] < sym ensures u[k] == s[k] {
      }
    }
  }

  // Trying a symbol on the buffer of its moment.
  lemma SymbolTurn(d: seq<byte>, s: seq<byte>, r: seq<byte>, sym: byte)
    requires Mixed(d, s, sym) && |r| == |d| && forall k :: 0 <= k < |d| && d[k] < sym ==> r[k] == s[k]
    ensures Recoded(s, sym) == SymbolCandidate(d, r, sym)
  {
  }

  lemma TriedInTurn(accepts: Oracle, d: seq<byte>, s: seq<byte>, u: seq<byte>, r: seq<byte>, sym: byte, k: nat)
    requires Mixed(d, s, sym) && u == Try(accepts, s, Recoded(s, sym)) && k < |d| == |r| && d[k] == sym
    requires forall j :: 0 <= j < |d| && d[j] < sym + 1 ==> r[j] == u[j]
    ensures SymbolTried(accepts, d, r, k)
  {
    RecodedMixed(d, s, sym, u);
    SymbolTurn(d, s, r, sym);
  }

  lemma RecodedHere(accepts: Oracle, d: seq<byte>, s: seq<byte>, sym: byte, k: nat)
    requires k < |d| && Mixed(d, s, sym) && d[k] == sym
    ensures SymbolTried(accepts, d, RecodedSymbols(accepts, s, sym), k)
  {
    var u := Try(accepts, s, Recoded(s, sym));
    RecodedMixed(d, s, sym, u);
    RecodedLeaves(accepts, d, u, sym + 1);
    TriedInTurn(accepts, d, s, u, RecodedSymbols(accepts, u, sym + 1), sym, k);
  }

  lemma {:induction false} RecodedTried(accepts: Oracle, d: seq<byte>, s: seq<byte>, sym: byte, k: nat)
    requires k < |d| && Mixed(d, s, sym) && d[k] >= sym
    ensures SymbolTried(accepts, d, RecodedSymbols(accepts, s, sym), k)
    decreases 256 - sym
  {
    if d[k] == sym {
      RecodedHere(accepts, d, s, sym, k);
    } else {
      var u := Try(accepts, s, Recoded(s, sym));
      RecodedMixed(d, s, sym, u);
      RecodedTried(accepts, d, u, sym + 1, k);
    }
  }

  lemma SymbolsAreTried(accepts: Oracle, d: seq<byte>)
    ensures SymbolsTried(accepts, d, RecodedSymbols(accepts, d, 0))
  {
    forall k: nat | k < |d| ensures SymbolTried(accepts, d, RecodedSymbols(accepts, d, 0), k) {
      RecodedTried(accepts, d, d, 0, k);
    }
  }

  // ------------------------------------------------------------ blocks of '0's

  // Block by block of n bytes: each became '0's exactly if that was accepted, with the blocks before
  // it as they are left and those behind it as they were.
  ghost predicate BlocksTried(accepts: Oracle, s: seq<byte>, n: nat, b: seq<byte>)
    requires n > 0
  {
    |b| == |s| && forall p: nat | p < |s| && p % n == 0 :: BlockTried(accepts, s, p, n, b)
  }

  ghost predicate BlockTried(accepts: Oracle, s: seq<byte>, p: nat, n: nat, b: seq<byte>)
    requires p < |s| == |b|
  {
    forall x | SeeBlock(x) ::
      var e := Min(p + n, |s|);
      b[p..e] == if accepts(b[..p] + ZeroDigits(e - p) + s[e..]) then ZeroDigits(e - p) else s[p..e]
  }

  predicate SeeBlock(x: int) { x == 0 }

  lemma {:induction false} NormalizedKeeps(accepts: Oracle, s: seq<byte>, pos: nat, n: nat, head: nat)
    requires n > 0 && head <= pos && head <= |s|
    ensures NormalizedBlocks(accepts, s, pos, n)[..head] == s[..head]
    decreases |s| - pos
  {
    if pos < |s| {
      var u := Try(accepts, s, Zeroed(s, pos, Min(n, |s| - pos)));
      assert u[..head] == s[..head];
      NormalizedKeeps(accepts, u, pos + n, n, head);
    }
  }

  // One turn, seen from a buffer b that agrees with what it left up to the end of the block.
  lemma BlockTurn(accepts: Oracle, s: seq<byte>, pos: nat, n: nat, e: nat, u: seq<byte>, b: seq<byte>)
    requires pos < |s| == |b| && e == Min(pos + n, |s|) && u == Try(accepts, s, Zeroed(s, pos, e - pos))
    requires b[..e] == u[..e]
    ensures BlockTried(accepts, s, pos, n, b)
  {
    assert b[..pos] == b[..e][..pos] == u[..pos] == s[..pos];
    assert b[pos..e] == b[..e][pos..] == u[pos..e];
    assert Zeroed(s, pos, e - pos) == s[..pos] + ZeroDigits(e - pos) + s[e..];
    assert Zeroed(s, pos, e - pos)[pos..e] == ZeroDigits(e - pos);
  }

  // Whole blocks lie between pos and p.
  ghost predicate Aligned(p: nat, pos: nat, n: nat)
    requires n > 0
  {
    p >= pos && forall x | SeeWhole(x) :: (p - pos) % n == 0
  }

  predicate SeeWhole(x: int) { x == 0 }

  lemma Farther(p: nat, pos: nat, n: nat)
    requires n > 0 && Aligned(p, pos, n) && p != pos
    ensures Aligned(p, pos + n, n)
  {
    assert SeeWhole(0);
    var m := p - pos;
    assert m == n * (m / n);
    assert m / n > 0;
    Distributes(n, m / n, 1);
    AtLeast(n, m / n);
    MultipleOf(m / n - 1, n);
  }

  lemma Nearer(p: nat, pos: nat, n: nat)
    requires n > 0 && Aligned(p, pos + n, n)
    ensures Aligned(p, pos, n)
  {
    assert SeeWhole(0);
    var m := p - (pos + n);
    assert m == n * (m / n);
    Distributes(n, m / n, -1);
    MultipleOf(m / n + 1, n);
  }

  lemma AlignedIs(p: nat, n: nat)
    requires n > 0
    ensures Aligned(p, 0, n) <==> p % n == 0
  {
    assert SeeWhole(0);
  }

  lemma MultipleOf(q: nat, n: nat)
    requires n > 0
    ensures n * q % n == 0
  {
    var d := n * q / n;
    assert n * q == n * d + n * q % n;
    Distributes(n, q, d);
    SmallMultiple(n, q - d);
  }

  // What is tried at p does not depend on a buffer that differs only before p.
  lemma BlockElsewhere(accepts: Oracle, s: seq<byte>, u: seq<byte>, p: nat, n: nat, b: seq<byte>)
    requires p < |s| == |u| == |b| && u[p..] == s[p..] && BlockTried(accepts, u, p, n, b)
    ensures BlockTried(accepts, s, p, n, b)
  {
    assert SeeBlock(0);
    var e := Min(p + n, |s|);
    assert u[e..] == u[p..][e - p..] && s[e..] == s[p..][e - p..];
    assert u[p..e] == u[p..][..e - p] && s[p..e] == s[p..][..e - p];
  }

  lemma TurnKeepsTail(accepts: Oracle, s: seq<byte>, pos: nat, e: nat, p: nat)
    requires pos <= e <= p <= |s|
    ensures Try(accepts, s, Zeroed(s, pos, e - pos))[p..] == s[p..]
  {
  }

  // The buffer after the turn of the block at pos.
  function AfterTurn(accepts: Oracle, s: seq<byte>, pos: nat, n: nat): (u: seq<byte>)
    requires pos < |s|
    ensures |u| == |s|
  {
    Try(accepts, s, Zeroed(s, pos, Min(n, |s| - pos)))
  }

  lemma NormalizedHere(accepts: Oracle, s: seq<byte>, pos: nat, n: nat, u: seq<byte>, b: seq<byte>)
    requires n > 0 && pos < |s| && u == AfterTurn(accepts, s, pos, n)
    requires NormalizesTo(accepts, u, pos + n, n, b)
    ensures |b| == |s| && BlockTried(accepts, s, pos, n, b)
  {
    var e := Min(pos + n, |s|);
    AfterTurnIs(accepts, s, pos, n, e);
    NormalizedHead(accepts, u, pos + n, n, e, b);
    BlockTurn(accepts, s, pos, n, e, u, b);
  }

  lemma AfterTurnIs(accepts: Oracle, s: seq<byte>, pos: nat, n: nat, e: nat)
    requires pos < |s| && e == Min(pos + n, |s|)
    ensures AfterTurn(accepts, s, pos, n) == Try(accepts, s, Zeroed(s, pos, e - pos))
  {
    assert e - pos == Min(n, |s| - pos);
  }

  lemma NormalizedHead(accepts: Oracle, u: seq<byte>, pos: nat, n: nat, e: nat, b: seq<byte>)
    requires NormalizesTo(accepts, u, pos, n, b) && e <= pos && e <= |u|
    ensures |b| == |u| && b[..e] == u[..e]
  {
    assert Peek(0);
    NormalizedKeeps(accepts, u, pos, n, e);
  }

  lemma NormalizedLater(accepts: Oracle, s: seq<byte>, pos: nat, n: nat, p: nat, b: seq<byte>)
    requires pos + n <= p < |s| == |b| && BlockTried(accepts, AfterTurn(accepts, s, pos, n), p, n, b)
    ensures BlockTried(accepts, s, p, n, b)
  {
    TurnKeepsTail(accepts, s, pos, pos + n, p);
    BlockElsewhere(accepts, s, AfterTurn(accepts, s, pos, n), p, n, b);
  }

  lemma TurnLeads(accepts: Oracle, s: seq<byte>, pos: nat, n: nat, b: seq<byte>) returns (u: seq<byte>)
    requires pos < |s| && NormalizesTo(accepts, s, pos, n, b)
    ensures u == AfterTurn(accepts, s, pos, n) && NormalizesTo(accepts, u, pos + n, n, b)
  {
    u := AfterTurn(accepts, s, pos, n);
    NormalizeStep(accepts, s, pos, n, u, b);
  }

  lemma {:induction false} NormalizedTried(accepts: Oracle, s: seq<byte>, pos: nat, n: nat, p: nat, b: seq<byte>)
    requires p < |s| && NormalizesTo(accepts, s, pos, n, b) && Aligned(p, pos, n)
    ensures |b| == |s| && BlockTried(accepts, s, p, n, b)
    decreases |s| - pos
  {
    var u := TurnLeads(accepts, s, pos, n, b);
    if p == pos {
      NormalizedHere(accepts, s, pos, n, u, b);
    } else {
      Farther(p, pos, n);
      NormalizedTried(accepts, u, pos + n, n, p, b);
      NormalizedLater(accepts, s, pos, n, p, b);
    }
  }

  lemma BlocksAreTried(accepts: Oracle, s: seq<byte>, n: nat)
    requires n > 0
    ensures BlocksTried(accepts, s, n, NormalizedBlocks(accepts, s, 0, n))
  {
    forall p: nat | p < |s| && p % n == 0 ensures BlockTried(accepts, s, p, n, NormalizedBlocks(accepts, s, 0, n)) {
      assert Aligned(p, 0, n);
      NormalizedTried(accepts, s, 0, n, p, NormalizedBlocks(accepts, s, 0, n));
    }
  }

  // ------------------------------------------------------------ deleted blocks

  // The block at p of t, which lay at q of s, was rejected when everything before it was as it is
  // left and everything from it on was as it had been.
  ghost predicate KeptFrom(accepts: Oracle, s: seq<byte>, t: seq<byte>, p: nat, n: nat, q: nat) {
    && p < |t| && p <= q < |s|
    && t[p..Min(p + n, |t|)] == s[q..Min(q + n, |s|)]
    && !accepts(t[..p] + s[Min(q + n, |s|)..])
  }

  lemma {:induction false} SweepKeepsHead(accepts: Oracle, s: seq<byte>, pos: nat, n: nat, head: nat)
    requires n > 0 && head <= pos && head <= |s|
    ensures var t := DeletedBlocks(accepts, s, pos, n); head <= |t| && t[..head] == s[..head]
    decreases |s| - pos
  {
    if pos < |s| {
      var w := Without(s, pos, n);
      if accepts(w) {
        assert w[..head] == s[..head];
        SweepKeepsHead(accepts, w, pos, n, head);
      } else {
        SweepKeepsHead(accepts, s, pos + n, n, head);
      }
    }
  }

  // After a rejection the block stays.
  lemma SweepRejectsHere(accepts: Oracle, s: seq<byte>, pos: nat, n: nat)
    requires n > 0 && pos < |s| && !accepts(Without(s, pos, n))
    ensures KeptFrom(accepts, s, DeletedBlocks(accepts, s, pos, n), pos, n, pos)
  {
    var t, e := DeletedBlocks(accepts, s, pos, n), Min(pos + n, |s|);
    SweepKeepsHead(accepts, s, pos + n, n, e);
    assert t[..pos] == t[..e][..pos] == s[..pos];
    assert t[pos..e] == t[..e][pos..] == s[pos..e];
  }

  // The same block, seen in the buffer before an earlier one was cut out.
  lemma KeptBefore(accepts: Oracle, s: seq<byte>, pos: nat, n: nat, t: seq<byte>, p: nat, r: nat, q: nat)
    requires pos < |s| && pos <= p && n > 0
    requires var w := Without(s, pos, n); KeptFrom(accepts, w, t, p, n, r) && q == r + (|s| - |w|)
    ensures KeptFrom(accepts, s, t, p, n, q)
  {
    var w := Without(s, pos, n);
    var cut, m := |s| - |w|, Min(r + n, |w|);
    CutTail(s, w, pos, n, m, cut);
    CutPart(s, w, pos, n, r, m, cut);
  }

  lemma CutTail(s: seq<byte>, w: seq<byte>, pos: nat, n: nat, r: nat, cut: nat)
    requires pos < |s| && w == Without(s, pos, n) && cut == |s| - |w| && pos <= r <= |w|
    ensures w[r..] == s[r + cut..]
  {
  }

  lemma CutPart(s: seq<byte>, w: seq<byte>, pos: nat, n: nat, r: nat, m: nat, cut: nat)
    requires pos < |s| && w == Without(s, pos, n) && cut == |s| - |w| && pos <= r <= m <= |w|
    ensures w[r..m] == s[r + cut..m + cut]
  {
    CutTail(s, w, pos, n, r, cut);
    assert w[r..m] == w[r..][..m - r];
    assert s[r + cut..m + cut] == s[r + cut..][..m - r];
  }

  lemma {:induction false} SweepRejects(accepts: Oracle, s: seq<byte>, pos: nat, n: nat, p: nat) returns (q: nat)
    requires n > 0 && p < |DeletedBlocks(accepts, s, pos, n)| && Aligned(p, pos, n)
    ensures KeptFrom(accepts, s, DeletedBlocks(accepts, s, pos, n), p, n, q)
    decreases |s| - pos
  {
    var w := Without(s, pos, n);
    if accepts(w) {
      var r := SweepRejects(accepts, w, pos, n, p);
      q := r + (|s| - |w|);
      KeptBefore(accepts, s, pos, n, DeletedBlocks(accepts, w, pos, n), p, r, q);
    } else if p == pos {
      SweepRejectsHere(accepts, s, pos, n);
      q := pos;
    } else {
      Farther(p, pos, n);
      q := SweepRejects(accepts, s, pos + n, n, p);
    }
  }
}
