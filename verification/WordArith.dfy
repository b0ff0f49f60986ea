/** The arithmetic on words of two and four bytes: what its stages run, and which of their
    candidates neither they nor an earlier stage runs. */
module WordArith {
  import opened Bytes
  import opened Bits
  import opened Words
  import opened Flips
  import opened Counting
  import opened Deterministic
  import opened Stages
  import opened WordFlips

  // ---- The candidates ----

  /** By how much a word is changed, in which direction, and in which byte order. */
  datatype Kind = Kind(amount: nat, up: bool, big: bool)

  function Delta(k: Kind): int {
    if k.up then k.amount else 0 - k.amount
  }

  function Candidate(s: seq<byte>, i: nat, w: nat, k: Kind): (now: seq<byte>)
    requires i + w <= |s|
    ensures |now| == w
  {
    Adjusted(s[i..i + w], Delta(k), k.big)
  }

  /** The change of the word, as the filter sees it. */
  function WordDiff(s: seq<byte>, i: nat, now: seq<byte>): nat
    requires i + |now| <= |s|
  {
    Xor(Word(s[i..i + |now|]), Word(now))
  }

  /** Whether the change goes beyond the lower half of the word. */
  predicate Overflows(s: seq<byte>, i: nat, w: nat, k: Kind)
    requires i + w <= |s|
  {
    Carries(Oriented(s[i..i + w], k.big), w / 2, Delta(k))
  }

  ghost predicate Tries(s: seq<byte>, i: nat, w: nat, k: Kind)
    requires i + w <= |s|
  {
    Overflows(s, i, w, k) && !CouldBeFlip(WordDiff(s, i, Candidate(s, i, w, k)))
  }

  // ---- The runs of a stage ----

  ghost function TryRun(s: seq<byte>, i: nat, w: nat, k: Kind): seq<seq<byte>>
    requires i + w <= |s|
  {
    if Tries(s, i, w, k) then [Write(s, i, Candidate(s, i, w, k))] else []
  }

  ghost function TryRuns(s: seq<byte>, i: nat, w: nat): Kind -> seq<seq<byte>>
    requires i + w <= |s|
  {
    (k: Kind) => TryRun(s, i, w, k)
  }

  ghost function RoundRuns(f: Kind -> seq<seq<byte>>, j: nat): seq<seq<byte>> {
    f(Kind(j, true, false)) + f(Kind(j, false, false)) + f(Kind(j, true, true)) + f(Kind(j, false, true))
  }

  ghost function AdjustRuns(f: Kind -> seq<seq<byte>>, n: nat): seq<seq<byte>> {
    if n == 0 then [] else AdjustRuns(f, n - 1) + RoundRuns(f, n)
  }

  ghost predicate IsRow(s: seq<byte>, eff: seq<bool>, w: nat, max: nat, i: nat, row: seq<seq<byte>>) {
    forall x | SeeRow(x) ::
      row == if i + w <= |s| && Effective(eff, i, w) then AdjustRuns(TryRuns(s, i, w), max) else []
  }

  predicate SeeRow(x: int) { x == 0 }

  /** What is run at one offset, known outside only by `RowIs`. */
  ghost function Row(s: seq<byte>, eff: seq<bool>, w: nat, max: nat, i: nat): seq<seq<byte>> {
    assert IsRow(s, eff, w, max, i,
                 if i + w <= |s| && Effective(eff, i, w) then AdjustRuns(TryRuns(s, i, w), max) else []);
    var row :| IsRow(s, eff, w, max, i, row);
    row
  }

  lemma RowIs(s: seq<byte>, eff: seq<bool>, w: nat, max: nat, i: nat)
    ensures Row(s, eff, w, max, i)
         == if i + w <= |s| && Effective(eff, i, w) then AdjustRuns(TryRuns(s, i, w), max) else []
  {
    assert SeeRow(0);
  }

  ghost function Rows(s: seq<byte>, eff: seq<bool>, w: nat, max: nat, n: nat): seq<seq<byte>> {
    if n == 0 then [] else Rows(s, eff, w, max, n - 1) + Row(s, eff, w, max, n - 1)
  }

  ghost function ArithStage(s: seq<byte>, eff: seq<bool>, w: nat, max: nat): seq<seq<byte>> {
    Rows(s, eff, w, max, if |s| < w then 0 else |s| - w + 1)
  }

  // ---- The stage ----

  /** The buffer holds `s`, except perhaps in the word at `i`. */
  ghost predicate OnlyWord(out: array<byte>, s: seq<byte>, i: nat, w: nat)
    reads out
  {
    i + w <= |s| == out.Length && out[..i] == s[..i] && out[i + w..] == s[i + w..]
  }

  method PutWord(out: array<byte>, i: nat, now: seq<byte>, ghost s: seq<byte>)
    requires OnlyWord(out, s, i, |now|)
    modifies out
    ensures out[..] == Write(s, i, now) && OnlyWord(out, s, i, |now|)
  {
    PutBytes(out, i, now);
  }

  lemma FilterInRange(a: seq<byte>, b: seq<byte>)
    requires |a| == |b| <= 4
    ensures Xor(Word(a), Word(b)) < 0x1_0000_0000
  {
    WordBound(a);
    WordBound(b);
    PowGrows(8 * |a|, 32);
    LongPowers();
    XorBound(Word(a), Word(b), 32);
  }

  method TryKind(out: array<byte>, i: nat, w: nat, k: Kind, orig: seq<byte>, target: Target, ghost s: seq<byte>)
    requires w <= 4 && OnlyWord(out, s, i, w) && orig == s[i..i + w]
    modifies out, target
    ensures OnlyWord(out, s, i, w)
    ensures Ran(target.runs, old(target.runs), TryRun(s, i, w, k))
  {
    var now := Adjusted(orig, Delta(k), k.big);
    var tries := ToBeTried(orig, now, w, k, s, i);
    if tries {
      RunWord(out, i, now, target, s);
    } else {
      RanNothing(target.runs);
    }
  }

  method ToBeTried(orig: seq<byte>, now: seq<byte>, w: nat, k: Kind, ghost s: seq<byte>, ghost i: nat)
      returns (yes: bool)
    requires w <= 4 && i + w <= |s| && orig == s[i..i + w] && now == Candidate(s, i, w, k)
    ensures yes == Tries(s, i, w, k)
  {
    var flip := FilterWord(orig, now);
    yes := Carries(Oriented(orig, k.big), w / 2, Delta(k)) && !flip;
  }

  method RunWord(out: array<byte>, i: nat, now: seq<byte>, target: Target, ghost s: seq<byte>)
    requires OnlyWord(out, s, i, |now|)
    modifies out, target
    ensures OnlyWord(out, s, i, |now|)
    ensures Ran(target.runs, old(target.runs), [Write(s, i, now)])
  {
    PutWord(out, i, now, s);
    target.Run(out);
  }

  method FilterWord(was: seq<byte>, now: seq<byte>) returns (flip: bool)
    requires |was| == |now| <= 4
    ensures flip == CouldBeFlip(Xor(Word(was), Word(now)))
  {
    FilterInRange(was, now);
    flip := CouldBeBitflip(Xor(Word(was), Word(now)));
  }

  method AdjustRound(out: array<byte>, i: nat, w: nat, j: nat, orig: seq<byte>, target: Target, ghost s: seq<byte>)
    requires w <= 4 && i + w <= |s| && out[..] == s && orig == s[i..i + w]
    modifies out, target
    ensures out[..] == s
    ensures Ran(target.runs, old(target.runs), RoundRuns(TryRuns(s, i, w), j))
  {
    ghost var r0 := target.runs;
    TryKind(out, i, w, Kind(j, true, false), orig, target, s);
    ghost var r1 := target.runs;
    TryKind(out, i, w, Kind(j, false, false), orig, target, s);
    ghost var r2 := target.runs;
    TryKind(out, i, w, Kind(j, true, true), orig, target, s);
    ghost var r3 := target.runs;
    TryKind(out, i, w, Kind(j, false, true), orig, target, s);
    RanFour(r0, TryRun(s, i, w, Kind(j, true, false)), r1, TryRun(s, i, w, Kind(j, false, false)), r2,
            TryRun(s, i, w, Kind(j, true, true)), r3, TryRun(s, i, w, Kind(j, false, true)), target.runs);
    PutWord(out, i, orig, s);
    assert Write(s, i, orig) == s;
  }

  lemma RanFour(r0: seq<seq<byte>>, a: seq<seq<byte>>, r1: seq<seq<byte>>, b: seq<seq<byte>>, r2: seq<seq<byte>>,
                c: seq<seq<byte>>, r3: seq<seq<byte>>, d: seq<seq<byte>>, r4: seq<seq<byte>>)
    requires Ran(r1, r0, a) && Ran(r2, r1, b) && Ran(r3, r2, c) && Ran(r4, r3, d)
    ensures Ran(r4, r0, a + b + c + d)
  {
    RanThen(r0, a, r1, b, r2);
    RanThen(r0, a + b, r2, c, r3);
    RanThen(r0, a + b + c, r3, d, r4);
  }

  method AdjustAt(out: array<byte>, i: nat, w: nat, max: nat, target: Target, ghost s: seq<byte>)
    requires w <= 4 && i + w <= |s| && out[..] == s
    modifies out, target
    ensures out[..] == s
    ensures Ran(target.runs, old(target.runs), AdjustRuns(TryRuns(s, i, w), max))
  {
    ghost var before := target.runs;
    var orig := out[i..i + w];
    RanNothing(before);
    for j := 1 to max + 1
      invariant out[..] == s
      invariant Ran(target.runs, before, AdjustRuns(TryRuns(s, i, w), j - 1))
    {
      ghost var runs := target.runs;
      AdjustRound(out, i, w, j, orig, target, s);
      RanThen(before, AdjustRuns(TryRuns(s, i, w), j - 1), runs, RoundRuns(TryRuns(s, i, w), j), target.runs);
    }
  }

  /** The stage runs exactly the described buffers and puts the input back. */
  method ArithWords(out: array<byte>, eff: seq<bool>, w: nat, max: nat, target: Target)
    requires 1 <= w <= 4 && Covers(eff, out[..])
    modifies out, target
    ensures out[..] == old(out[..])
    ensures target.runs == old(target.runs) + ArithStage(out[..], eff, w, max)
  {
    if out.Length < w {
      return;
    }
    ghost var s, before := out[..], target.runs;
    RanNothing(before);
    for i := 0 to out.Length - w + 1
      invariant out[..] == s
      invariant Ran(target.runs, before, Rows(s, eff, w, max, i))
    {
      ghost var runs := target.runs;
      ArithOffset(out, eff, i, w, max, target, s);
      RanThen(before, Rows(s, eff, w, max, i), runs, Row(s, eff, w, max, i), target.runs);
    }
    RanAll(target.runs, before, ArithStage(s, eff, w, max));
  }

  method ArithOffset(out: array<byte>, eff: seq<bool>, i: nat, w: nat, max: nat, target: Target, ghost s: seq<byte>)
    requires 1 <= w <= 4 && i + w <= |s| && Covers(eff, s) && out[..] == s
    modifies out, target
    ensures out[..] == s
    ensures Ran(target.runs, old(target.runs), Row(s, eff, w, max, i))
  {
    RowIs(s, eff, w, max, i);
    var effective := TestEffective(eff, i, w);
    if effective {
      AdjustAt(out, i, w, max, target, s);
    } else {
      RanNothing(target.runs);
    }
  }

  // ---- What is in a stage ----

  /** One of the runs is made at `i`; kept folded. */
  ghost predicate Made(s: seq<byte>, eff: seq<bool>, w: nat, max: nat, y: seq<byte>, i: nat, k: Kind) {
    && i + w <= |s|
    && forall x | SeeMade(x) :: 1 <= k.amount <= max && Effective(eff, i, w) && y in TryRuns(s, i, w)(k)
  }

  predicate SeeMade(x: int) { x == 0 }

  lemma MadeIs(s: seq<byte>, eff: seq<bool>, w: nat, max: nat, y: seq<byte>, i: nat, k: Kind)
    ensures Made(s, eff, w, max, y, i, k) <==>
            && i + w <= |s| && 1 <= k.amount <= max && Effective(eff, i, w) && Tries(s, i, w, k)
            && y == Write(s, i, Candidate(s, i, w, k))
  {
    assert SeeMade(0);
  }

  lemma {:induction false} AdjustTakes(f: Kind -> seq<seq<byte>>, n: nat, k: Kind, y: seq<byte>)
    requires 1 <= k.amount <= n && y in f(k)
    ensures y in AdjustRuns(f, n)
  {
    if k.amount == n {
      assert k == Kind(n, k.up, k.big) && y in RoundRuns(f, n);
    } else {
      AdjustTakes(f, n - 1, k, y);
    }
  }

  lemma {:induction false} AdjustHas(f: Kind -> seq<seq<byte>>, n: nat, y: seq<byte>) returns (k: Kind)
    requires y in AdjustRuns(f, n)
    ensures 1 <= k.amount <= n && y in f(k)
  {
    if y in RoundRuns(f, n) {
      var up, big :| y in f(Kind(n, up, big));
      k := Kind(n, up, big);
    } else {
      k := AdjustHas(f, n - 1, y);
    }
  }

  lemma {:induction false} RowsTake(s: seq<byte>, eff: seq<bool>, w: nat, max: nat, n: nat, i: nat, y: seq<byte>)
    requires i < n && y in Row(s, eff, w, max, i)
    ensures y in Rows(s, eff, w, max, n)
  {
    if i < n - 1 {
      RowsTake(s, eff, w, max, n - 1, i, y);
    }
  }

  lemma {:induction false} RowsHave(s: seq<byte>, eff: seq<bool>, w: nat, max: nat, n: nat, y: seq<byte>)
      returns (i: nat)
    requires y in Rows(s, eff, w, max, n)
    ensures i < n && y in Row(s, eff, w, max, i)
  {
    if y in Row(s, eff, w, max, n - 1) {
      i := n - 1;
    } else {
      i := RowsHave(s, eff, w, max, n - 1, y);
    }
  }

  lemma MadeInRow(s: seq<byte>, eff: seq<bool>, w: nat, max: nat, y: seq<byte>, i: nat, k: Kind)
    requires Made(s, eff, w, max, y, i, k)
    ensures y in Row(s, eff, w, max, i) && i < |s| - w + 1
  {
    assert SeeMade(0);
    RowIs(s, eff, w, max, i);
    AdjustTakes(TryRuns(s, i, w), max, k, y);
  }

  lemma RowIsMade(s: seq<byte>, eff: seq<bool>, w: nat, max: nat, y: seq<byte>, i: nat) returns (k: Kind)
    requires y in Row(s, eff, w, max, i)
    ensures Made(s, eff, w, max, y, i, k)
  {
    RowIs(s, eff, w, max, i);
    k := AdjustHas(TryRuns(s, i, w), max, y);
  }

  lemma StageTakes(s: seq<byte>, eff: seq<bool>, w: nat, max: nat, y: seq<byte>, i: nat, k: Kind)
    requires Made(s, eff, w, max, y, i, k)
    ensures y in ArithStage(s, eff, w, max)
  {
    MadeInRow(s, eff, w, max, y, i, k);
    RowsTake(s, eff, w, max, |s| - w + 1, i, y);
  }

  lemma StageHas(s: seq<byte>, eff: seq<bool>, w: nat, max: nat, y: seq<byte>) returns (i: nat, k: Kind)
    requires y in ArithStage(s, eff, w, max)
    ensures Made(s, eff, w, max, y, i, k)
  {
    i := RowsHave(s, eff, w, max, if |s| < w then 0 else |s| - w + 1, y);
    k := RowIsMade(s, eff, w, max, y, i);
  }

  // ---- What a candidate changes ----

  /** Where the `q`-th lowest byte of a word of `w` bytes lies in it. */
  function Place(w: nat, big: bool, q: nat): nat
    requires q < w
  {
    if big then w - 1 - q else q
  }

  lemma OrientedAt(o: seq<byte>, big: bool, q: nat)
    requires q < |o|
    ensures Oriented(o, big)[q] == o[Place(|o|, big, q)]
  {
  }

  lemma PowOne()
    ensures Pow256(1) == 256 && Pow256(2) == 65536
  {
    assert Pow256(0) == 1;
  }

  lemma WordOfOne(o: seq<byte>)
    requires |o| == 1
    ensures Word(o) == o[0]
  {
    assert Word(o[1..]) == 0;
  }

  lemma OneByteOf(n: nat)
    requires n < 256
    ensures BytesOf(n, 1) == [n]
  {
    assert BytesOf(n / 256, 0) == [];
  }

  predicate SmallStep(delta: int) {
    delta != 0 && -127 <= delta <= 127
  }

  lemma WrapByte(b: byte, delta: int)
    requires SmallStep(delta)
    ensures (b + delta) % 256 == U8(b + delta) != b
  {
  }

  ghost predicate IsPlus(o: seq<byte>, delta: int, r: seq<byte>) {
    forall x | SeePlus(x) :: r == BytesOf((Word(o) + delta) % Pow256(|o|), |o|)
  }

  predicate SeePlus(x: int) { x == 0 }

  /** The bytes of the sum, low ones first, known outside only by the lemmas below. */
  ghost function Plus(o: seq<byte>, delta: int): (r: seq<byte>)
    ensures |r| == |o|
  {
    assert IsPlus(o, delta, BytesOf((Word(o) + delta) % Pow256(|o|), |o|));
    var r :| IsPlus(o, delta, r) && |r| == |o|;
    r
  }

  lemma PlusIs(o: seq<byte>, delta: int)
    ensures Plus(o, delta) == BytesOf((Word(o) + delta) % Pow256(|o|), |o|)
  {
    assert SeePlus(0);
  }

  /** The lowest byte always changes, and by how much. */
  lemma LowestChanges(o: seq<byte>, delta: int)
    requires o != [] && SmallStep(delta)
    ensures Plus(o, delta)[0] == U8(o[0] + delta) != o[0]
  {
    PlusIs(o, delta);
    PowOne();
    WrapByte(o[0], delta);
    WordOfOne(o[..1]);
    OneByteOf((o[0] + delta) % 256);
    SumBytes(o, 1, delta);
  }

  lemma CarryChanges(o: seq<byte>, h: nat, delta: int)
    requires 1 <= h < |o| && SmallStep(delta) && Carries(o, h, delta)
    ensures Plus(o, delta)[h] != o[h]
  {
    PowIsLarge(h);
    SumBytes(o, h, delta);
    PlusIs(o, delta);
    PlusIs(o[h..], Carried(delta));
    LowestChanges(o[h..], Carried(delta));
  }

  lemma NoCarryChanges(o: seq<byte>, h: nat, delta: int)
    requires 1 <= h <= |o| && SmallStep(delta) && !Carries(o, h, delta)
    ensures Plus(o, delta) == Plus(o[..h], delta) + o[h..]
  {
    PowIsLarge(h);
    NoCarryKeeps(o, h, delta);
    PlusIs(o, delta);
    PlusIs(o[..h], delta);
  }

  lemma {:induction false} PowIsLarge(h: nat)
    requires h >= 1
    ensures Pow256(h) >= 256
  {
    if h > 1 {
      PowIsLarge(h - 1);
    }
  }

  predicate Small(k: Kind) {
    1 <= k.amount <= 127
  }

  /** The bytes of a candidate, low ones first, are those of the sum. */
  lemma CandidateByte(s: seq<byte>, i: nat, w: nat, k: Kind, q: nat)
    requires i + w <= |s| && q < w
    ensures var o := Oriented(s[i..i + w], k.big);
            && o[q] == s[i + Place(w, k.big, q)]
            && Candidate(s, i, w, k)[Place(w, k.big, q)] == Plus(o, Delta(k))[q]
  {
    OrientedAt(s[i..i + w], k.big, q);
    AdjustedAt(s[i..i + w], Delta(k), k.big, q);
  }

  lemma AdjustedAt(was: seq<byte>, delta: int, big: bool, q: nat)
    requires q < |was|
    ensures Adjusted(was, delta, big)[Place(|was|, big, q)] == Plus(Oriented(was, big), delta)[q]
  {
    PlusIs(Oriented(was, big), delta);
    OrientedThere(Plus(Oriented(was, big), delta), big, q);
  }

  lemma OrientedThere(r: seq<byte>, big: bool, q: nat)
    requires q < |r|
    ensures Oriented(r, big)[Place(|r|, big, q)] == r[q]
  {
  }

  /** The lowest byte changes; the one above the lower half changes exactly with a carry. */
  lemma CandidateChanges(s: seq<byte>, i: nat, w: nat, k: Kind)
    requires i + w <= |s| && w in {2, 4} && Small(k)
    ensures var now, p := Candidate(s, i, w, k), Place(w, k.big, 0);
            now[p] == U8(s[i + p] + Delta(k)) != s[i + p]
    ensures Overflows(s, i, w, k) ==>
              Candidate(s, i, w, k)[Place(w, k.big, w / 2)] != s[i + Place(w, k.big, w / 2)]
  {
    var o := Oriented(s[i..i + w], k.big);
    CandidateByte(s, i, w, k, 0);
    CandidateByte(s, i, w, k, w / 2);
    LowestChanges(o, Delta(k));
    if Overflows(s, i, w, k) {
      CarryChanges(o, w / 2, Delta(k));
    }
  }

  lemma CandidateKeeps(s: seq<byte>, i: nat, w: nat, k: Kind, q: nat)
    requires i + w <= |s| && w in {2, 4} && Small(k) && !Overflows(s, i, w, k) && w / 2 <= q < w
    ensures Candidate(s, i, w, k)[Place(w, k.big, q)] == s[i + Place(w, k.big, q)]
  {
    CandidateByte(s, i, w, k, q);
    NoCarryChanges(Oriented(s[i..i + w], k.big), w / 2, Delta(k));
  }

  // ---- Which buffers are run ----

  ghost function Through16(c: Tuning, s: seq<byte>, eff: seq<bool>): seq<seq<byte>>
    requires s != [] && Covers(eff, s) && Sound(c)
  {
    EveryFlip(s, eff) + ByteStage(s, Arith8Values(c, s, eff)) + ArithStage(s, eff, 2, c.arithMax)
  }

  /** A run of the stage changes the lowest byte of its word, the one above the lower half, and
      nothing outside of the word. */
  lemma MadeChanges(s: seq<byte>, eff: seq<bool>, w: nat, max: nat, y: seq<byte>, i: nat, k: Kind)
    requires Made(s, eff, w, max, y, i, k) && w in {2, 4} && max <= 127
    ensures |y| == |s| && i + w <= |s| && forall p | 0 <= p < |s| && !(i <= p < i + w) :: y[p] == s[p]
    ensures y[i + Place(w, k.big, 0)] != s[i + Place(w, k.big, 0)]
    ensures y[i + Place(w, k.big, w / 2)] != s[i + Place(w, k.big, w / 2)]
  {
    MadeIs(s, eff, w, max, y, i, k);
    CandidateChanges(s, i, w, k);
  }

  lemma SingleIsNotMade(s: seq<byte>, eff: seq<bool>, w: nat, max: nat, p: nat, v: byte)
    requires p < |s| && w in {2, 4} && max <= 127
    ensures s[p := v] !in ArithStage(s, eff, w, max)
  {
    if s[p := v] in ArithStage(s, eff, w, max) {
      var i, k := StageHas(s, eff, w, max, s[p := v]);
      MadeChanges(s, eff, w, max, s[p := v], i, k);
    }
  }

  lemma SingleIsNoBlock(s: seq<byte>, eff: seq<bool>, w: nat, p: nat, v: byte)
    requires p < |s| && w >= 2
    ensures s[p := v] !in BlockStage(s, eff, w)
  {
    if |s| >= w {
      var y := s[p := v];
      InBlockRuns(s, eff, w, |s| - w + 1, y);
      if j: nat :| j < |s| - w + 1 && InvertedAt(s, y, w, j) {
        BlockChanges(s, w, j, 0);
        BlockChanges(s, w, j, 1);
      }
    }
  }

  lemma BlockChanges(s: seq<byte>, w: nat, j: nat, q: nat)
    requires j + w <= |s| && q < w
    ensures Xored(s, j, Ones(w))[j + q] != s[j + q]
  {
    ByteSolves(s[j + q], 255, s[j + q]);
    ByteSame(s[j + q]);
  }

  /** A change of one byte is run exactly if it is a flip, or within reach where the effector map
      says that the byte is worth it. */
  lemma SingleThrough16(c: Tuning, s: seq<byte>, eff: seq<bool>, p: nat, v: byte)
    requires p < |s| && v != s[p] && Covers(eff, s) && Sound(c)
    ensures s[p := v] in Through16(c, s, eff) <==>
            IsFlip(s[p], v) || (eff[p / 8] && Near(s[p], v, c.arithMax))
  {
    var y := s[p := v];
    FlipsCount(s, p, v);
    CountPositive(AllFlips(s), y);
    SingleIsNoBlock(s, eff, 2, p, v);
    SingleIsNoBlock(s, eff, 4, p, v);
    Arith8Count(c, s, eff, p, v);
    CountPositive(ByteStage(s, Arith8Values(c, s, eff)), y);
    SingleIsNotMade(s, eff, 2, c.arithMax, p, v);
  }

  lemma {:induction false} ByteRunIsSingle(s: seq<byte>, values: seq<seq<byte>>, n: nat, y: seq<byte>)
      returns (p: nat, v: byte)
    requires n <= |s| == |values| && y in ByteRuns(s, values, n)
    ensures p < |s| && y == s[p := v]
  {
    if y in Variants(s, n - 1, values[n - 1]) {
      p := n - 1;
      v := VariantIsSingle(s, n - 1, values[n - 1], y);
    } else {
      p, v := ByteRunIsSingle(s, values, n - 1, y);
    }
  }

  lemma {:induction false} VariantIsSingle(s: seq<byte>, i: nat, values: seq<byte>, y: seq<byte>) returns (v: byte)
    requires i < |s| && y in Variants(s, i, values)
    ensures y == s[i := v]
  {
    var n := |values| - 1;
    if y == s[i := values[n]] {
      v := values[n];
    } else {
      v := VariantIsSingle(s, i, values[..n], y);
    }
  }

  /** A change of both bytes of a word is run exactly if a flip makes it, or the arithmetic on words
      of two bytes tries it there. */
  lemma BothThrough16(c: Tuning, s: seq<byte>, eff: seq<bool>, i: nat, now: seq<byte>)
    requires i + 2 <= |s| && |now| == 2 && now[0] != s[i] && now[1] != s[i + 1] && Covers(eff, s) && Sound(c)
    ensures Write(s, i, now) in Through16(c, s, eff) <==>
            || Write(s, i, now) in EveryFlip(s, eff)
            || exists k: Kind :: Made(s, eff, 2, c.arithMax, Write(s, i, now), i, k)
  {
    var y := Write(s, i, now);
    assert y[i] == now[0] && y[i + 1] == now[1];
    if y in ByteStage(s, Arith8Values(c, s, eff)) {
      var p, v := ByteRunIsSingle(s, Arith8Values(c, s, eff), |s|, y);
      assert false;
    }
    if y in ArithStage(s, eff, 2, c.arithMax) {
      var j, k := StageHas(s, eff, 2, c.arithMax, y);
      MadeChanges(s, eff, 2, c.arithMax, y, j, k);
      assert j == i;
    }
    if k: Kind :| Made(s, eff, 2, c.arithMax, y, i, k) {
      StageTakes(s, eff, 2, c.arithMax, y, i, k);
    }
  }

  // ---- The candidates lost, for words of two bytes ----

  /** Where the lowest byte of the word lies. */
  function LowestAt(i: nat, w: nat, k: Kind): nat
    requires w > 0
  {
    i + Place(w, k.big, 0)
  }

  lemma StaysInByte(s: seq<byte>, i: nat, k: Kind)
    requires i + 2 <= |s| && Small(k) && !Overflows(s, i, 2, k)
    ensures var p := LowestAt(i, 2, k);
            Write(s, i, Candidate(s, i, 2, k)) == s[p := U8(s[p] + Delta(k))]
  {
    CandidateChanges(s, i, 2, k);
    CandidateKeeps(s, i, 2, k, 1);
  }

  lemma {:induction false} LooksTheSame(run: nat, sh: nat, k: nat)
    ensures LooksLikeFlip(run, sh + 8 * k) <==> LooksLikeFlip(run, sh)
  {
    ShiftedByBytes(sh, k);
  }

  lemma FlipElsewhere(d: nat, k: nat)
    requires d > 0
    ensures d * Pow2(8 * k) > 0 && (CouldBeFlip(d * Pow2(8 * k)) <==> CouldBeFlip(d))
  {
    StripTimes(d, 8 * k);
    FlipByShape(d);
    FlipByShape(d * Pow2(8 * k));
    LooksTheSame(Stripped(d), Shift(d), k);
  }

  /** The filter sees a change of one byte of a word as it sees that of the byte. */
  lemma FilterOfOne(s: seq<byte>, i: nat, now: seq<byte>, q: nat)
    requires i + |now| <= |s| && q < |now| && now[q] != s[i + q]
    requires forall r | 0 <= r < |now| && r != q :: now[r] == s[i + r]
    ensures CouldBeFlip(WordDiff(s, i, now)) <==> IsFlip(s[i + q], now[q])
  {
    var was := s[i..i + |now|];
    var d := XorByte(s[i + q], now[q]);
    XorOfWords(was, now);
    ByteSolves(s[i + q], now[q], 0);
    ByteSame(s[i + q]);
    assert Change(was, now) == Padded(q, [d], |now|) by {
      forall r | 0 <= r < |now| ensures Change(was, now)[r] == Padded(q, [d], |now|)[r] {
        ByteSame(was[r]);
      }
    }
    WordPadded(q, [d], |now|);
    WordOf([d]);
    FlipElsewhere(d, q);
  }

  lemma AcrossChangesBoth(s: seq<byte>, i: nat, now: seq<byte>)
    requires i + 2 <= |s| && |now| == 2 && AcrossBytes(WordDiff(s, i, now))
    ensures now[0] != s[i] && now[1] != s[i + 1]
  {
    var was := s[i..i + 2];
    XorOfWords(was, now);
    WordOf(Change(was, now));
    ByteSolves(s[i], 0, now[0]);
    ByteSolves(s[i + 1], 0, now[1]);
    ByteSame(s[i]);
    ByteSame(s[i + 1]);
  }

  lemma NearByStep(was: byte, k: Kind, max: nat)
    requires 1 <= k.amount <= max <= 127
    ensures Near(was, U8(was + Delta(k)), max) && U8(was + Delta(k)) != was
  {
  }

  /** A candidate of the arithmetic on two bytes is run by this or an earlier stage exactly unless
      its change is a run that goes on from one byte into the next one; or it changes its lowest
      byte only, is no flip, and the effector map left out the arithmetic on that byte. */
  lemma Arith16Exact(c: Tuning, s: seq<byte>, eff: seq<bool>, i: nat, k: Kind)
    requires Covers(eff, s) && Sound(c) && i + 2 <= |s| && Effective(eff, i, 2) && 1 <= k.amount <= c.arithMax
    ensures var x := WordDiff(s, i, Candidate(s, i, 2, k));
            Write(s, i, Candidate(s, i, 2, k)) !in Through16(c, s, eff) <==>
            AcrossBytes(x) || (!Overflows(s, i, 2, k) && !CouldBeFlip(x) && !eff[LowestAt(i, 2, k) / 8])
  {
    if Overflows(s, i, 2, k) {
      OverflowThrough16(c, s, eff, i, k);
    } else {
      StayThrough16(c, s, eff, i, k);
    }
  }

  lemma StayThrough16(c: Tuning, s: seq<byte>, eff: seq<bool>, i: nat, k: Kind)
    requires Covers(eff, s) && Sound(c) && i + 2 <= |s| && 1 <= k.amount <= c.arithMax && !Overflows(s, i, 2, k)
    ensures var x := WordDiff(s, i, Candidate(s, i, 2, k));
            !AcrossBytes(x) && (Write(s, i, Candidate(s, i, 2, k)) in Through16(c, s, eff) <==>
                                CouldBeFlip(x) || eff[LowestAt(i, 2, k) / 8])
  {
    StayFilter(s, i, k);
    StayRuns(c, s, eff, i, k);
  }

  lemma StayFilter(s: seq<byte>, i: nat, k: Kind)
    requires i + 2 <= |s| && Small(k) && !Overflows(s, i, 2, k)
    ensures var x, p := WordDiff(s, i, Candidate(s, i, 2, k)), LowestAt(i, 2, k);
            !AcrossBytes(x) && (CouldBeFlip(x) <==> IsFlip(s[p], U8(s[p] + Delta(k))))
  {
    var now, q := Candidate(s, i, 2, k), Place(2, k.big, 0);
    CandidateChanges(s, i, 2, k);
    CandidateKeeps(s, i, 2, k, 1);
    FilterOfOne(s, i, now, q);
    if AcrossBytes(WordDiff(s, i, now)) {
      AcrossChangesBoth(s, i, now);
    }
  }

  lemma StayRuns(c: Tuning, s: seq<byte>, eff: seq<bool>, i: nat, k: Kind)
    requires Covers(eff, s) && Sound(c) && i + 2 <= |s| && 1 <= k.amount <= c.arithMax && !Overflows(s, i, 2, k)
    ensures var p := LowestAt(i, 2, k);
            Write(s, i, Candidate(s, i, 2, k)) in Through16(c, s, eff) <==>
            IsFlip(s[p], U8(s[p] + Delta(k))) || eff[p / 8]
  {
    var p := LowestAt(i, 2, k);
    StaysInByte(s, i, k);
    NearByStep(s[p], k, c.arithMax);
    SingleThrough16(c, s, eff, p, U8(s[p] + Delta(k)));
  }

  lemma OverflowThrough16(c: Tuning, s: seq<byte>, eff: seq<bool>, i: nat, k: Kind)
    requires Covers(eff, s) && Sound(c) && i + 2 <= |s| && Effective(eff, i, 2) && 1 <= k.amount <= c.arithMax
    requires Overflows(s, i, 2, k)
    ensures var x := WordDiff(s, i, Candidate(s, i, 2, k));
            Write(s, i, Candidate(s, i, 2, k)) !in Through16(c, s, eff) <==> AcrossBytes(x)
  {
    var now := Candidate(s, i, 2, k);
    CandidateChanges(s, i, 2, k);
    BothThrough16(c, s, eff, i, now);
    LostWords16(s, eff, i, now);
    if CouldBeFlip(WordDiff(s, i, now)) {
      forall l: Kind ensures !Made(s, eff, 2, c.arithMax, Write(s, i, now), i, l) {
        SameCandidate(s, eff, c.arithMax, i, now, l);
      }
    } else {
      MadeIs(s, eff, 2, c.arithMax, Write(s, i, now), i, k);
    }
  }

  lemma SameCandidate(s: seq<byte>, eff: seq<bool>, max: nat, i: nat, now: seq<byte>, l: Kind)
    requires i + 2 <= |s| && |now| == 2 && CouldBeFlip(WordDiff(s, i, now))
    ensures !Made(s, eff, 2, max, Write(s, i, now), i, l)
  {
    MadeIs(s, eff, 2, max, Write(s, i, now), i, l);
    if Made(s, eff, 2, max, Write(s, i, now), i, l) {
      SameBlock(s, i, now, Candidate(s, i, 2, l));
    }
  }

  lemma SameBlock(s: seq<byte>, i: nat, a: seq<byte>, b: seq<byte>)
    requires |a| == |b| && i + |a| <= |s| && Write(s, i, a) == Write(s, i, b)
    ensures a == b
  {
    assert Write(s, i, a)[i..i + |a|] == a && Write(s, i, b)[i..i + |a|] == b;
  }

  /** Adding 32 to the word 0x00E0 is never tried: as it passes for a flip. */
  lemma LostByFilter(c: Tuning, s: seq<byte>, eff: seq<bool>, k: Kind)
    requires c == Afl() && s == [0xE0, 0x00] && eff == [true] && k == Kind(32, true, false)
    ensures Sound(c) && Candidate(s, 0, 2, k) == [0x00, 0x01]
    ensures Write(s, 0, Candidate(s, 0, 2, k)) !in Through16(c, s, eff)
  {
    AflIsSound();
    SumOfE0(s, k);
    XorOfWord();
    assert Effective(eff, 0, 1);
    Arith16Exact(c, s, eff, 0, k);
  }

  lemma SumOfE0(s: seq<byte>, k: Kind)
    requires s == [0xE0, 0x00] && k == Kind(32, true, false)
    ensures Candidate(s, 0, 2, k) == [0x00, 0x01] && WordDiff(s, 0, [0x00, 0x01]) == Xor(0x00E0, 0x0100)
  {
    PowOne();
    assert s[0..2] == s && Oriented(s, false) == s;
    WordOf(s);
    WordOf([0x00, 0x01]);
    BytesOfWord([0x00, 0x01]);
  }

  /** Adding 5 to a zero byte is not tried either, where the effector map has the next byte worked
      on but not this one. */
  lemma LostByMap(c: Tuning, s: seq<byte>, eff: seq<bool>, k: Kind)
    requires c == Afl() && s == Zeros(24) && eff == [true, false, true] && k == Kind(5, true, false)
    ensures Sound(c) && Effective(eff, 15, 2) && Write(s, 15, Candidate(s, 15, 2, k)) !in Through16(c, s, eff)
  {
    AflIsSound();
    assert eff[(15 + 2 - 1) / 8];
    FiveIsNoFlip(s, k);
    Arith16Exact(c, s, eff, 15, k);
  }

  lemma FiveIsNoFlip(s: seq<byte>, k: Kind)
    requires s == Zeros(24) && k == Kind(5, true, false)
    ensures !Overflows(s, 15, 2, k) && !CouldBeFlip(WordDiff(s, 15, Candidate(s, 15, 2, k)))
  {
    var o := Oriented(s[15..17], false);
    PowOne();
    assert o[..1] == [0];
    WordOfOne(o[..1]);
    StayFilter(s, 15, k);
    XorByteIs(0, 5);
    FlipByShape(5);
    OddIsBare(5);
  }

  // ---- The candidates lost, for words of four bytes ----

  ghost function Through32(c: Tuning, s: seq<byte>, eff: seq<bool>): seq<seq<byte>>
    requires s != [] && Covers(eff, s) && Sound(c)
  {
    Through16(c, s, eff) + ArithStage(s, eff, 4, c.arithMax)
  }

  /** Where the lower half of a word of four bytes lies. */
  function LowerHalf(i: nat, k: Kind): nat {
    if k.big then i + 2 else i
  }

  lemma HalfOriented(s: seq<byte>, i: nat, k: Kind)
    requires i + 4 <= |s|
    ensures Oriented(s[i..i + 4], k.big)[..2] == Oriented(s[LowerHalf(i, k)..LowerHalf(i, k) + 2], k.big)
  {
  }

  lemma HalfByte(s: seq<byte>, i: nat, k: Kind, q: nat)
    requires i + 4 <= |s| && q < 2 && Small(k) && !Overflows(s, i, 4, k)
    ensures Candidate(s, i, 4, k)[Place(4, k.big, q)] == Candidate(s, LowerHalf(i, k), 2, k)[Place(2, k.big, q)]
  {
    CandidateByte(s, i, 4, k, q);
    CandidateByte(s, LowerHalf(i, k), 2, k, q);
    HalfOriented(s, i, k);
    NoCarryChanges(Oriented(s[i..i + 4], k.big), 2, Delta(k));
  }

  /** Without a carry a candidate of four bytes is the one of the two bytes in its lower half. */
  lemma StaysInHalf(s: seq<byte>, i: nat, k: Kind)
    requires i + 4 <= |s| && Small(k) && !Overflows(s, i, 4, k)
    ensures LowerHalf(i, k) + 2 <= |s|
    ensures Write(s, i, Candidate(s, i, 4, k)) == Write(s, LowerHalf(i, k), Candidate(s, LowerHalf(i, k), 2, k))
  {
    HalfByte(s, i, k, 0);
    HalfByte(s, i, k, 1);
    CandidateKeeps(s, i, 4, k, 2);
    CandidateKeeps(s, i, 4, k, 3);
    Halves(s, i, k.big, Candidate(s, i, 4, k), Candidate(s, LowerHalf(i, k), 2, k));
  }

  lemma Halves(s: seq<byte>, i: nat, big: bool, now: seq<byte>, half: seq<byte>)
    requires i + 4 <= |s| && |now| == 4 && |half| == 2
    requires if big then now == [s[i], s[i + 1], half[0], half[1]] else now == [half[0], half[1], s[i + 2], s[i + 3]]
    ensures Write(s, i, now) == Write(s, if big then i + 2 else i, half)
  {
  }

  lemma PairIsNotMade(s: seq<byte>, eff: seq<bool>, max: nat, p: nat, now: seq<byte>)
    requires p + 2 <= |s| && |now| == 2 && max <= 127
    ensures Write(s, p, now) !in ArithStage(s, eff, 4, max)
  {
    if Write(s, p, now) in ArithStage(s, eff, 4, max) {
      var i, k := StageHas(s, eff, 4, max, Write(s, p, now));
      MadeChanges(s, eff, 4, max, Write(s, p, now), i, k);
    }
  }

  /** A change that the shape of a run in two bytes cannot have. */
  lemma OnlyTwoBytes(d: seq<byte>, k: nat, y: nat, q: nat)
    requires k + 2 <= |d| && y < 0x1_0000 && Word(d) == y * Pow2(8 * k) && q < |d| && d[q] != 0
    ensures q == k || q == k + 1
  {
    var e: seq<byte> := [y % 256, y / 256];
    WordOf(e);
    WordPadded(k, e, |d|);
    SameWord(d, Padded(k, e, |d|));
  }

  lemma ChangedBytes(s: seq<byte>, i: nat, now: seq<byte>, q: nat)
    requires i + |now| <= |s| && q < |now| && now[q] != s[i + q]
    ensures Change(s[i..i + |now|], now)[q] != 0
  {
    ByteSolves(s[i + q], now[q], 0);
    ByteSame(s[i + q]);
  }

  /** A change that is out of step with the flips lies in two bytes. */
  lemma OutOfStepRun(eff: seq<bool>, i: nat, x: nat, k: nat) returns (y: nat)
    requires OutOfStep(eff, i, x, k) && 0 < x < Pow2(8 * 4) && Effective(eff, i, 4)
    ensures k + 2 <= 4 && y < 0x1_0000 && x == y * Pow2(8 * k)
  {
    OutOfStepBound(eff, i, x, k, 4);
    if z: nat :| AcrossBytes(z) && x == z * Pow2(8 * k) {
      y := z;
    } else {
      y := 0xffff;
    }
  }

  /** A change that reaches over three bytes and passes for a flip is that of all four. */
  lemma WideIsInStep(s: seq<byte>, eff: seq<bool>, i: nat, now: seq<byte>, q: nat)
    requires i + 4 <= |s| && |now| == 4 && Effective(eff, i, 4) && CouldBeFlip(WordDiff(s, i, now))
    requires q + 2 < 4 && now[q] != s[i + q] && now[q + 2] != s[i + q + 2]
    ensures WordDiff(s, i, now) > 0 && InStep(eff, i, WordDiff(s, i, now))
  {
    var was := s[i..i + 4];
    XorOfWords(was, now);
    ChangedBytes(s, i, now, q);
    ChangedBytes(s, i, now, q + 2);
    WordChange(was, now);
    if !InStep(eff, i, WordDiff(s, i, now)) {
      NotOutOfStep(eff, i, Change(was, now), WordDiff(s, i, now), q);
    }
  }

  lemma NotOutOfStep(eff: seq<bool>, i: nat, d: seq<byte>, x: nat, q: nat)
    requires |d| == 4 && x == Word(d) && 0 < x < Pow2(8 * 4) && CouldBeFlip(x) && Effective(eff, i, 4)
    requires q + 2 < 4 && d[q] != 0 && d[q + 2] != 0
    ensures InStep(eff, i, x)
  {
    if !InStep(eff, i, x) {
      LostIsOutOfStep(eff, i, x);
      var k: nat :| OutOfStep(eff, i, x, k);
      var y := OutOfStepRun(eff, i, x, k);
      OnlyTwoBytes(d, k, y, q);
      OnlyTwoBytes(d, k, y, q + 2);
    }
  }

  /** A candidate of the arithmetic on four bytes is run by this or an earlier stage exactly if it
      goes beyond its lower half, or an earlier stage runs it as a candidate of that half. */
  lemma Arith32Exact(c: Tuning, s: seq<byte>, eff: seq<bool>, i: nat, k: Kind)
    requires Covers(eff, s) && Sound(c) && i + 4 <= |s| && Effective(eff, i, 4) && 1 <= k.amount <= c.arithMax
    ensures Write(s, i, Candidate(s, i, 4, k)) in Through32(c, s, eff) <==>
            Overflows(s, i, 4, k) || Write(s, i, Candidate(s, i, 4, k)) in Through16(c, s, eff)
    ensures !Overflows(s, i, 4, k) ==>
              Write(s, i, Candidate(s, i, 4, k)) == Write(s, LowerHalf(i, k), Candidate(s, LowerHalf(i, k), 2, k))
  {
    if Overflows(s, i, 4, k) {
      OverflowThrough32(c, s, eff, i, k);
    } else {
      StaysInHalf(s, i, k);
      PairIsNotMade(s, eff, c.arithMax, LowerHalf(i, k), Candidate(s, LowerHalf(i, k), 2, k));
    }
  }

  lemma OverflowThrough32(c: Tuning, s: seq<byte>, eff: seq<bool>, i: nat, k: Kind)
    requires Covers(eff, s) && Sound(c) && i + 4 <= |s| && Effective(eff, i, 4) && 1 <= k.amount <= c.arithMax
    requires Overflows(s, i, 4, k)
    ensures Write(s, i, Candidate(s, i, 4, k)) in Through32(c, s, eff)
  {
    var now := Candidate(s, i, 4, k);
    CandidateChanges(s, i, 4, k);
    if CouldBeFlip(WordDiff(s, i, now)) {
      WideIsInStep(s, eff, i, now, if k.big then 1 else 0);
      WordFilter(s, eff, i, now);
    } else {
      MadeIs(s, eff, 4, c.arithMax, Write(s, i, now), i, k);
      StageTakes(s, eff, 4, c.arithMax, Write(s, i, now), i, k);
    }
  }
}
