/** Flips of whole words, and the exact condition under which the filter for changes that
    "could be a flip" drops a change of a word that no flip makes. */
module WordFlips {
  import opened Bytes
  import opened Bits
  import opened Flips
  import opened WalkingFlips
  import opened Deterministic
  import opened Stages
  import opened Counting

  // ---- Changes of some bytes in a row ----

  /** The buffer with `e` xored over its bytes from `j` on. */
  ghost function Xored(s: seq<byte>, j: nat, e: seq<byte>): (t: seq<byte>)
    requires j + |e| <= |s|
    ensures |t| == |s|
  {
    seq(|s|, q requires 0 <= q < |s| => if j <= q < j + |e| then XorByte(s[q], e[q - j]) else s[q])
  }

  ghost function Change(a: seq<byte>, b: seq<byte>): (d: seq<byte>)
    requires |a| == |b|
    ensures |d| == |a|
  {
    seq(|a|, q requires 0 <= q < |a| => XorByte(a[q], b[q]))
  }

  lemma WriteIsXored(s: seq<byte>, i: nat, now: seq<byte>)
    requires i + |now| <= |s|
    ensures Write(s, i, now) == Xored(s, i, Change(s[i..i + |now|], now))
  {
    var t := Xored(s, i, Change(s[i..i + |now|], now));
    forall q | 0 <= q < |s| ensures Write(s, i, now)[q] == t[q] {
      if i <= q < i + |now| {
        ByteSolves(s[q], XorByte(s[q], now[q - i]), now[q - i]);
      }
    }
  }

  function Zeros(n: nat): (z: seq<byte>)
    ensures |z| == n && forall q | 0 <= q < n :: z[q] == 0
  {
    seq(n, _ => 0)
  }

  function Padded(k: nat, e: seq<byte>, n: nat): (d: seq<byte>)
    requires k + |e| <= n
    ensures |d| == n
  {
    Zeros(k) + e + Zeros(n - k - |e|)
  }

  /** A change that does not begin or end with zero. */
  predicate Tight(e: seq<byte>) {
    e != [] && e[0] != 0 && e[|e| - 1] != 0
  }

  predicate Within(i: nat, d: seq<byte>, j: nat, e: seq<byte>) {
    i <= j && j - i + |e| <= |d| && d == Padded(j - i, e, |d|)
  }

  lemma XoredAt(s: seq<byte>, i: nat, d: seq<byte>, j: nat, e: seq<byte>, q: nat)
    requires i + |d| <= |s| && j + |e| <= |s| && q < |s|
    ensures Xored(s, i, d)[q] == Xored(s, j, e)[q] <==>
            (if i <= q < i + |d| then d[q - i] else 0) == (if j <= q < j + |e| then e[q - j] else 0)
  {
    ByteSame(s[q]);
    if i <= q < i + |d| {
      ByteSolves(s[q], d[q - i], Xored(s, j, e)[q]);
    }
    if j <= q < j + |e| {
      ByteSolves(s[q], e[q - j], Xored(s, i, d)[q]);
    }
  }

  /** Two changes are the same if they agree on where the tight one is. */
  lemma SameChange(s: seq<byte>, i: nat, d: seq<byte>, j: nat, e: seq<byte>)
    requires i + |d| <= |s| && j + |e| <= |s| && Tight(e)
    ensures Xored(s, i, d) == Xored(s, j, e) <==> Within(i, d, j, e)
  {
    if Xored(s, i, d) == Xored(s, j, e) {
      XoredAt(s, i, d, j, e, j);
      XoredAt(s, i, d, j, e, j + |e| - 1);
      forall q | 0 <= q < |d| ensures d[q] == Padded(j - i, e, |d|)[q] {
        XoredAt(s, i, d, j, e, i + q);
      }
    }
    if Within(i, d, j, e) {
      forall q | 0 <= q < |s| ensures Xored(s, i, d)[q] == Xored(s, j, e)[q] {
        XoredAt(s, i, d, j, e, q);
      }
    }
  }

  // ---- Changes as numbers ----

  /** The lowest `n` digits of `x`, and above them `a`. */
  function Join(x: nat, a: nat, n: nat): nat {
    if n == 0 then a else x % 2 + 2 * Join(x / 2, a, n - 1)
  }

  lemma {:induction false} JoinIsSum(x: nat, a: nat, n: nat)
    requires x < Pow2(n)
    ensures Join(x, a, n) == x + a * Pow2(n)
  {
    if n > 0 {
      JoinIsSum(x / 2, a, n - 1);
      Regroup(a, Pow2(n - 1), 2);
    }
  }

  lemma JoinDigits(x: nat, a: nat, n: nat)
    requires n > 0
    ensures Join(x, a, n) % 2 == x % 2 && Join(x, a, n) / 2 == Join(x / 2, a, n - 1)
  {
  }

  lemma Parities(x: nat, u: nat, y: nat, v: nat)
    requires x % 2 == u % 2 && y % 2 == v % 2
    ensures (x + y) % 2 == (u + v) % 2
  {
  }

  lemma {:induction false} XorJoined(x: nat, a: nat, y: nat, b: nat, n: nat)
    ensures Xor(Join(x, a, n), Join(y, b, n)) == Join(Xor(x, y), Xor(a, b), n)
  {
    if n > 0 {
      XorJoined(x / 2, a, y / 2, b, n - 1);
      var u, v := Join(x, a, n), Join(y, b, n);
      JoinDigits(x, a, n);
      JoinDigits(y, b, n);
      JoinDigits(Xor(x, y), Xor(a, b), n);
      XorDigits(x, y);
      XorDigits(u, v);
      Parities(x, u, y, v);
      SameDigits(Xor(u, v), Join(Xor(x, y), Xor(a, b), n));
    }
  }

  lemma XorAbove(x: byte, a: nat, y: byte, b: nat)
    ensures Xor(x + 256 * a, y + 256 * b) == XorByte(x, y) + 256 * Xor(a, b)
  {
    XorByteIs(x, y);
    var n := 8;
    assert Pow2(n) == 256;
    JoinIsSum(x, a, n);
    JoinIsSum(y, b, n);
    JoinIsSum(XorByte(x, y), Xor(a, b), n);
    XorJoined(x, a, y, b, n);
  }

  /** The exclusive or of two words is the word of the bytewise one. */
  lemma {:induction false} XorOfWords(a: seq<byte>, b: seq<byte>)
    requires |a| == |b|
    ensures Xor(Word(a), Word(b)) == Word(Change(a, b))
  {
    if a != [] {
      XorOfWords(a[1..], b[1..]);
      XorAbove(a[0], Word(a[1..]), b[0], Word(b[1..]));
      assert Change(a, b) == [XorByte(a[0], b[0])] + Change(a[1..], b[1..]);
      WordCons(XorByte(a[0], b[0]), Change(a[1..], b[1..]));
    }
  }

  lemma {:induction false} WordTail(e: seq<byte>, z: nat)
    ensures Word(e + Zeros(z)) == Word(e)
  {
    if e == [] {
      assert e + Zeros(z) == Zeros(z);
      WordZero(Zeros(z));
    } else {
      WordTail(e[1..], z);
      assert (e + Zeros(z))[1..] == e[1..] + Zeros(z);
    }
  }

  lemma PowPlus8(k: nat)
    ensures Pow2(8 * (k + 1)) == 256 * Pow2(8 * k)
  {
    var n := 8 * k;
    assert Pow2(n + 8) == 2 * Pow2(n + 7) && Pow2(n + 7) == 2 * Pow2(n + 6) && Pow2(n + 6) == 2 * Pow2(n + 5);
    assert Pow2(n + 5) == 2 * Pow2(n + 4) && Pow2(n + 4) == 2 * Pow2(n + 3) && Pow2(n + 3) == 2 * Pow2(n + 2);
    assert Pow2(n + 2) == 2 * Pow2(n + 1);
  }

  lemma {:induction false} WordHead(k: nat, e: seq<byte>)
    ensures Word(Zeros(k) + e) == Word(e) * Pow2(8 * k)
  {
    if k == 0 {
      assert Zeros(0) + e == e;
    } else {
      WordHead(k - 1, e);
      PowPlus8(k - 1);
      assert Zeros(k) + e == [0] + (Zeros(k - 1) + e);
      WordCons(0, Zeros(k - 1) + e);
      Regroup(Word(e), Pow2(8 * (k - 1)), 256);
    }
  }

  lemma WordPadded(k: nat, e: seq<byte>, n: nat)
    requires k + |e| <= n
    ensures Word(Padded(k, e, n)) == Word(e) * Pow2(8 * k)
  {
    assert Padded(k, e, n) == Zeros(k) + (e + Zeros(n - k - |e|));
    WordHead(k, e + Zeros(n - k - |e|));
    WordTail(e, n - k - |e|);
  }

  lemma SameWord(a: seq<byte>, b: seq<byte>)
    requires |a| == |b| && Word(a) == Word(b)
    ensures a == b
  {
    BytesOfWord(a);
    BytesOfWord(b);
  }

  lemma {:induction false} WordBound(a: seq<byte>)
    ensures Word(a) < Pow2(8 * |a|)
  {
    if a != [] {
      WordBound(a[1..]);
      PowPlus8(|a| - 1);
    }
  }

  // ---- The flips of two and four bytes ----

  /** Some byte of the block is in a part of the buffer worth further work. */
  predicate Effective(eff: seq<bool>, j: nat, w: nat) {
    w > 0 && (((j + w - 1) / 8 < |eff| && eff[(j + w - 1) / 8]) || Effective(eff, j, w - 1))
  }

  function Ones(w: nat): (e: seq<byte>)
    ensures |e| == w && forall q | 0 <= q < w :: e[q] == 255
  {
    seq(w, _ => 255)
  }

  /** The runs of the walking flips of `w` bytes. */
  ghost function BlockRuns(s: seq<byte>, eff: seq<bool>, w: nat, k: nat): seq<seq<byte>>
    requires w >= 1 && k + w - 1 <= |s|
  {
    if k == 0 then []
    else BlockRuns(s, eff, w, k - 1) + if Effective(eff, k - 1, w) then [Xored(s, k - 1, Ones(w))] else []
  }

  ghost function BlockStage(s: seq<byte>, eff: seq<bool>, w: nat): seq<seq<byte>>
    requires w >= 1
  {
    if |s| < w then [] else BlockRuns(s, eff, w, |s| - w + 1)
  }

  method InvertBlock(out: array<byte>, j: nat, w: nat)
    requires j + w <= out.Length
    modifies out
    ensures out[..] == Xored(old(out[..]), j, Ones(w))
  {
    forall q | j <= q < j + w {
      out[q] := Inverted(out[q]);
    }
  }

  function Inverted(b: byte): (r: byte)
    ensures r == XorByte(b, 255)
  {
    XorBound(b, 255, 8);
    XorByteIs(b, 255);
    Xor(b, 255)
  }

  lemma InvertTwice(s: seq<byte>, j: nat, w: nat)
    requires j + w <= |s|
    ensures Xored(Xored(s, j, Ones(w)), j, Ones(w)) == s
  {
    var t := Xored(s, j, Ones(w));
    forall q | 0 <= q < |s| ensures Xored(t, j, Ones(w))[q] == s[q] {
      ByteAssoc(s[q], 255, 255);
      ByteSame(255);
      ByteSame(s[q]);
    }
  }

  method TestEffective(eff: seq<bool>, j: nat, w: nat) returns (yes: bool)
    requires j + w <= 8 * |eff|
    ensures yes == Effective(eff, j, w)
  {
    yes := false;
    for q := 0 to w
      invariant yes == Effective(eff, j, q)
    {
      yes := yes || eff[(j + q) / 8];
    }
  }

  /** The stage runs exactly the described buffers and puts the input back. */
  method WalkBlocks(out: array<byte>, eff: seq<bool>, w: nat, target: Target)
    requires w >= 1 && Covers(eff, out[..])
    modifies out, target
    ensures out[..] == old(out[..])
    ensures target.runs == old(target.runs) + BlockStage(out[..], eff, w)
  {
    if out.Length < w {
      return;
    }
    ghost var s, before := out[..], target.runs;
    RanNothing(before);
    for j := 0 to out.Length - w + 1
      invariant out[..] == s
      invariant Ran(target.runs, before, BlockRuns(s, eff, w, j))
    {
      var effective := TestEffective(eff, j, w);
      if effective {
        RanMore(target.runs, before, BlockRuns(s, eff, w, j), [Xored(s, j, Ones(w))]);
        InvertBlock(out, j, w);
        target.Run(out);
        InvertTwice(s, j, w);
        InvertBlock(out, j, w);
      }
    }
    RanAll(target.runs, before, BlockStage(s, eff, w));
  }

  // ---- What the flips make ----

  /** All flips, of bits, bytes and words. */
  ghost function EveryFlip(s: seq<byte>, eff: seq<bool>): seq<seq<byte>>
    requires s != []
  {
    AllFlips(s) + BlockStage(s, eff, 2) + BlockStage(s, eff, 4)
  }

  ghost predicate InvertedAt(s: seq<byte>, t: seq<byte>, w: nat, j: nat) {
    j + w <= |s| && t == Xored(s, j, Ones(w))
  }

  lemma {:induction false} InBlockRuns(s: seq<byte>, eff: seq<bool>, w: nat, k: nat, t: seq<byte>)
    requires w >= 1 && k + w - 1 <= |s|
    ensures t in BlockRuns(s, eff, w, k) <==> exists j :: 0 <= j < k && Effective(eff, j, w) && InvertedAt(s, t, w, j)
  {
    if k > 0 {
      InBlockRuns(s, eff, w, k - 1, t);
      assert InvertedAt(s, Xored(s, k - 1, Ones(w)), w, k - 1);
    }
  }

  lemma {:induction false} InByteRuns(s: seq<byte>, k: nat, t: seq<byte>)
    requires k <= |s|
    ensures t in ByteRuns(s, Flip8Values(s), k) <==> exists j :: 0 <= j < k && InvertedAt(s, t, 1, j)
  {
    if k > 0 {
      InByteRuns(s, k - 1, t);
      var v := XorByte(s[k - 1], 255);
      assert Flip8Values(s)[k - 1][..0] == [];
      assert Variants(s, k - 1, [v]) == [s[k - 1 := v]];
      assert s[k - 1 := v] == Xored(s, k - 1, Ones(1));
      assert InvertedAt(s, s[k - 1 := v], 1, k - 1);
    }
  }

  lemma InFlipStage(s: seq<byte>, n: nat, t: seq<byte>)
    requires 1 <= n <= 8 && s != []
    ensures t in FlipStage(s, n) <==> exists b :: 0 <= b < 8 * |s| - n + 1 && t == FlipMany(s, b, n)
  {
    var last := 8 * |s| - n + 1;
    FlipRunAt(s, n, last, 0);
    if t in FlipStage(s, n) {
      var c :| 0 <= c < |FlipStage(s, n)| && FlipStage(s, n)[c] == t;
      FlipRunAt(s, n, last, c);
    }
    if b :| 0 <= b < last && t == FlipMany(s, b, n) {
      FlipRunAt(s, n, last, b);
    }
  }

  /** What a flip that goes on into the next byte changes. */
  predicate Crossing(e: seq<byte>) {
    |e| == 2 && 1 <= e[0] < 16 && e[0] % 2 == 1 && 128 <= e[1] < 255
  }

  /** The changes that one of the flips makes from the `j`-th byte on. */
  ghost predicate Flippable(eff: seq<bool>, j: nat, e: seq<byte>) {
    || (|e| == 1 && e[0] != 0 && CouldBeFlip(e[0]))
    || Crossing(e)
    || (e == Ones(2) && Effective(eff, j, 2))
    || (e == Ones(4) && Effective(eff, j, 4))
  }

  ghost predicate FlippedBy(s: seq<byte>, eff: seq<bool>, t: seq<byte>, j: nat, e: seq<byte>) {
    j + |e| <= |s| && t == Xored(s, j, e) && Flippable(eff, j, e)
  }

  lemma FlipWithin(s: seq<byte>, b: nat, n: nat)
    requires n in {1, 2, 4} && b % 8 + n <= 8 && b + n <= 8 * |s|
    ensures FlipMany(s, b, n) == Xored(s, b / 8, [MaskFrom(b % 8, n)])
    ensures MaskFrom(b % 8, n) != 0 && CouldBeFlip(MaskFrom(b % 8, n))
  {
    var e := [MaskFrom(b % 8, n)];
    forall q | 0 <= q < |s| ensures FlipMany(s, b, n)[q] == Xored(s, b / 8, e)[q] {
      FlipsAreMasks(s, b, n, q);
      MaskInside(b, n, q);
      ByteSame(s[q]);
    }
    MaskFromNonzero(b % 8, n);
    MaskFromIsPattern(b % 8, n);
    PatternIsFlip(n, b % 8);
  }

  lemma CrossMasks(r: nat, n: nat)
    requires n in {2, 4} && r < 8 && r + n > 8
    ensures Crossing([MaskFrom(r, 8 - r), MaskFrom(0, n - (8 - r))])
  {
    MaskFromIsPattern(r, 8 - r);
    MaskFromIsPattern(0, n - (8 - r));
    var p, q := Pow2(8 - r), Pow2(8 - (n - (8 - r)));
    SmallPowers();
    PowGrows(8 - r, 3);
    PowGrows(5, 8 - (n - (8 - r)));
    PowGrows(8 - (n - (8 - r)), 7);
    assert p == 2 * Pow2(7 - r);
  }

  lemma CrossAt(s: seq<byte>, b: nat, n: nat, q: nat)
    requires n in {2, 4} && b % 8 + n > 8 && b + n <= 8 * |s| && q < |s|
    ensures var past := n - (8 - b % 8);
            FlipMany(s, b, n)[q] == XorByte(s[q], if q == b / 8 then MaskFrom(b % 8, 8 - b % 8)
                                                  else if q == b / 8 + 1 then MaskFrom(0, past) else 0)
  {
    FlipsAreMasks(s, b, n, q);
    MaskAcross(b, n);
    if q != b / 8 && q != b / 8 + 1 {
      MaskElsewhere(b, n, q);
    }
  }

  lemma FlipAcross(s: seq<byte>, b: nat, n: nat) returns (e: seq<byte>)
    requires n in {1, 2, 4} && b % 8 + n > 8 && b + n <= 8 * |s|
    ensures b / 8 + 2 <= |s| && Crossing(e) && FlipMany(s, b, n) == Xored(s, b / 8, e)
  {
    e := [MaskFrom(b % 8, 8 - b % 8), MaskFrom(0, n - (8 - b % 8))];
    CrossMasks(b % 8, n);
    forall q | 0 <= q < |s| ensures FlipMany(s, b, n)[q] == Xored(s, b / 8, e)[q] {
      CrossAt(s, b, n, q);
      ByteSame(s[q]);
    }
  }

  lemma {:induction false} MaskElsewhere(b: nat, n: nat, k: nat)
    requires n <= 8 && k != b / 8 && k != b / 8 + 1
    ensures MaskAt(b, n, k) == 0
  {
    if n > 0 {
      MaskElsewhere(b, n - 1, k);
    }
  }

  lemma WalkFlips(s: seq<byte>, eff: seq<bool>, n: nat, t: seq<byte>)
    requires n in {1, 2, 4} && s != [] && t in FlipStage(s, n)
    ensures exists j, e :: FlippedBy(s, eff, t, j, e)
  {
    InFlipStage(s, n, t);
    var b :| 0 <= b < 8 * |s| - n + 1 && t == FlipMany(s, b, n);
    if b % 8 + n <= 8 {
      FlipWithin(s, b, n);
      assert FlippedBy(s, eff, t, b / 8, [MaskFrom(b % 8, n)]);
    } else {
      var e := FlipAcross(s, b, n);
      assert FlippedBy(s, eff, t, b / 8, e);
    }
  }

  lemma FlipsAreFlippable(s: seq<byte>, eff: seq<bool>, t: seq<byte>)
    requires s != [] && t in EveryFlip(s, eff)
    ensures exists j, e :: FlippedBy(s, eff, t, j, e)
  {
    if n :| n in {1, 2, 4} && t in FlipStage(s, n) {
      WalkFlips(s, eff, n, t);
    } else if t in ByteStage(s, Flip8Values(s)) {
      InByteRuns(s, |s|, t);
      var j: nat :| j < |s| && InvertedAt(s, t, 1, j);
      assert FlipPattern(255, 255, 0);
      assert FlippedBy(s, eff, t, j, Ones(1));
    } else {
      var w: nat :| w in {2, 4} && t in BlockStage(s, eff, w);
      InBlockRuns(s, eff, w, |s| - w + 1, t);
      var j: nat :| j < |s| - w + 1 && Effective(eff, j, w) && InvertedAt(s, t, w, j);
      assert FlippedBy(s, eff, t, j, Ones(w));
    }
  }

  lemma ByteIsFlipped(s: seq<byte>, j: nat, m: byte)
    requires j < |s| && m != 0 && CouldBeFlip(m)
    ensures Xored(s, j, [m]) in AllFlips(s)
  {
    var v := XorByte(s[j], m);
    assert Xored(s, j, [m]) == s[j := v];
    ByteSolves(s[j], m, v);
    ByteSame(s[j]);
    ByteSolves(s[j], m, s[j]);
    FlipsCount(s, j, v);
    CountPositive(AllFlips(s), s[j := v]);
  }

  lemma BlockIsFlipped(s: seq<byte>, eff: seq<bool>, j: nat, w: nat)
    requires w >= 1 && j + w <= |s| && Effective(eff, j, w)
    ensures Xored(s, j, Ones(w)) in BlockStage(s, eff, w)
  {
    assert InvertedAt(s, Xored(s, j, Ones(w)), w, j);
    InBlockRuns(s, eff, w, |s| - w + 1, Xored(s, j, Ones(w)));
  }

  lemma FlippableIsFlipped(s: seq<byte>, eff: seq<bool>, j: nat, e: seq<byte>)
    requires s != [] && j + |e| <= |s| && Flippable(eff, j, e) && !Crossing(e)
    ensures Xored(s, j, e) in EveryFlip(s, eff)
  {
    if |e| == 1 {
      assert e == [e[0]];
      ByteIsFlipped(s, j, e[0]);
    } else {
      BlockIsFlipped(s, eff, j, |e|);
    }
  }

  // ---- When the filter is right ----

  /** The change `x` of the word at `i` is a run of bits inside a byte, or of whole bytes at a
      place where the flips of that many bytes are not left out. */
  predicate InStep(eff: seq<bool>, i: nat, x: nat)
    requires x > 0
  {
    RunInStep(eff, i, Stripped(x), Shift(x))
  }

  predicate RunInStep(eff: seq<bool>, i: nat, run: nat, sh: nat) {
    || run == 1
    || (run == 3 && sh % 8 <= 6)
    || (run == 15 && sh % 8 <= 4)
    || (sh % 8 == 0 && (run == 0xff || (run == 0xffff && Effective(eff, i + sh / 8, 2))
                                    || (run == 0xffff_ffff && Effective(eff, i + sh / 8, 4))))
  }

  lemma ByteInStep(v: byte, eff: seq<bool>, i: nat)
    requires v != 0 && CouldBeFlip(v)
    ensures RunInStep(eff, i, Stripped(v), Shift(v))
  {
    FlipByShape(v);
    StripShift(v);
    FlipFits(Stripped(v), Shift(v));
  }

  lemma WordOf(e: seq<byte>)
    ensures |e| == 1 ==> Word(e) == e[0]
    ensures |e| == 2 ==> Word(e) == e[0] + 256 * (e[1] as int)
    ensures e == Ones(2) ==> Word(e) == 0xffff
    ensures e == Ones(4) ==> Word(e) == 0xffff_ffff
  {
    if |e| == 1 || |e| == 2 || |e| == 4 {
      assert Word(e) == e[0] + 256 * Word(e[1..]);
    }
    if |e| == 2 {
      assert Word(e[1..]) == e[1];
    }
    if |e| == 4 {
      assert Word(e[1..]) == e[1] + 256 * Word(e[2..]) && Word(e[2..]) == e[2] + 256 * Word(e[3..]);
    }
  }

  lemma CrossingIsNoFlip(e: seq<byte>, k: nat)
    requires Crossing(e)
    ensures Word(e) > 0 && !CouldBeFlip(Word(e) * Pow2(8 * k))
  {
    WordOf(e);
    assert Stripped(Word(e)) == Word(e);
    StripTimes(Word(e), 8 * k);
    FlipByShape(Word(e) * Pow2(8 * k));
  }

  lemma FlippableInStep(eff: seq<bool>, i: nat, k: nat, e: seq<byte>)
    requires Flippable(eff, i + k, e) && CouldBeFlip(Word(e) * Pow2(8 * k))
    ensures Word(e) * Pow2(8 * k) > 0 && InStep(eff, i, Word(e) * Pow2(8 * k))
  {
    if Crossing(e) {
      CrossingIsNoFlip(e, k);
      assert false;
    } else {
      WordOf(e);
      StepOf(eff, i + k, e);
      StepShifts(eff, i, k, Stripped(Word(e)), Shift(Word(e)));
      StripTimes(Word(e), 8 * k);
    }
  }

  lemma ShiftedByBytes(sh: nat, k: nat)
    ensures (sh + 8 * k) % 8 == sh % 8 && (sh + 8 * k) / 8 == sh / 8 + k
  {
  }

  lemma StepShifts(eff: seq<bool>, i: nat, k: nat, run: nat, sh: nat)
    ensures RunInStep(eff, i + k, run, sh) <==> RunInStep(eff, i, run, sh + 8 * k)
  {
    ShiftedByBytes(sh, k);
    assert i + (sh / 8 + k) == i + k + sh / 8;
  }

  lemma StepOf(eff: seq<bool>, j: nat, e: seq<byte>)
    requires Flippable(eff, j, e) && !Crossing(e) && Word(e) > 0
    ensures RunInStep(eff, j, Stripped(Word(e)), Shift(Word(e)))
  {
    WordOf(e);
    if |e| == 1 {
      ByteInStep(e[0], eff, j);
    } else {
      OddIsBare(Word(e));
    }
  }

  lemma HalfBound(a: nat, m: nat)
    requires 0 < 2 * a < Pow2(m)
    ensures m > 0 && a < Pow2(m - 1)
  {
  }

  lemma {:induction false} ShiftBound(o: nat, sh: nat, q: nat, m: nat)
    requires Pow2(q) <= o && o * Pow2(sh) < Pow2(m)
    ensures sh + q < m
  {
    StripTimes(o, sh);
    if sh == 0 {
      if m <= q { PowGrows(m, q); }
    } else {
      Regroup(o, Pow2(sh - 1), 2);
      HalfBound(o * Pow2(sh - 1), m);
      ShiftBound(o, sh - 1, q, m - 1);
    }
  }

  /** A short run inside a byte. */
  lemma ShortRun(run: nat, r: nat)
    requires (run == 1 && r < 8) || (run == 3 && r <= 6) || (run == 15 && r <= 4) || (run == 0xff && r == 0)
    ensures 0 < run * Pow2(r) < 256 && CouldBeFlip(run * Pow2(r))
  {
    SmallPowers();
    PowGrows(r, if run == 1 then 7 else if run == 3 then 6 else if run == 15 then 4 else 0);
    assert FlipPattern(run * Pow2(r), run, r);
  }

  lemma RunPosition(run: nat, sh: nat, n: nat)
    requires run * Pow2(sh) < Pow2(8 * n)
    ensures run >= 1 ==> sh / 8 < n
    ensures run == 0xffff && sh % 8 == 0 ==> sh / 8 + 2 <= n
    ensures run == 0xffff_ffff && sh % 8 == 0 ==> sh / 8 + 4 <= n
  {
    LongPowers();
    if run >= 1 {
      ShiftBound(run, sh, 0, 8 * n);
    }
    if run == 0xffff {
      ShiftBound(run, sh, 15, 8 * n);
    }
    if run == 0xffff_ffff {
      ShiftBound(run, sh, 31, 8 * n);
    }
  }

  lemma LongPowers()
    ensures Pow2(15) == 0x8000 && Pow2(16) == 0x1_0000 && Pow2(31) == 0x8000_0000 && Pow2(32) == 0x1_0000_0000
  {
    PowSum(7, 8);
    PowSum(8, 8);
    PowSum(15, 16);
    PowSum(16, 16);
    SmallPowers();
  }

  lemma ChangeInStep(eff: seq<bool>, i: nat, x: nat, n: nat) returns (k: nat, e: seq<byte>)
    requires 0 < x < Pow2(8 * n) && InStep(eff, i, x)
    ensures k + |e| <= n && Tight(e) && Flippable(eff, i + k, e) && !Crossing(e) && x == Word(e) * Pow2(8 * k)
  {
    var run, sh := Stripped(x), Shift(x);
    k := sh / 8;
    StripShift(x);
    RunPosition(run, sh, n);
    PowSum(sh % 8, 8 * k);
    if run in {1, 3, 15, 0xff} {
      ShortRun(run, sh % 8);
      e := [run * Pow2(sh % 8)];
      Regroup3(run, Pow2(sh % 8), Pow2(8 * k));
    } else {
      e := if run == 0xffff then Ones(2) else Ones(4);
    }
    WordOf(e);
  }

  lemma Regroup3(a: nat, b: nat, c: nat)
    ensures a * (b * c) == a * b * c
  {
  }

  lemma FlippableIsTight(eff: seq<bool>, j: nat, e: seq<byte>)
    requires Flippable(eff, j, e)
    ensures Tight(e)
  {
  }

  lemma WithinInStep(eff: seq<bool>, i: nat, d: seq<byte>, j: nat, e: seq<byte>)
    requires Within(i, d, j, e) && Flippable(eff, j, e) && CouldBeFlip(Word(d))
    ensures Word(d) > 0 && InStep(eff, i, Word(d))
  {
    var k := j - i;
    WordPadded(k, e, |d|);
    FlippableInStep(eff, i, k, e);
  }

  lemma MadeInStep(s: seq<byte>, eff: seq<bool>, i: nat, d: seq<byte>)
    requires s != [] && i + |d| <= |s| && CouldBeFlip(Word(d)) && Xored(s, i, d) in EveryFlip(s, eff)
    ensures Word(d) > 0 && InStep(eff, i, Word(d))
  {
    FlipsAreFlippable(s, eff, Xored(s, i, d));
    var j: nat, e :| FlippedBy(s, eff, Xored(s, i, d), j, e);
    FlippableIsTight(eff, j, e);
    SameChange(s, i, d, j, e);
    WithinInStep(eff, i, d, j, e);
  }

  lemma InStepWithin(eff: seq<bool>, i: nat, d: seq<byte>) returns (j: nat, e: seq<byte>)
    requires Word(d) > 0 && InStep(eff, i, Word(d))
    ensures Tight(e) && Flippable(eff, j, e) && !Crossing(e) && Within(i, d, j, e)
  {
    WordBound(d);
    var k;
    k, e := ChangeInStep(eff, i, Word(d), |d|);
    j := i + k;
    WordPadded(k, e, |d|);
    SameWord(d, Padded(k, e, |d|));
  }

  lemma InStepMade(s: seq<byte>, eff: seq<bool>, i: nat, d: seq<byte>)
    requires i + |d| <= |s| && Word(d) > 0 && InStep(eff, i, Word(d))
    ensures s != [] && Xored(s, i, d) in EveryFlip(s, eff)
  {
    var j, e := InStepWithin(eff, i, d);
    SameChange(s, i, d, j, e);
    FlippableIsFlipped(s, eff, j, e);
  }

  lemma ChangeIsWord(a: seq<byte>, b: seq<byte>)
    requires |a| == |b| && a != b
    ensures 0 < Word(Change(a, b)) < Pow2(8 * |a|)
  {
    var d := Change(a, b);
    var q :| 0 <= q < |a| && a[q] != b[q];
    ByteSolves(a[q], b[q], 0);
    ByteSame(a[q]);
    assert d[q] != 0;
    WordZero(d);
    WordBound(d);
  }

  /** For a change of some bytes in a row that the filter takes for a flip: one of the flips
      makes it exactly if it is in step with them. */
  lemma WordFilter(s: seq<byte>, eff: seq<bool>, i: nat, now: seq<byte>)
    requires i + |now| <= |s| && now != s[i..i + |now|]
    requires CouldBeFlip(Xor(Word(s[i..i + |now|]), Word(now)))
    ensures var x := Xor(Word(s[i..i + |now|]), Word(now));
            x > 0 && (Write(s, i, now) in EveryFlip(s, eff) <==> InStep(eff, i, x))
  {
    var was := s[i..i + |now|];
    WriteIsXored(s, i, now);
    XorOfWords(was, now);
    ChangeIsWord(was, now);
    var d := Change(was, now);
    if Write(s, i, now) in EveryFlip(s, eff) {
      MadeInStep(s, eff, i, d);
    }
    if InStep(eff, i, Word(d)) {
      InStepMade(s, eff, i, d);
    }
  }

  // ---- The changes lost ----

  /** Runs of two or four bits that go on from the first byte into the second one. */
  predicate AcrossBytes(y: nat) {
    y in {0x180, 0x1e0, 0x3c0, 0x780}
  }

  /** The change is such a run, or a run of whole bytes whose flip was left out. */
  ghost predicate OutOfStep(eff: seq<bool>, i: nat, x: nat, k: nat) {
    || (exists y: nat :: AcrossBytes(y) && x == y * Pow2(8 * k))
    || (x == 0xffff * Pow2(8 * k) && !Effective(eff, i + k, 2))
    || (x == 0xffff_ffff * Pow2(8 * k) && !Effective(eff, i + k, 4))
  }

  lemma RunAcross(run: nat, sh: nat) returns (y: nat)
    requires (run == 3 && sh % 8 == 7) || (run == 15 && sh % 8 >= 5)
    ensures AcrossBytes(y) && run * Pow2(sh) == y * Pow2(8 * (sh / 8))
  {
    SmallPowers();
    y := run * Pow2(sh % 8);
    PowSum(sh % 8, 8 * (sh / 8));
    Regroup3(run, Pow2(sh % 8), Pow2(8 * (sh / 8)));
  }

  lemma AcrossIsRun(y: nat)
    requires AcrossBytes(y)
    ensures (Stripped(y) == 3 && Shift(y) == 7) || (Stripped(y) == 15 && Shift(y) in {5, 6, 7})
  {
    SmallPowers();
    StripUnique(3, 7);
    StripUnique(15, 5);
    StripUnique(15, 6);
    StripUnique(15, 7);
  }

  lemma LostIsOutOfStep(eff: seq<bool>, i: nat, x: nat)
    requires x > 0 && CouldBeFlip(x) && !InStep(eff, i, x)
    ensures exists k: nat :: OutOfStep(eff, i, x, k)
  {
    var run, sh := Stripped(x), Shift(x);
    FlipByShape(x);
    StripShift(x);
    if run in {3, 15} {
      var y := RunAcross(run, sh);
    }
    assert OutOfStep(eff, i, x, sh / 8);
  }

  lemma OutOfStepIsLost(eff: seq<bool>, i: nat, x: nat, k: nat)
    requires OutOfStep(eff, i, x, k)
    ensures x > 0 && CouldBeFlip(x) && !InStep(eff, i, x)
  {
    if y: nat :| AcrossBytes(y) && x == y * Pow2(8 * k) {
      AcrossIsRun(y);
      LostShifts(eff, i, k, y);
    } else if x == 0xffff * Pow2(8 * k) && !Effective(eff, i + k, 2) {
      OddIsBare(0xffff);
      LostShifts(eff, i, k, 0xffff);
    } else {
      OddIsBare(0xffff_ffff);
      LostShifts(eff, i, k, 0xffff_ffff);
    }
  }

  lemma LostShifts(eff: seq<bool>, i: nat, k: nat, y: nat)
    requires y > 0 && !RunInStep(eff, i + k, Stripped(y), Shift(y)) && LooksLikeFlip(Stripped(y), Shift(y))
    ensures y * Pow2(8 * k) > 0 && CouldBeFlip(y * Pow2(8 * k)) && !InStep(eff, i, y * Pow2(8 * k))
  {
    StepShifts(eff, i, k, Stripped(y), Shift(y));
    LooksShifts(Stripped(y), Shift(y), k);
    StripTimes(y, 8 * k);
    IsLost(eff, i, y * Pow2(8 * k));
  }

  lemma IsLost(eff: seq<bool>, i: nat, x: nat)
    requires x > 0 && LooksLikeFlip(Stripped(x), Shift(x)) && !RunInStep(eff, i, Stripped(x), Shift(x))
    ensures CouldBeFlip(x) && !InStep(eff, i, x)
  {
    FlipByShape(x);
  }

  lemma LooksShifts(run: nat, sh: nat, k: nat)
    requires LooksLikeFlip(run, sh)
    ensures LooksLikeFlip(run, sh + 8 * k)
  {
    ShiftedByBytes(sh, k);
  }

  /** The filter drops a change of a word that no flip makes exactly in these cases. */
  lemma LostWords(s: seq<byte>, eff: seq<bool>, i: nat, now: seq<byte>)
    requires i + |now| <= |s| && now != s[i..i + |now|]
    ensures var x := Xor(Word(s[i..i + |now|]), Word(now));
            CouldBeFlip(x) && Write(s, i, now) !in EveryFlip(s, eff) <==> exists k: nat :: OutOfStep(eff, i, x, k)
  {
    var x := Xor(Word(s[i..i + |now|]), Word(now));
    if CouldBeFlip(x) {
      WordFilter(s, eff, i, now);
      if !InStep(eff, i, x) {
        LostIsOutOfStep(eff, i, x);
      }
    }
    if k: nat :| OutOfStep(eff, i, x, k) {
      OutOfStepIsLost(eff, i, x, k);
    }
  }

  lemma OutOfStepBound(eff: seq<bool>, i: nat, x: nat, k: nat, n: nat)
    requires OutOfStep(eff, i, x, k) && x < Pow2(8 * n)
    ensures k + 1 < n && (x == 0xffff_ffff * Pow2(8 * k) ==> k + 3 < n)
  {
    LongPowers();
    SmallPowers();
    if y: nat :| AcrossBytes(y) && x == y * Pow2(8 * k) {
      ShiftBound(y, 8 * k, 8, 8 * n);
    } else if x == 0xffff * Pow2(8 * k) {
      ShiftBound(0xffff, 8 * k, 8, 8 * n);
    }
    if x == 0xffff_ffff * Pow2(8 * k) {
      ShiftBound(0xffff_ffff, 8 * k, 31, 8 * n);
    }
  }

  lemma WordChange(a: seq<byte>, b: seq<byte>)
    requires |a| == |b| && a != b
    ensures 0 < Xor(Word(a), Word(b)) < Pow2(8 * |a|)
  {
    XorOfWords(a, b);
    ChangeIsWord(a, b);
  }

  /** Where a two-byte word is worked on, it is a matter of four changes. */
  lemma LostWords16(s: seq<byte>, eff: seq<bool>, i: nat, now: seq<byte>)
    requires |now| == 2 && i + 2 <= |s| && now != s[i..i + 2] && Effective(eff, i, 2)
    ensures var x := Xor(Word(s[i..i + 2]), Word(now));
            CouldBeFlip(x) && Write(s, i, now) !in EveryFlip(s, eff) <==> AcrossBytes(x)
  {
    var x := Xor(Word(s[i..i + 2]), Word(now));
    LostWords(s, eff, i, now);
    WordChange(s[i..i + 2], now);
    if k: nat :| OutOfStep(eff, i, x, k) {
      OutOfStepBound(eff, i, x, k, 2);
      assert k == 0 && Pow2(8 * k) == 1;
    }
    assert AcrossBytes(x) ==> x == x * Pow2(0) && OutOfStep(eff, i, x, 0);
  }

  predicate Lost(eff: seq<bool>, i: nat, x: nat, p: nat) {
    x in {0x180 * p, 0x1e0 * p, 0x3c0 * p, 0x780 * p} || (x == 0xffff * p && !Effective(eff, i, 2))
  }

  lemma LostAt(eff: seq<bool>, i: nat, x: nat, k: nat, p: nat)
    requires p == Pow2(8 * k) && (x == 0xffff_ffff * p ==> Effective(eff, i + k, 4))
    ensures OutOfStep(eff, i, x, k) <==> Lost(eff, i + k, x, p)
  {
    assert AcrossBytes(0x180) && AcrossBytes(0x1e0) && AcrossBytes(0x3c0) && AcrossBytes(0x780);
  }

  /** In a word of four bytes there are these four changes at three places, and the two-byte
      flips within it that were left out. */
  lemma LostWords32(s: seq<byte>, eff: seq<bool>, i: nat, now: seq<byte>)
    requires |now| == 4 && i + 4 <= |s| && now != s[i..i + 4] && Effective(eff, i, 4)
    ensures var x := Xor(Word(s[i..i + 4]), Word(now));
            CouldBeFlip(x) && Write(s, i, now) !in EveryFlip(s, eff) <==>
            Lost(eff, i, x, 1) || Lost(eff, i + 1, x, 0x100) || Lost(eff, i + 2, x, 0x1_0000)
  {
    var x := Xor(Word(s[i..i + 4]), Word(now));
    LostWords(s, eff, i, now);
    WordChange(s[i..i + 4], now);
    OnlyThreePlaces(eff, i, x);
  }

  lemma OnlyThreePlaces(eff: seq<bool>, i: nat, x: nat)
    requires 0 < x < Pow2(8 * 4) && Effective(eff, i, 4)
    ensures (exists k: nat :: OutOfStep(eff, i, x, k)) <==>
            Lost(eff, i, x, 1) || Lost(eff, i + 1, x, 0x100) || Lost(eff, i + 2, x, 0x1_0000)
  {
    SmallPowers();
    LongPowers();
    LostAt(eff, i, x, 0, 1);
    LostAt(eff, i, x, 1, 0x100);
    LostAt(eff, i, x, 2, 0x1_0000);
    if k: nat :| OutOfStep(eff, i, x, k) {
      OutOfStepBound(eff, i, x, k, 4);
      assert k == 0 || k == 1 || k == 2;
    }
  }

  /** Adding 32 to the word 0x00E0 is such a change: no run makes it. */
  lemma WordFilterLoses(eff: seq<bool>)
    requires eff == [true]
    ensures Word([0xE0, 0x00]) == 0x00E0 && Word([0x00, 0x01]) == 0x00E0 + 32
    ensures CouldBeFlip(Xor(0x00E0, 0x00E0 + 32))
            && Write([0xE0, 0x00], 0, [0x00, 0x01]) !in EveryFlip([0xE0, 0x00], eff)
  {
    var s: seq<byte>, now: seq<byte> := [0xE0, 0x00], [0x00, 0x01];
    assert s[0..2] == s;
    WordOf(s);
    WordOf(now);
    assert Effective(eff, 0, 1);
    XorOfWord();
    LostWords16(s, eff, 0, now);
  }

  lemma XorDouble(a: nat, b: nat)
    ensures Xor(2 * a, 2 * b) == 2 * Xor(a, b)
  {
    var x, y := 2 * a, 2 * b;
    assert x / 2 == a && y / 2 == b && (x + y) % 2 == 0;
    XorDigits(x, y);
  }

  lemma XorOfWord()
    ensures Xor(0x00E0, 0x00E0 + 32) == 0x1E0
  {
    XorDigits(1, 2);
    XorDigits(3, 4);
    XorDigits(7, 8);
    assert Xor(7, 8) == 15;
    XorDouble(7, 8);
    XorDouble(14, 16);
    XorDouble(28, 32);
    XorDouble(56, 64);
    XorDouble(112, 128);
  }
}
