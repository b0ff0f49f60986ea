/** The walking flips of one, two or four bits: the changes they make to a byte. */
module WalkingFlips {
  import opened Bytes
  import opened Flips
  import opened Bits
  import opened Counting

  // ---- Flips ----

  /** The bit a walking flip hits in its byte, the most significant one first. */
  function Bit(r: nat): byte
    requires r < 8
  {
    PowGrows(7 - r, 7);
    Pow2(7 - r)
  }

  ghost function FlipAt(s: seq<byte>, b: nat): (t: seq<byte>)
    requires b < 8 * |s|
    ensures |t| == |s|
  {
    s[b / 8 := XorByte(s[b / 8], Bit(b % 8))]
  }

  ghost function FlipMany(s: seq<byte>, b: nat, n: nat): (t: seq<byte>)
    requires b + n <= 8 * |s|
    ensures |t| == |s|
  {
    if n == 0 then s else FlipAt(FlipMany(s, b, n - 1), b + n - 1)
  }

  /** What `n` flips from `b` on change in the `k`-th byte. */
  ghost function MaskAt(b: nat, n: nat, k: nat): (m: byte) {
    if n == 0 then 0
    else if (b + n - 1) / 8 == k then XorByte(MaskAt(b, n - 1, k), Bit((b + n - 1) % 8))
    else MaskAt(b, n - 1, k)
  }

  lemma {:induction false} FlipsAreMasks(s: seq<byte>, b: nat, n: nat, k: nat)
    requires b + n <= 8 * |s| && k < |s|
    ensures FlipMany(s, b, n)[k] == XorByte(s[k], MaskAt(b, n, k))
  {
    ByteSame(s[k]);
    if n > 0 {
      FlipsAreMasks(s, b, n - 1, k);
      if (b + n - 1) / 8 == k {
        ByteAssoc(s[k], MaskAt(b, n - 1, k), Bit((b + n - 1) % 8));
      }
    }
  }

  /** Flipping the same bits again restores the buffer. */
  lemma FlipTwice(s: seq<byte>, b: nat, n: nat)
    requires b + n <= 8 * |s|
    ensures FlipMany(FlipMany(s, b, n), b, n) == s
  {
    var t := FlipMany(s, b, n);
    forall k | 0 <= k < |s| ensures FlipMany(t, b, n)[k] == s[k] {
      FlipsAreMasks(s, b, n, k);
      FlipsAreMasks(t, b, n, k);
      ByteAssoc(s[k], MaskAt(b, n, k), MaskAt(b, n, k));
      ByteSame(s[k]);
      ByteSame(MaskAt(b, n, k));
    }
  }

  /** What `n` flips from the `r`-th bit of a byte on change in it. */
  ghost function MaskFrom(r: nat, n: nat): (m: byte)
    requires r + n <= 8
  {
    if n == 0 then 0 else XorByte(MaskFrom(r, n - 1), Bit(r + n - 1))
  }

  predicate LowZero(h: nat, j: nat) {
    j == 0 || (h % 2 == 0 && LowZero(h / 2, j - 1))
  }

  /** A bit below all others is added to them. */
  lemma {:induction false} XorBelow(h: nat, j: nat)
    requires LowZero(h, j + 1)
    ensures Xor(h, Pow2(j)) == h + Pow2(j)
  {
    XorDigits(h, Pow2(j));
    if j > 0 {
      XorBelow(h / 2, j - 1);
    }
  }

  lemma {:induction false} RunIsHigh(a: nat, b: nat)
    requires b <= a
    ensures Pow2(b) <= Pow2(a) && LowZero(Pow2(a) - Pow2(b), b)
  {
    if b > 0 {
      RunIsHigh(a - 1, b - 1);
      assert (Pow2(a) - Pow2(b)) / 2 == Pow2(a - 1) - Pow2(b - 1);
    } else {
      PowGrows(0, a);
    }
  }

  /** One more bit at the low end of a run. */
  lemma RunStep(m: byte, b: byte, a: nat, j: nat)
    requires j < a && m == Pow2(a) - Pow2(j + 1) && b == Pow2(j)
    ensures XorByte(m, b) == Pow2(a) - Pow2(j)
  {
    RunIsHigh(a, j + 1);
    XorBelow(m, j);
    XorByteIs(m, b);
  }

  lemma {:induction false} MaskFromIsPattern(r: nat, n: nat)
    requires r + n <= 8
    ensures MaskFrom(r, n) == Pattern(n, r)
  {
    if n > 0 {
      MaskFromIsPattern(r, n - 1);
      RunStep(MaskFrom(r, n - 1), Bit(r + n - 1), 8 - r, 8 - r - n);
    }
  }

  lemma MaskFromNonzero(r: nat, n: nat)
    requires 1 <= n && r + n <= 8
    ensures MaskFrom(r, n) > 0
  {
    MaskFromIsPattern(r, n);
    PowGrows(8 - r - n, 7 - r);
  }

  lemma {:induction false} MaskInside(b: nat, n: nat, k: nat)
    requires b % 8 + n <= 8
    ensures MaskAt(b, n, k) == if k == b / 8 then MaskFrom(b % 8, n) else 0
  {
    if n > 0 {
      MaskInside(b, n - 1, k);
    }
  }

  /** Flips that go on into the next byte change both. */
  lemma {:induction false} MaskAcross(b: nat, n: nat)
    requires b % 8 + n > 8 && n <= 8
    ensures MaskAt(b, n, b / 8) == MaskFrom(b % 8, 8 - b % 8)
    ensures MaskAt(b, n, b / 8 + 1) == MaskFrom(0, n - (8 - b % 8))
  {
    var past := n - (8 - b % 8);
    assert (b + n - 1) / 8 == b / 8 + 1 && (b + n - 1) % 8 == past - 1;
    ByteSame(Bit(0));
    if past == 1 {
      MaskInside(b, n - 1, b / 8);
      MaskInside(b, n - 1, b / 8 + 1);
    } else {
      MaskAcross(b, n - 1);
    }
  }

  // ---- The runs of the walking flips ----

  ghost function FlipRuns(s: seq<byte>, n: nat, k: nat): seq<seq<byte>>
    requires n >= 1 && k + n - 1 <= 8 * |s|
  {
    if k == 0 then [] else FlipRuns(s, n, k - 1) + [FlipMany(s, k - 1, n)]
  }

  ghost function FlipStage(s: seq<byte>, n: nat): seq<seq<byte>>
    requires 1 <= n <= 8 && s != []
  {
    FlipRuns(s, n, 8 * |s| - n + 1)
  }

  ghost predicate HitsAt(s: seq<byte>, i: nat, v: byte, n: nat, c: nat)
    requires i < |s|
  {
    forall k | SeeHit(k) :: c / 8 == i && IsPatternAt(XorByte(s[i], v), n, c % 8)
  }

  predicate SeeHit(k: int) { k == 0 }

  /** A walking flip turns one byte into `v`, and no other, exactly when it stays within
      that byte and is the change wanted. */
  lemma HitsExactly(s: seq<byte>, i: nat, v: byte, n: nat, c: nat)
    requires i < |s| && v != s[i] && n in {1, 2, 4} && c + n <= 8 * |s|
    ensures FlipMany(s, c, n) == s[i := v] <==> HitsAt(s, i, v, n, c)
  {
    assert SeeHit(0);
    var t := FlipMany(s, c, n);
    var b := c / 8;
    FlipsAreMasks(s, c, n, b);
    if c % 8 + n <= 8 {
      MaskInside(c, n, b);
      MaskFromIsPattern(c % 8, n);
      MaskFromNonzero(c % 8, n);
      ByteSolves(s[b], MaskAt(c, n, b), s[b]);
      ByteSolves(s[b], MaskAt(c, n, b), v);
      ByteSame(s[b]);
      forall k | 0 <= k < |s| && k != b ensures t[k] == s[k] {
        FlipsAreMasks(s, c, n, k);
        MaskInside(c, n, k);
        ByteSame(s[k]);
      }
    } else {
      MaskAcross(c, n);
      MaskFromNonzero(c % 8, 8 - c % 8);
      MaskFromNonzero(0, n - (8 - c % 8));
      FlipsAreMasks(s, c, n, b + 1);
      ByteSolves(s[b], MaskAt(c, n, b), s[b]);
      ByteSame(s[b]);
      ByteSolves(s[b + 1], MaskAt(c, n, b + 1), s[b + 1]);
      ByteSame(s[b + 1]);
      assert t[b] != s[b] && t[b + 1] != s[b + 1];
    }
  }

  lemma HitsOnce(s: seq<byte>, i: nat, v: byte, n: nat, c: nat, d: nat)
    requires i < |s| && HitsAt(s, i, v, n, c) && HitsAt(s, i, v, n, d)
    ensures c == d
  {
    assert SeeHit(0);
    PatternsDiffer(XorByte(s[i], v), n, c % 8, n, d % 8);
  }

  lemma {:induction false} FlipRunAt(s: seq<byte>, n: nat, k: nat, c: nat)
    requires n >= 1 && k + n - 1 <= 8 * |s| && c < k
    ensures |FlipRuns(s, n, k)| == k && FlipRuns(s, n, k)[c] == FlipMany(s, c, n)
  {
    if k > 1 {
      FlipRunAt(s, n, k - 1, if c < k - 1 then c else 0);
    }
  }

  lemma FlipRunIs(s: seq<byte>, n: nat, c: nat, i: nat, v: byte)
    requires i < |s| && v != s[i] && n in {1, 2, 4} && c < 8 * |s| - n + 1
    ensures |FlipStage(s, n)| == 8 * |s| - n + 1
    ensures FlipStage(s, n)[c] == s[i := v] <==> HitsAt(s, i, v, n, c)
  {
    FlipRunAt(s, n, 8 * |s| - n + 1, c);
    HitsExactly(s, i, v, n, c);
  }

  /** Over a whole walk each change within a byte is made exactly once. */
  lemma FlipStageCount(s: seq<byte>, n: nat, i: nat, v: byte)
    requires i < |s| && v != s[i] && n in {1, 2, 4}
    ensures Count(FlipStage(s, n), s[i := v]) == One(IsPattern(XorByte(s[i], v), n))
  {
    var q, y := FlipStage(s, n), s[i := v];
    FlipRunIs(s, n, 0, i, v);
    forall c, d | 0 <= c < d < |q| ensures !(q[c] == y && q[d] == y) {
      FlipRunIs(s, n, c, i, v);
      FlipRunIs(s, n, d, i, v);
      if q[c] == y && q[d] == y {
        HitsOnce(s, i, v, n, c, d);
      }
    }
    CountOnce(q, y);
    FlipStageHas(s, n, i, v);
  }

  lemma FlipStageHas(s: seq<byte>, n: nat, i: nat, v: byte)
    requires i < |s| && v != s[i] && n in {1, 2, 4}
    ensures s[i := v] in FlipStage(s, n) <==> IsPattern(XorByte(s[i], v), n)
  {
    var q, y := FlipStage(s, n), s[i := v];
    FlipRunIs(s, n, 0, i, v);
    if y in q {
      var c :| 0 <= c < |q| && q[c] == y;
      FlipRunIs(s, n, c, i, v);
      HitIsPattern(s, i, v, n, c);
    }
    if IsPattern(XorByte(s[i], v), n) {
      var c := PatternHits(s, i, v, n);
      FlipRunIs(s, n, c, i, v);
    }
  }

  lemma HitIsPattern(s: seq<byte>, i: nat, v: byte, n: nat, c: nat)
    requires i < |s| && HitsAt(s, i, v, n, c)
    ensures IsPattern(XorByte(s[i], v), n)
  {
    assert SeeHit(0);
  }

  lemma PatternHits(s: seq<byte>, i: nat, v: byte, n: nat) returns (c: nat)
    requires i < |s| && IsPattern(XorByte(s[i], v), n)
    ensures HitsAt(s, i, v, n, c) && c < 8 * |s| - n + 1
  {
    var r: nat :| IsPatternAt(XorByte(s[i], v), n, r);
    c := 8 * i + r;
    assert c / 8 == i && c % 8 == r;
  }
}
