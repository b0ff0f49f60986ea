/** Bit flips, and the test whether a change could have come from one. */
module Flips {
  import opened Bytes
  import opened Bits

  function Xor(a: nat, b: nat): nat
    decreases a + b
  {
    if a == 0 then b
    else if b == 0 then a
    else (a + b) % 2 + 2 * Xor(a / 2, b / 2)
  }

  lemma {:induction false} XorDigits(a: nat, b: nat)
    ensures Xor(a, b) % 2 == (a + b) % 2 && Xor(a, b) / 2 == Xor(a / 2, b / 2)
  {
    if a > 0 && b > 0 {
      TwoDigits((a + b) % 2, Xor(a / 2, b / 2));
    }
  }

  lemma TwoDigits(low: nat, high: nat)
    requires low < 2
    ensures (low + 2 * high) % 2 == low && (low + 2 * high) / 2 == high
  {
  }

  lemma {:induction false} XorSame(a: nat)
    ensures Xor(a, a) == 0
  {
    if a > 0 { XorSame(a / 2); }
  }

  lemma {:induction false} XorComm(a: nat, b: nat)
    ensures Xor(a, b) == Xor(b, a)
  {
    if a > 0 && b > 0 { XorComm(a / 2, b / 2); }
  }

  lemma SameDigits(x: nat, y: nat)
    requires x % 2 == y % 2 && x / 2 == y / 2
    ensures x == y
  {
  }

  lemma {:induction false} XorAssoc(a: nat, b: nat, c: nat)
    ensures Xor(Xor(a, b), c) == Xor(a, Xor(b, c))
    decreases a + b + c
  {
    if a > 0 && b > 0 && c > 0 {
      XorAssoc(a / 2, b / 2, c / 2);
      var p, q := Xor(a, b), Xor(b, c);
      XorDigits(a, b);
      XorDigits(b, c);
      XorDigits(p, c);
      XorDigits(a, q);
      ParityAssoc(a, b, c, p, q);
      SameDigits(Xor(p, c), Xor(a, q));
    }
  }

  lemma ParityAssoc(a: nat, b: nat, c: nat, p: nat, q: nat)
    requires p % 2 == (a + b) % 2 && q % 2 == (b + c) % 2
    ensures (p + c) % 2 == (a + q) % 2
  {
  }

  lemma {:induction false} XorBound(a: nat, b: nat, n: nat)
    requires a < Pow2(n) && b < Pow2(n)
    ensures Xor(a, b) < Pow2(n)
  {
    if a > 0 && b > 0 {
      XorBound(a / 2, b / 2, n - 1);
    }
  }

  /** The change is determined by the two values, and the other way round. */
  lemma XorSolves(a: nat, m: nat, b: nat)
    ensures Xor(a, m) == b <==> m == Xor(a, b)
  {
    XorAssoc(a, a, m);
    XorAssoc(a, a, b);
    XorSame(a);
  }

  ghost predicate IsXor(a: byte, m: byte, r: byte) {
    forall k | SeeXor(k) :: r == Xor(a, m)
  }

  predicate SeeXor(k: int) { k == 0 }

  /** The exclusive or of two bytes, known outside only by the lemmas below. */
  ghost function XorByte(a: byte, m: byte): byte {
    XorBound(a, m, 8);
    var x: byte := Xor(a, m);
    assert IsXor(a, m, x);
    var r: byte :| IsXor(a, m, r);
    r
  }

  lemma XorByteIs(a: byte, m: byte)
    ensures XorByte(a, m) == Xor(a, m)
  {
    assert SeeXor(0);
  }

  lemma ByteAssoc(a: byte, b: byte, c: byte)
    ensures XorByte(XorByte(a, b), c) == XorByte(a, XorByte(b, c))
  {
    XorByteIs(a, b);
    XorByteIs(b, c);
    XorByteIs(XorByte(a, b), c);
    XorByteIs(a, XorByte(b, c));
    XorAssoc(a, b, c);
  }

  lemma ByteSolves(a: byte, m: byte, b: byte)
    ensures XorByte(a, m) == b <==> m == XorByte(a, b)
  {
    XorByteIs(a, m);
    XorByteIs(a, b);
    XorSolves(a, m, b);
  }

  lemma ByteSame(a: byte)
    ensures XorByte(a, a) == 0 && XorByte(a, 0) == a && XorByte(0, a) == a
  {
    XorByteIs(a, a);
    XorByteIs(a, 0);
    XorByteIs(0, a);
    XorSame(a);
  }

  lemma {:induction false} XorOnes(a: nat, n: nat)
    requires a < Pow2(n)
    ensures Xor(a, Pow2(n) - 1) == Pow2(n) - 1 - a
  {
    if n > 0 {
      var m := Pow2(n) - 1;
      RestDigits(a, Pow2(n - 1), m);
      XorOnes(a / 2, n - 1);
      XorDigits(a, m);
      SameDigits(Xor(a, m), m - a);
    }
  }

  lemma RestDigits(a: nat, p: nat, m: nat)
    requires a < 2 * p && m == 2 * p - 1
    ensures a / 2 < p && m / 2 == p - 1 && (m - a) / 2 == p - 1 - a / 2 && (m - a) % 2 == (a + m) % 2
  {
    var h, l := a / 2, a % 2;
    assert a == 2 * h + l && m - a == 2 * (p - 1 - h) + (1 - l) && a + m == 2 * (h + p - 1 + l) + (1 - l);
  }

  /** Flipping all bits of a byte. */
  lemma ByteFlipped(b: byte)
    ensures XorByte(b, 255) == 255 - b
  {
    assert Pow2(4) == 16 && Pow2(8) == 256;
    XorByteIs(b, 255);
    XorOnes(b, 8);
  }

  // ---- Could a change be a flip? ----

  function Stripped(x: nat): nat
    requires x > 0
  {
    if x % 2 == 1 then x else Stripped(x / 2)
  }

  function Shift(x: nat): nat
    requires x > 0
  {
    if x % 2 == 1 then 0 else 1 + Shift(x / 2)
  }

  lemma {:induction false} StripShift(x: nat)
    requires x > 0
    ensures x == Stripped(x) * Pow2(Shift(x)) && Stripped(x) % 2 == 1
  {
    if x % 2 == 0 { StripShift(x / 2); }
  }

  lemma Regroup(a: nat, b: nat, c: nat)
    ensures c * (a * b) == a * (c * b)
  {
  }

  lemma StripDouble(x: nat, y: nat)
    requires x > 0 && y == 2 * x
    ensures Stripped(y) == Stripped(x) && Shift(y) == Shift(x) + 1
  {
    assert y / 2 == x;
  }

  lemma {:induction false} StripTimes(o: nat, j: nat)
    requires o > 0
    ensures o * Pow2(j) > 0 && Stripped(o * Pow2(j)) == Stripped(o) && Shift(o * Pow2(j)) == Shift(o) + j
  {
    if j > 0 {
      StripTimes(o, j - 1);
      Regroup(o, Pow2(j - 1), 2);
      StripDouble(o * Pow2(j - 1), o * Pow2(j));
    }
  }

  lemma OddIsBare(x: nat)
    requires x % 2 == 1
    ensures Stripped(x) == x && Shift(x) == 0
  {
  }

  lemma StripUnique(p: nat, s: nat)
    requires p % 2 == 1
    ensures p * Pow2(s) > 0 && Stripped(p * Pow2(s)) == p && Shift(p * Pow2(s)) == s
  {
    StripTimes(p, s);
    OddIsBare(p);
  }

  /** Runs of 1, 2 or 4 bits anywhere, of 8, 16 or 32 bits at a byte. */
  ghost predicate FlipPattern(x: nat, p: nat, s: nat) {
    x == p * Pow2(s) && (p in {1, 3, 15} || (p in {0xff, 0xffff, 0xffff_ffff} && s % 8 == 0))
  }

  ghost predicate CouldBeFlip(x: nat) {
    x == 0 || exists p: nat, s: nat :: FlipPattern(x, p, s)
  }

  predicate LooksLikeFlip(odd: nat, sh: nat) {
    odd == 1 || odd == 3 || odd == 15 || (sh % 8 == 0 && (odd == 0xff || odd == 0xffff || odd == 0xffff_ffff))
  }

  lemma PatternLooks(p: nat, s: nat)
    requires FlipPattern(p * Pow2(s), p, s)
    ensures p * Pow2(s) > 0 && LooksLikeFlip(Stripped(p * Pow2(s)), Shift(p * Pow2(s)))
  {
    StripUnique(p, s);
  }

  lemma FlipByShape(x: nat)
    requires x > 0
    ensures CouldBeFlip(x) <==> LooksLikeFlip(Stripped(x), Shift(x))
  {
    if p: nat, s: nat :| FlipPattern(x, p, s) {
      PatternLooks(p, s);
    }
    if LooksLikeFlip(Stripped(x), Shift(x)) {
      StripShift(x);
      assert FlipPattern(x, Stripped(x), Shift(x));
    }
  }

  method CouldBeBitflip(xorVal: nat) returns (yes: bool)
    requires xorVal < 0x1_0000_0000
    ensures yes == CouldBeFlip(xorVal)
  {
    var x, sh := xorVal, 0;
    if x == 0 {
      return true;
    }
    FlipByShape(xorVal);
    while x % 2 == 0
      invariant x > 0 && Stripped(x) == Stripped(xorVal) && sh + Shift(x) == Shift(xorVal)
      decreases x
    {
      sh, x := sh + 1, x / 2;
    }
    if x == 1 || x == 3 || x == 15 {
      return true;
    }
    if sh % 8 != 0 {
      return false;
    }
    return x == 0xff || x == 0xffff || x == 0xffff_ffff;
  }

  // ---- Flips within one byte ----

  /** The change made to a byte by flipping `n` of its bits from the `r`-th on, the most
      significant bit first. */
  function Pattern(n: nat, r: nat): (m: byte)
    requires r + n <= 8
  {
    PowGrows(8 - r - n, 8 - r);
    PowGrows(8 - r, 8);
    Pow2(8 - r) - Pow2(8 - r - n)
  }

  predicate IsPatternAt(m: nat, n: nat, r: nat) {
    n in {1, 2, 4, 8} && r + n <= 8 && m == Pattern(n, r)
  }

  ghost predicate IsPattern(m: nat, n: nat) {
    exists r: nat :: IsPatternAt(m, n, r)
  }

  lemma {:induction false} PowSum(a: nat, b: nat)
    ensures Pow2(a + b) == Pow2(a) * Pow2(b)
  {
    if a > 0 {
      PowSum(a - 1, b);
      Regroup(Pow2(b), Pow2(a - 1), 2);
    }
  }

  lemma OneLess(p: nat, q: nat)
    requires p > 0
    ensures (p - 1) * q == p * q - q
  {
  }

  lemma RunShape(n: nat, j: nat)
    requires n > 0
    ensures Pow2(n + j) > Pow2(j)
    ensures Stripped(Pow2(n + j) - Pow2(j)) == Pow2(n) - 1 && Shift(Pow2(n + j) - Pow2(j)) == j
  {
    PowSum(n, j);
    OneLess(Pow2(n), Pow2(j));
    OneBelow(n);
    StripTimes(Pow2(n) - 1, j);
  }

  lemma OneBelow(n: nat)
    requires n > 0
    ensures Pow2(n) > 1 && Stripped(Pow2(n) - 1) == Pow2(n) - 1 && Shift(Pow2(n) - 1) == 0
  {
    StripOdd(Pow2(n - 1), Pow2(n) - 1);
  }

  lemma StripOdd(p: nat, y: nat)
    requires p > 0 && y == 2 * p - 1
    ensures Stripped(y) == y && Shift(y) == 0
  {
    assert y == 2 * (p - 1) + 1;
    OddIsBare(y);
  }

  lemma PatternIsRun(n: nat, r: nat, j: nat)
    requires 1 <= n && n + j + r == 8
    ensures Pattern(n, r) == Pow2(n + j) - Pow2(j)
  {
    assert n + j == 8 - r && j == 8 - r - n;
  }

  lemma PatternShape(n: nat, r: nat)
    requires 1 <= n && r + n <= 8
    ensures Pattern(n, r) > 0 && Stripped(Pattern(n, r)) == Pow2(n) - 1 && Shift(Pattern(n, r)) == 8 - n - r
  {
    var j := 8 - n - r;
    PatternIsRun(n, r, j);
    RunShape(n, j);
  }

  lemma PatternIsFlip(n: nat, r: nat)
    requires n in {1, 2, 4, 8} && r + n <= 8
    ensures CouldBeFlip(Pattern(n, r))
  {
    PatternShape(n, r);
    SmallPowers();
    FlipByShape(Pattern(n, r));
  }

  lemma SmallPowers()
    ensures Pow2(0) == 1 && Pow2(1) == 2 && Pow2(2) == 4 && Pow2(3) == 8 && Pow2(4) == 16
    ensures Pow2(5) == 32 && Pow2(6) == 64 && Pow2(7) == 128 && Pow2(8) == 256
  {
  }

  lemma FlipFits(p: nat, s: nat)
    requires p in {1, 3, 15, 0xff, 0xffff, 0xffff_ffff} && p * Pow2(s) < 256 && (p >= 0xff ==> s % 8 == 0)
    ensures s < 8 && p in {1, 3, 15, 0xff}
    ensures (p == 3 ==> s < 7) && (p == 15 ==> s < 5) && (p == 0xff ==> s == 0)
  {
    SmallPowers();
    if s >= 8 {
      PowGrows(8, s);
      assert false;
    }
  }

  lemma FlipIsPattern(m: byte)
    requires m > 0 && CouldBeFlip(m)
    ensures exists n :: IsPattern(m, n)
  {
    FlipByShape(m);
    StripShift(m);
    var p, s := Stripped(m), Shift(m);
    FlipFits(p, s);
    var n := if p == 1 then 1 else if p == 3 then 2 else if p == 15 then 4 else 8;
    SamePattern(m, n, 8 - n - s);
    assert IsPattern(m, n);
  }

  lemma SamePattern(m: byte, n: nat, r: nat)
    requires m > 0 && n in {1, 2, 4, 8} && r + n <= 8
    requires Stripped(m) == (if n == 1 then 1 else if n == 2 then 3 else if n == 4 then 15 else 255)
             && Shift(m) == 8 - n - r
    ensures IsPatternAt(m, n, r)
  {
    PatternShape(n, r);
    SmallPowers();
    StripShift(m);
    StripShift(Pattern(n, r));
  }

  lemma {:induction false} PowGrows(a: nat, b: nat)
    requires a <= b
    ensures Pow2(a) <= Pow2(b)
  {
    if a < b { PowGrows(a, b - 1); }
  }

  /** Within a byte the test is exact: it says yes to no change, and to the changes made
      by one of the flips that stay within the byte. */
  lemma ByteFlips(m: byte)
    ensures CouldBeFlip(m) <==> m == 0 || exists n :: IsPattern(m, n)
  {
    if m > 0 && CouldBeFlip(m) {
      FlipIsPattern(m);
    }
    if n :| IsPattern(m, n) {
      var r: nat :| IsPatternAt(m, n, r);
      PatternIsFlip(n, r);
    }
  }

  /** A change tells which bits were flipped. */
  lemma PatternsDiffer(m: nat, n: nat, r: nat, k: nat, q: nat)
    requires IsPatternAt(m, n, r) && IsPatternAt(m, k, q)
    ensures n == k && r == q
  {
    PatternShape(n, r);
    PatternShape(k, q);
    SmallPowers();
  }
}
