/** Words in either byte order, and adding to them. */
module Words {
  import opened Bytes
  import opened Bits

  function Reversed(s: seq<byte>): (r: seq<byte>)
    ensures |r| == |s|
  {
    seq(|s|, i requires 0 <= i < |s| => s[|s| - 1 - i])
  }

  function Oriented(s: seq<byte>, big: bool): (r: seq<byte>)
    ensures |r| == |s|
  {
    if big then Reversed(s) else s
  }

  function Pow256(n: nat): (p: nat)
    ensures p > 0
  {
    if n == 0 then 1 else 256 * Pow256(n - 1)
  }

  /** The word in these bytes with `delta` added, wrapping around. */
  function Sum(s: seq<byte>, delta: int, big: bool): (w: nat)
    ensures w < Pow256(|s|)
  {
    (Word(Oriented(s, big)) + delta) % Pow256(|s|)
  }

  function Adjusted(s: seq<byte>, delta: int, big: bool): (r: seq<byte>)
    ensures |r| == |s|
  {
    Oriented(BytesOf(Sum(s, delta, big), |s|), big)
  }

  lemma {:induction false} WordOfBytes(w: nat, n: nat)
    requires w < Pow256(n)
    ensures Word(BytesOf(w, n)) == w
  {
    if n > 0 {
      WordOfBytes(w / 256, n - 1);
      WordCons(w % 256, BytesOf(w / 256, n - 1));
    }
  }

  lemma OrientTwice(s: seq<byte>, big: bool)
    ensures Oriented(Oriented(s, big), big) == s
  {
  }

  /** Read back in the same byte order, the word has changed by exactly `delta`. */
  lemma AdjustedBy(s: seq<byte>, delta: int, big: bool)
    ensures Word(Oriented(Adjusted(s, delta, big), big)) == Sum(s, delta, big)
  {
    OrientTwice(BytesOf(Sum(s, delta, big), |s|), big);
    WordOfBytes(Sum(s, delta, big), |s|);
  }

  // ---- The two ends of a word ----

  lemma {:induction false} WordSplit(o: seq<byte>, h: nat)
    requires h <= |o|
    ensures Word(o) == Word(o[..h]) + Pow256(h) * Word(o[h..])
  {
    if h == 0 {
      assert o[0..] == o;
    } else {
      WordSplit(o[1..], h - 1);
      assert o[1..][..h - 1] == o[..h][1..] && o[1..][h - 1..] == o[h..];
      Associate(256, Pow256(h - 1), Word(o[h..]));
    }
  }

  lemma Associate(a: nat, b: nat, c: nat)
    ensures a * (b * c) == a * b * c
  {
  }

  lemma {:induction false} BytesSplit(a: nat, b: nat, h: nat, n: nat)
    requires a < Pow256(h)
    ensures BytesOf(a + Pow256(h) * b, h + n) == BytesOf(a, h) + BytesOf(b, n)
  {
    if h > 0 {
      BytesSplit(a / 256, b, h - 1, n);
      Associate(256, Pow256(h - 1), b);
      LowByteOf(a, Pow256(h - 1) * b);
    }
  }

  lemma LowByteOf(a: nat, m: nat)
    ensures (a + 256 * m) % 256 == a % 256 && (a + 256 * m) / 256 == a / 256 + m
  {
  }

  lemma {:induction false} PowOfSum(a: nat, b: nat)
    ensures Pow256(a + b) == Pow256(a) * Pow256(b)
  {
    if a > 0 {
      PowOfSum(a - 1, b);
      Associate(256, Pow256(a - 1), Pow256(b));
    }
  }

  lemma {:induction false} WordBelow(o: seq<byte>)
    ensures Word(o) < Pow256(|o|)
  {
    if o != [] {
      WordBelow(o[1..]);
    }
  }

  /** Whether adding `delta` to the lowest `h` bytes goes beyond them. */
  predicate Carries(o: seq<byte>, h: nat, delta: int)
    requires h <= |o|
  {
    !(0 <= Word(o[..h]) + delta < Pow256(h))
  }

  /** What the bytes beyond the lowest ones are changed by. */
  function Carried(delta: int): int {
    if delta < 0 then -1 else 1
  }

  lemma Remainder(v: nat, w: int, n: nat)
    requires v < n && (w == v || w == v + n || w == v - n)
    ensures n > 0 && w % n == v
  {
    if w == v + n {
      WrapsOnce(w, v, n, 1);
    } else if w == v - n {
      WrapsOnce(w, v, n, -1);
    } else {
      WrapsOnce(w, v, n, 0);
    }
  }

  lemma WrapsOnce(w: int, v: nat, n: nat, q: int)
    requires v < n && -1 <= q <= 1 && w == v + q * n
    ensures w % n == v
  {
    assert w == n * (w / n) + w % n;
    assert n * (w / n - q) == v - w % n by { Distributes(n, w / n, q); }
    SmallMultiple(n, w / n - q);
  }

  lemma SmallMultiple(n: nat, e: int)
    requires n * e < n && n * e + n > 0
    ensures e == 0
  {
    Distributes(n, 0, e);
    if e >= 1 {
      AtLeast(n, e);
    } else if e <= -1 {
      AtLeast(n, 0 - e);
    }
  }

  lemma Distributes(n: int, a: int, b: int)
    ensures n * (a - b) == n * a - n * b
  {
  }

  lemma AtLeast(n: nat, e: nat)
    requires e >= 1
    ensures n * e >= n
  {
  }

  lemma LowPart(a: nat, p: nat, delta: int) returns (x: nat, c: int)
    requires a < p && delta < p && delta + p > 0
    ensures c == if 0 <= a + delta < p then 0 else Carried(delta)
    ensures x < p && (a + delta) % p == x && a + delta == x + p * c
  {
    c := if 0 <= a + delta < p then 0 else Carried(delta);
    x := if c == 0 then a + delta else if c == 1 then a + delta - p else a + delta + p;
    Remainder(x, a + delta, p);
  }

  lemma HighPart(b: nat, c: int, q: nat) returns (z: nat, d: int)
    requires b < q && -1 <= c <= 1
    ensures z < q && (b + c) % q == z && -1 <= d <= 1 && b + c == z + q * d
  {
    d := if b + c == q then 1 else if b + c == -1 then -1 else 0;
    z := if d == 1 then 0 else if d == -1 then q - 1 else b + c;
    Remainder(z, b + c, q);
  }

  /** The two ends of the sum: the lower one wraps around, and the higher one takes the carry. */
  lemma SumParts(a: nat, b: nat, p: nat, q: nat, delta: int)
    requires a < p && b < q && delta < p && delta + p > 0
    ensures var c := if 0 <= a + delta < p then 0 else Carried(delta);
            p * q > 0 && (a + p * b + delta) % (p * q) == (a + delta) % p + p * ((b + c) % q)
  {
    var x, c := LowPart(a, p, delta);
    var z, d := HighPart(b, c, q);
    ProductBound(x, z, p, q);
    Assembles(a + delta, b, p, q, x, c, z, d);
    WrapsOnce(a + p * b + delta, x + p * z, p * q, d);
  }

  lemma Assembles(w: int, b: nat, p: nat, q: nat, x: nat, c: int, z: nat, d: int)
    requires w == x + p * c && b + c == z + q * d
    ensures w + p * b == x + p * z + d * (p * q)
  {
    assert p * b + p * c == p * (b + c) == p * z + p * (q * d);
    assert p * (q * d) == d * (p * q);
  }

  lemma ProductBound(x: nat, z: nat, p: nat, q: nat)
    requires x < p && z < q
    ensures x + p * z < p * q
  {
    Distributes(p, q, z);
    AtLeast(p, q - z);
  }

  /** The bytes of a sum, low ones first. */
  lemma SumBytes(o: seq<byte>, h: nat, delta: int)
    requires h <= |o| && delta < Pow256(h) && delta + Pow256(h) > 0
    ensures var c := if Carries(o, h, delta) then Carried(delta) else 0;
            BytesOf((Word(o) + delta) % Pow256(|o|), |o|)
            == BytesOf((Word(o[..h]) + delta) % Pow256(h), h) + BytesOf((Word(o[h..]) + c) % Pow256(|o| - h), |o| - h)
  {
    var c := if Carries(o, h, delta) then Carried(delta) else 0;
    WordSplit(o, h);
    WordBelow(o[..h]);
    WordBelow(o[h..]);
    PowOfSum(h, |o| - h);
    SumParts(Word(o[..h]), Word(o[h..]), Pow256(h), Pow256(|o| - h), delta);
    BytesSplit((Word(o[..h]) + delta) % Pow256(h), (Word(o[h..]) + c) % Pow256(|o| - h), h, |o| - h);
  }

  lemma KeptBytes(x: seq<byte>, c: int)
    requires c == 0
    ensures BytesOf((Word(x) + c) % Pow256(|x|), |x|) == x
  {
    WordBelow(x);
    Remainder(Word(x), Word(x), Pow256(|x|));
    BytesOfWord(x);
  }

  /** Without a carry nothing above the lower part changes. */
  lemma NoCarryKeeps(o: seq<byte>, h: nat, delta: int)
    requires h <= |o| && delta < Pow256(h) && delta + Pow256(h) > 0 && !Carries(o, h, delta)
    ensures BytesOf((Word(o) + delta) % Pow256(|o|), |o|) == BytesOf((Word(o[..h]) + delta) % Pow256(h), h) + o[h..]
  {
    var low, high := o[..h], o[h..];
    SumBytes(o, h, delta);
    KeptBytes(high, 0);
    assert |high| == |o| - h;
  }
}
