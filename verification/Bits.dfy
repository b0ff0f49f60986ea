/** Bitwise operations on naturals, digit by digit, and little-endian words. The facts here let a
    loop over machine words be read as a loop over the bytes they hold, whatever the word size. */
module Bits {
  import opened Bytes

  function And(a: nat, b: nat): (r: nat)
    ensures r <= a && r <= b
  {
    if a == 0 || b == 0 then 0
    else (if a % 2 == 1 && b % 2 == 1 then 1 else 0) + 2 * And(a / 2, b / 2)
  }

  // a & ~b
  function AndNot(a: nat, b: nat): (r: nat)
    ensures r <= a
  {
    if a == 0 then 0
    else (if a % 2 == 1 && b % 2 == 0 then 1 else 0) + 2 * AndNot(a / 2, b / 2)
  }

  function Or(a: nat, b: nat): nat
    decreases a + b
  {
    if a == 0 then b
    else if b == 0 then a
    else (if a % 2 == 1 || b % 2 == 1 then 1 else 0) + 2 * Or(a / 2, b / 2)
  }

  function Pow2(n: nat): (p: nat)
    ensures p > 0
  {
    if n == 0 then 1 else 2 * Pow2(n - 1)
  }

  // The number of bits set.
  function Pop(a: nat): nat {
    if a == 0 then 0 else a % 2 + Pop(a / 2)
  }

  lemma {:induction false} AndNotIsRest(a: nat, b: nat)
    ensures AndNot(a, b) + And(a, b) == a
  {
    if a != 0 {
      AndNotIsRest(a / 2, b / 2);
      if b == 0 {
        assert And(a / 2, 0) == 0;
      }
    }
  }

  lemma {:induction false} PopSplit(a: nat, b: nat)
    ensures Pop(AndNot(a, b)) + Pop(And(a, b)) == Pop(a)
  {
    if a != 0 {
      var l := if a % 2 == 1 && b % 2 == 0 then 1 else 0;
      var m := if a % 2 == 1 && b % 2 == 1 then 1 else 0;
      PopSplit(a / 2, b / 2);
      PopDouble(AndNot(a / 2, b / 2), l);
      PopDouble(And(a / 2, b / 2), m);
      assert AndNot(a, b) == l + 2 * AndNot(a / 2, b / 2) && And(a, b) == m + 2 * And(a / 2, b / 2);
    }
  }

  lemma PopDouble(h: nat, bit: nat)
    requires bit < 2
    ensures Pop(bit + 2 * h) == bit + Pop(h)
  {
  }

  lemma {:induction false} PopZero(a: nat)
    ensures Pop(a) == 0 <==> a == 0
  {
    if a != 0 {
      PopZero(a / 2);
    }
  }

  lemma {:induction false} AndNotTwice(v: nat, a: nat, b: nat)
    ensures AndNot(AndNot(v, a), b) == AndNot(v, Or(a, b))
  {
    if v != 0 {
      AndNotTwice(v / 2, a / 2, b / 2);
      assert Or(a, b) % 2 == (if a % 2 == 1 || b % 2 == 1 then 1 else 0) && Or(a, b) / 2 == Or(a / 2, b / 2);
      var x := AndNot(v, a);
      assert x % 2 == (if v % 2 == 1 && a % 2 == 0 then 1 else 0) && x / 2 == AndNot(v / 2, a / 2);
    }
  }

  // ------------------------------------------------------------ words

  // The little-endian word that some bytes hold.
  function Word(b: seq<byte>): nat {
    if |b| == 0 then 0 else b[0] + 256 * Word(b[1..])
  }

  function BytesOf(w: nat, n: nat): (b: seq<byte>)
    ensures |b| == n
  {
    if n == 0 then [] else [w % 256] + BytesOf(w / 256, n - 1)
  }

  lemma {:induction false} BytesOfWord(b: seq<byte>)
    ensures BytesOf(Word(b), |b|) == b
  {
    if |b| > 0 {
      BytesOfWord(b[1..]);
    }
  }

  lemma {:induction false} WordZero(b: seq<byte>)
    ensures Word(b) == 0 <==> forall i :: 0 <= i < |b| ==> b[i] == 0
  {
    if |b| > 0 {
      WordZero(b[1..]);
      assert forall i :: 0 < i < |b| ==> b[i] == b[1..][i - 1];
      assert forall i :: 0 <= i < |b| - 1 ==> b[1..][i] == b[i + 1];
    }
  }

  // Bitwise operations on whole words: digit by digit in base 256, bit by bit within a digit.
  function WordAnd(v: nat, w: nat): (r: nat)
    ensures r <= v
  {
    if v == 0 || w == 0 then 0 else And(v % 256, w % 256) + 256 * WordAnd(v / 256, w / 256)
  }

  function WordAndNot(v: nat, w: nat): nat {
    if v == 0 then 0 else AndNot(v % 256, w % 256) + 256 * WordAndNot(v / 256, w / 256)
  }

  function AndBytes(a: seq<byte>, b: seq<byte>): (r: seq<byte>)
    requires |a| == |b|
    ensures |r| == |a|
  {
    seq(|a|, i requires 0 <= i < |a| => And(a[i], b[i]))
  }

  function AndNotBytes(a: seq<byte>, b: seq<byte>): (r: seq<byte>)
    requires |a| == |b|
    ensures |r| == |a|
  {
    seq(|a|, i requires 0 <= i < |a| => AndNot(a[i], b[i]))
  }

  // A bitwise operation on words is the operation on their bytes.
  lemma {:induction false} WordAndBytes(a: seq<byte>, b: seq<byte>)
    requires |a| == |b|
    ensures WordAnd(Word(a), Word(b)) == Word(AndBytes(a, b))
  {
    if |a| > 0 {
      var x, y := a[1..], b[1..];
      WordAndBytes(x, y);
      WordAndStep(Word(a), Word(b), a[0], Word(x), b[0], Word(y));
      assert AndBytes(a, b) == [And(a[0], b[0])] + AndBytes(x, y);
      WordCons(And(a[0], b[0]), AndBytes(x, y));
    }
  }

  lemma WordAndStep(v: nat, w: nat, x: byte, vx: nat, y: byte, wy: nat)
    requires v == x + 256 * vx && w == y + 256 * wy
    ensures WordAnd(v, w) == And(x, y) + 256 * WordAnd(vx, wy)
  {
    assert v % 256 == x && v / 256 == vx && w % 256 == y && w / 256 == wy;
    assert And(x, 0) == 0 && And(0, y) == 0;
  }

  lemma {:induction false} WordAndNotBytes(a: seq<byte>, b: seq<byte>)
    requires |a| == |b|
    ensures WordAndNot(Word(a), Word(b)) == Word(AndNotBytes(a, b))
  {
    if |a| > 0 {
      var x, y := a[1..], b[1..];
      WordAndNotBytes(x, y);
      WordAndNotStep(Word(a), Word(b), a[0], Word(x), b[0], Word(y));
      assert AndNotBytes(a, b) == [AndNot(a[0], b[0])] + AndNotBytes(x, y);
      WordCons(AndNot(a[0], b[0]), AndNotBytes(x, y));
    }
  }

  lemma WordAndNotStep(v: nat, w: nat, x: byte, vx: nat, y: byte, wy: nat)
    requires v == x + 256 * vx && w == y + 256 * wy
    ensures WordAndNot(v, w) == AndNot(x, y) + 256 * WordAndNot(vx, wy)
  {
    assert v % 256 == x && v / 256 == vx && w % 256 == y && w / 256 == wy;
    assert AndNot(0, y) == 0;
  }

  lemma WordCons(x: byte, b: seq<byte>)
    ensures Word([x] + b) == x + 256 * Word(b)
  {
    assert ([x] + b)[1..] == b;
  }

  // Reading and writing a word in memory.
  method Store(m: array<byte>, p: nat, w: nat, n: nat)
    requires p + n <= m.Length
    modifies m
    ensures m[..] == old(m[..p]) + BytesOf(w, n) + old(m[p + n..])
  {
    var bytes := BytesOf(w, n);
    forall k | 0 <= k < n {
      m[p + k] := bytes[k];
    }
  }
}
