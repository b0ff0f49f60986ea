/** Hit counts put into classes: the slow way, byte by byte, and the fast way, by pairs of
    bytes through a table, skipping words of zeros. */
module Classify {
  import opened Bytes
  import opened Bits
  import opened Bitmap

  // ---- What a class tells ----

  predicate Apart(a: byte, b: byte, bound: byte) {
    (a < bound) != (b < bound)
  }

  // No bound between two classes lies between the two counts.
  predicate Alike(a: byte, b: byte) {
    && !Apart(a, b, 1) && !Apart(a, b, 2) && !Apart(a, b, 3) && !Apart(a, b, 4)
    && !Apart(a, b, 8) && !Apart(a, b, 16) && !Apart(a, b, 32) && !Apart(a, b, 128)
  }

  /** Two counts fall into the same class exactly if no bound lies between them; greater counts fall
      into greater classes; and each class but that of zero is one bit. */
  lemma ClassesExactly(a: byte, b: byte)
    ensures CountClass(a) == CountClass(b) <==> Alike(a, b)
    ensures a <= b ==> CountClass(a) <= CountClass(b)
    ensures Pop(CountClass(a)) == if a == 0 then 0 else 1
  {
    OneBit(a);
  }

  lemma OneBit(a: byte)
    ensures Pop(CountClass(a)) == if a == 0 then 0 else 1
  {
    assert Pop(1) == 1 && Pop(2) == 1 && Pop(4) == 1 && Pop(8) == 1;
    assert Pop(16) == Pop(8) && Pop(32) == Pop(16) && Pop(64) == Pop(32) && Pop(128) == Pop(64);
  }

  /** Two traces become the same map exactly if no count of one lies across a bound from the other's. */
  lemma TracesAlike(s: seq<byte>, t: seq<byte>)
    requires |s| == |t|
    ensures Classified(s) == Classified(t) <==> forall i | 0 <= i < |s| :: Alike(s[i], t[i])
  {
    forall i | 0 <= i < |s| ensures Classified(s)[i] == Classified(t)[i] <==> Alike(s[i], t[i]) {
      ClassesExactly(s[i], t[i]);
    }
  }

  // ---- The table of pairs ----

  lemma {:induction false} OrAbove(x: nat, y: nat, n: nat)
    requires y < Pow2(n)
    ensures Or(Pow2(n) * x, y) == Pow2(n) * x + y
  {
    if n == 0 {
      assert y == 0;
    } else {
      var a := Pow2(n) * x;
      assert a == 2 * (Pow2(n - 1) * x);
      OrAbove(x, y / 2, n - 1);
      OrDouble(Pow2(n - 1) * x, y);
    }
  }

  lemma OrDouble(h: nat, y: nat)
    ensures Or(2 * h, y) == y % 2 + 2 * Or(h, y / 2)
  {
    var a := 2 * h;
    assert a % 2 == 0 && a / 2 == h;
    assert Or(0, y / 2) == y / 2 && Or(h, 0) == h;
  }

  lemma OrBytes(x: byte, y: byte)
    ensures Or(256 * x, y) == 256 * x + y
  {
    assert Pow2(8) == 256;
    OrAbove(x, y, 8);
  }

  /** Two bytes classified at once. */
  function PairClass(b1: byte, b2: byte): nat {
    256 * CountClass(b1) + CountClass(b2)
  }

  ghost predicate IsTable(table: seq<nat>) {
    |table| == 65536 && forall b1: byte, b2: byte :: table[256 * b1 + b2] == PairClass(b1, b2)
  }

  method InitCountClass16() returns (table: array<nat>)
    ensures IsTable(table[..])
  {
    table := new nat[65536](_ => 0);
    for b1 := 0 to 256
      invariant forall x: byte, y: byte | x < b1 :: table[256 * x + y] == PairClass(x, y)
    {
      for b2 := 0 to 256
        invariant forall x: byte, y: byte | x < b1 :: table[256 * x + y] == PairClass(x, y)
        invariant forall y: byte | y < b2 :: table[256 * b1 + y] == PairClass(b1, y)
      {
        OrBytes(CountClass(b1), CountClass(b2));
        table[256 * b1 + b2] := Or(256 * CountClass(b1), CountClass(b2));
      }
    }
  }

  // ---- The two classifiers ----

  method ClassifyNaively(mem: array<byte>)
    modifies mem
    ensures mem[..] == Classified(old(mem[..]))
  {
    ghost var s := mem[..];
    for i := 0 to mem.Length
      invariant mem[..i] == Classified(s)[..i] && mem[i..] == s[i..]
    {
      mem[i] := CountClass(mem[i]);
    }
  }

  /** The bytes before `p` are classified, the others are not. */
  ghost predicate ClassifiedTo(mem: array<byte>, s: seq<byte>, p: nat)
    reads mem
  {
    p <= |s| == mem.Length && mem[..] == Classified(s)[..p] + s[p..]
  }

  method ClassifyPair(mem: array<byte>, p: nat, table: seq<nat>, ghost s: seq<byte>)
    requires IsTable(table) && ClassifiedTo(mem, s, p) && p + 2 <= |s|
    modifies mem
    ensures ClassifiedTo(mem, s, p + 2)
  {
    var lo, hi := mem[p], mem[p + 1];
    assert lo == s[p] && hi == s[p + 1];
    var index: int := 256 * (hi as int) + lo;
    var w := table[index];
    assert w == 256 * CountClass(hi) + CountClass(lo) by {
      assert table[index] == PairClass(hi, lo);
    }
    SplitPair(CountClass(hi), CountClass(lo));
    var x, y := w / 256, w % 256;
    mem[p], mem[p + 1] := y, x;
  }

  lemma SplitPair(x: byte, y: byte)
    ensures (256 * x + y) % 256 == y && (256 * x + y) / 256 == x
  {
  }

  /** A map of whole 64-bit words; a word of zeros is skipped, as its class is itself. */
  method ClassifyCounts(mem: array<byte>, table: seq<nat>)
    requires IsTable(table) && mem.Length % 8 == 0
    modifies mem
    ensures mem[..] == Classified(old(mem[..]))
  {
    ghost var s := mem[..];
    var p := 0;
    ghost var k, words := 0, mem.Length / 8;
    assert mem.Length == 8 * words;
    while p < mem.Length
      invariant p == 8 * k && k <= words && ClassifiedTo(mem, s, p)
    {
      ClassifyWord(mem, p, table, s);
      p, k := p + 8, k + 1;
    }
  }

  method ClassifyWord(mem: array<byte>, p: nat, table: seq<nat>, ghost s: seq<byte>)
    requires IsTable(table) && ClassifiedTo(mem, s, p) && p + 8 <= |s|
    modifies mem
    ensures ClassifiedTo(mem, s, p + 8)
  {
    WordZero(mem[p..p + 8]);
    if Word(mem[p..p + 8]) != 0 {
      ClassifyPair(mem, p, table, s);
      ClassifyPair(mem, p + 2, table, s);
      ClassifyPair(mem, p + 4, table, s);
      ClassifyPair(mem, p + 6, table, s);
    } else {
      ZerosStay(mem[..], s, p, mem[p..p + 8]);
    }
  }

  lemma ZerosStay(m: seq<byte>, s: seq<byte>, p: nat, word: seq<byte>)
    requires p + 8 <= |s| == |m| && m == Classified(s)[..p] + s[p..] && word == m[p..p + 8]
    requires forall i | 0 <= i < |word| :: word[i] == 0
    ensures m == Classified(s)[..p + 8] + s[p + 8..]
  {
    forall i | p <= i < p + 8 ensures s[i] == 0 {
      assert word[i - p] == m[i] == s[i];
    }
  }
}
