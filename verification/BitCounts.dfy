/** The word-level counters of a map, four bytes at a time, against counting byte by byte. */
module BitCounts {
  import opened Bytes
  import opened Bits

  type Bit = b: int | 0 <= b < 2

  // ---- Eight bits ----

  datatype Octet = Octet(x0: Bit, x1: Bit, x2: Bit, x3: Bit, x4: Bit, x5: Bit, x6: Bit, x7: Bit)

  function Value(d: Octet): byte {
    d.x0 + 2 * d.x1 + 4 * d.x2 + 8 * d.x3 + 16 * d.x4 + 32 * d.x5 + 64 * d.x6 + 128 * d.x7
  }

  function Ones(d: Octet): nat {
    d.x0 + d.x1 + d.x2 + d.x3 + d.x4 + d.x5 + d.x6 + d.x7
  }

  lemma AndCons(l: Bit, h: nat, ml: Bit, m: nat, v: nat, w: nat)
    requires v == l + 2 * h && w == ml + 2 * m
    ensures And(v, w) == Both(l, ml) + 2 * And(h, m)
  {
    assert v % 2 == l && v / 2 == h && w % 2 == ml && w / 2 == m;
    assert And(h, 0) == 0 && And(0, m) == 0;
  }

  function Both(a: Bit, b: Bit): Bit {
    if a == 1 && b == 1 then 1 else 0
  }

  lemma PopCons(l: Bit, h: nat, v: nat)
    requires v == l + 2 * h
    ensures Pop(v) == l + Pop(h)
  {
    assert v % 2 == l && v / 2 == h;
  }

  /** Every byte has its eight bits. */
  lemma OctetOf(b: byte) returns (d: Octet)
    ensures Value(d) == b
  {
    var h1 := b / 2;
    var h2 := h1 / 2;
    var h3 := h2 / 2;
    var h4 := h3 / 2;
    var h5 := h4 / 2;
    var h6 := h5 / 2;
    d := Octet(b % 2, h1 % 2, h2 % 2, h3 % 2, h4 % 2, h5 % 2, h6 % 2, h6 / 2);
  }

  lemma PopTwo(a: Bit, b: Bit, h: nat, v: nat)
    requires v == a + 2 * b + 4 * h
    ensures Pop(v) == a + b + Pop(h)
  {
    var g := b + 2 * h;
    PopCons(a, g, v);
    PopCons(b, h, g);
  }

  lemma PopFour(a: Bit, b: Bit, c: Bit, d: Bit, h: nat, v: nat, g: nat)
    requires g == c + 2 * d + 4 * h && v == a + 2 * b + 4 * g
    ensures Pop(v) == a + b + c + d + Pop(h)
  {
    PopTwo(a, b, g, v);
    PopTwo(c, d, h, g);
  }

  lemma PopOctet(d: Octet)
    ensures Pop(Value(d)) == Ones(d)
  {
    var h := d.x4 + 2 * d.x5 + 4 * d.x6 + 8 * d.x7;
    PopFour(d.x4, d.x5, d.x6, d.x7, 0, h, d.x6 + 2 * d.x7);
    PopFour(d.x0, d.x1, d.x2, d.x3, h, Value(d), d.x2 + 2 * d.x3 + 4 * h);
    PopOfZero();
  }

  lemma PopOfZero()
    ensures Pop(0) == 0
  {
  }

  lemma AndTwo(a: Bit, b: Bit, h: nat, ma: Bit, mb: Bit, m: nat, v: nat, w: nat)
    requires v == a + 2 * b + 4 * h && w == ma + 2 * mb + 4 * m
    ensures And(v, w) == Both(a, ma) + 2 * Both(b, mb) + 4 * And(h, m)
  {
    var g, n := b + 2 * h, mb + 2 * m;
    AndCons(a, g, ma, n, v, w);
    AndCons(b, h, mb, m, g, n);
  }

  // ---- The three masks, on one byte ----

  lemma KeepEven(a: Bit, b: Bit, h: nat, m: nat, v: nat, w: nat)
    requires v == a + 2 * b + 4 * h && w == 1 + 4 * m
    ensures And(v, w) == a + 4 * And(h, m)
  {
    AndTwo(a, b, h, 1, 0, m, v, w);
  }

  lemma KeepEvens(a: Bit, b: Bit, c: Bit, d: Bit, h: nat, m: nat, v: nat, g: nat, w: nat, n: nat)
    requires g == c + 2 * d + 4 * h && v == a + 2 * b + 4 * g
    requires n == 1 + 4 * m && w == 1 + 4 * n
    ensures And(v, w) == a + 4 * c + 16 * And(h, m)
  {
    KeepEven(a, b, g, n, v, w);
    KeepEven(c, d, h, m, g, n);
  }

  lemma AndMask55(d: Octet)
    ensures And(Value(d), 0x55) == d.x0 + 4 * d.x2 + 16 * d.x4 + 64 * d.x6
  {
    var h := d.x4 + 2 * d.x5 + 4 * d.x6 + 8 * d.x7;
    KeepEvens(d.x4, d.x5, d.x6, d.x7, 0, 0, h, d.x6 + 2 * d.x7, 5, 1);
    KeepEvens(d.x0, d.x1, d.x2, d.x3, h, 5, Value(d), d.x2 + 2 * d.x3 + 4 * h, 0x55, 21);
    AndOfZero();
  }

  lemma AndOfZero()
    ensures And(0, 0) == 0
  {
  }

  lemma KeepPair(f: nat, h: nat, m: nat, v: nat, w: nat)
    requires f < 4 && v == f + 4 * h && w == 3 + 4 * m
    ensures And(v, w) == f + 4 * And(h, m)
  {
    var a: Bit, b: Bit := f % 2, f / 2;
    AndTwo(a, b, h, 1, 1, m, v, w);
  }

  lemma DropPair(f: nat, h: nat, m: nat, v: nat, w: nat)
    requires f < 4 && v == f + 4 * h && w == 4 * m
    ensures And(v, w) == 4 * And(h, m)
  {
    var a: Bit, b: Bit := f % 2, f / 2;
    AndTwo(a, b, h, 0, 0, m, v, w);
  }

  lemma AndMask33(f0: nat, f1: nat, f2: nat, f3: nat, v: nat)
    requires f0 < 4 && f1 < 4 && f2 < 4 && f3 < 4 && v == f0 + 4 * f1 + 16 * f2 + 64 * f3
    ensures And(v, 0x33) == f0 + 16 * f2
  {
    var h2 := f2 + 4 * f3;
    var h1 := f1 + 4 * h2;
    KeepPair(f0, h1, 0xC, v, 0x33);
    DropPair(f1, h2, 3, h1, 0xC);
    KeepPair(f2, f3, 0, h2, 3);
    assert And(f3, 0) == 0;
  }

  lemma AndMask0F(a: nat, b: nat, v: nat)
    requires a < 16 && v == a + 16 * b
    ensures And(v, 0x0F) == a
  {
    var f0, f1 := a % 4, a / 4;
    var h := f1 + 4 * b;
    KeepPair(f0, h, 3, v, 0x0F);
    KeepPair(f1, b, 0, h, 3);
    assert And(b, 0) == 0;
  }
}
