/** The counters of a map as the fuzzer writes them, on 32-bit words, against counting its
    bytes one by one. */
module WordCounts {
  import opened Bytes
  import opened Bits
  import opened BitCounts
  import opened CoverageRuns
  import opened Counting

  const FULL := 0xFFFF_FFFF

  /** The little-endian word of four bytes. */
  function W(b0: nat, b1: nat, b2: nat, b3: nat): nat {
    b0 + 256 * (b1 + 256 * (b2 + 256 * b3))
  }

  lemma AndBytes4(a0: byte, a1: byte, a2: byte, a3: byte, m0: byte, m1: byte, m2: byte, m3: byte)
    ensures WordAnd(W(a0, a1, a2, a3), W(m0, m1, m2, m3)) == W(And(a0, m0), And(a1, m1), And(a2, m2), And(a3, m3))
  {
    var a, b, c := a3, a2 + 256 * a3, a1 + 256 * (a2 + 256 * a3);
    var k, l, m := m3, m2 + 256 * m3, m1 + 256 * (m2 + 256 * m3);
    WordAndStep(a, k, a3, 0, m3, 0);
    WordAndStep(b, l, a2, a, m2, k);
    WordAndStep(c, m, a1, b, m1, l);
    WordAndStep(W(a0, a1, a2, a3), W(m0, m1, m2, m3), a0, c, m0, m);
    assert WordAnd(0, 0) == 0;
  }

  // ---- The three steps and the sum of count_bits ----

  function Step1(v: nat): int { v - WordAnd(v / 2, 0x5555_5555) }

  function Step2(v: nat): nat { WordAnd(v, 0x3333_3333) + WordAnd(v / 4, 0x3333_3333) }

  function Step3(v: nat): nat { WordAnd(v + v / 16, 0x0F0F_0F0F) }

  function Step4(v: nat): nat { v * 0x0101_0101 % 0x1_0000_0000 / 0x100_0000 }

  /** Four fields of two bits. */
  datatype Quad = Quad(f0: nat, f1: nat, f2: nat, f3: nat)

  predicate Small(q: Quad) {
    q.f0 <= 2 && q.f1 <= 2 && q.f2 <= 2 && q.f3 <= 2
  }

  function Fields(q: Quad): nat {
    q.f0 + 4 * q.f1 + 16 * q.f2 + 64 * q.f3
  }

  function QuadOf(d: Octet): Quad {
    Quad(d.x0 + d.x1, d.x2 + d.x3, d.x4 + d.x5, d.x6 + d.x7)
  }

  function Shifted(d: Octet, next: Bit): Octet {
    Octet(d.x1, d.x2, d.x3, d.x4, d.x5, d.x6, d.x7, next)
  }

  lemma ShiftOne(a: Octet, b: Octet, c: Octet, d: Octet)
    ensures W(Value(a), Value(b), Value(c), Value(d)) / 2
         == W(Value(Shifted(a, b.x0)), Value(Shifted(b, c.x0)), Value(Shifted(c, d.x0)), Value(Shifted(d, 0)))
  {
  }

  lemma MaskOdd(d: Octet, v: byte) returns (p: nat)
    requires v == Value(d)
    ensures And(v, 0x55) == p == d.x0 + 4 * d.x2 + 16 * d.x4 + 64 * d.x6
  {
    AndMask55(d);
    p := d.x0 + 4 * d.x2 + 16 * d.x4 + 64 * d.x6;
  }

  lemma FirstMask(a: Octet, b: Octet, c: Octet, d: Octet) returns (p: nat, q: nat, r: nat, s: nat)
    ensures WordAnd(W(Value(a), Value(b), Value(c), Value(d)) / 2, 0x5555_5555) == W(p, q, r, s)
    ensures Value(a) == p + Fields(QuadOf(a)) && Value(b) == q + Fields(QuadOf(b))
    ensures Value(c) == r + Fields(QuadOf(c)) && Value(d) == s + Fields(QuadOf(d))
  {
    ShiftOne(a, b, c, d);
    var e, f, g, h := Value(Shifted(a, b.x0)), Value(Shifted(b, c.x0)), Value(Shifted(c, d.x0)), Value(Shifted(d, 0));
    p := MaskOdd(Shifted(a, b.x0), e);
    q := MaskOdd(Shifted(b, c.x0), f);
    r := MaskOdd(Shifted(c, d.x0), g);
    s := MaskOdd(Shifted(d, 0), h);
    Masked(W(Value(a), Value(b), Value(c), Value(d)) / 2, 0x5555_5555, e, f, g, h, 0x55, p, q, r, s);
  }

  lemma FirstStep(a: Octet, b: Octet, c: Octet, d: Octet)
    ensures Step1(W(Value(a), Value(b), Value(c), Value(d)))
         == W(Fields(QuadOf(a)), Fields(QuadOf(b)), Fields(QuadOf(c)), Fields(QuadOf(d)))
  {
    var p, q, r, s := FirstMask(a, b, c, d);
    WordMinus(Value(a), Value(b), Value(c), Value(d), p, q, r, s);
  }

  lemma WordMinus(a: nat, b: nat, c: nat, d: nat, p: nat, q: nat, r: nat, s: nat)
    requires p <= a && q <= b && r <= c && s <= d
    ensures W(a, b, c, d) - W(p, q, r, s) == W(a - p, b - q, c - r, d - s)
  {
  }

  lemma Masked(v: nat, mask: nat, a: byte, b: byte, c: byte, d: byte, m: byte, p: nat, q: nat, r: nat, s: nat)
    requires v == W(a, b, c, d) && mask == W(m, m, m, m)
    requires And(a, m) == p && And(b, m) == q && And(c, m) == r && And(d, m) == s
    ensures WordAnd(v, mask) == W(p, q, r, s)
  {
    AndBytes4(a, b, c, d, m, m, m, m);
  }

  lemma MaskedFields(q: Quad) returns (b: byte, p: nat)
    requires Small(q)
    ensures b == Fields(q) && p == q.f0 + 16 * q.f2 && And(b, 0x33) == p
  {
    b, p := Fields(q), q.f0 + 16 * q.f2;
    AndMask33(q.f0, q.f1, q.f2, q.f3, b);
  }

  lemma MaskFields(a: Quad, b: Quad, c: Quad, d: Quad)
    requires Small(a) && Small(b) && Small(c) && Small(d)
    ensures WordAnd(W(Fields(a), Fields(b), Fields(c), Fields(d)), 0x3333_3333)
         == W(a.f0 + 16 * a.f2, b.f0 + 16 * b.f2, c.f0 + 16 * c.f2, d.f0 + 16 * d.f2)
  {
    var w, p := MaskedFields(a);
    var x, q := MaskedFields(b);
    var y, r := MaskedFields(c);
    var z, s := MaskedFields(d);
    Masked(W(w, x, y, z), 0x3333_3333, w, x, y, z, 0x33, p, q, r, s);
  }

  lemma ShiftTwo(a: Quad, b: Quad, c: Quad, d: Quad)
    requires Small(a) && Small(b) && Small(c) && Small(d)
    ensures W(Fields(a), Fields(b), Fields(c), Fields(d)) / 4
         == W(Fields(Quad(a.f1, a.f2, a.f3, b.f0)), Fields(Quad(b.f1, b.f2, b.f3, c.f0)),
              Fields(Quad(c.f1, c.f2, c.f3, d.f0)), Fields(Quad(d.f1, d.f2, d.f3, 0)))
  {
  }

  function Nibbles(q: Quad): nat {
    q.f0 + q.f1 + 16 * (q.f2 + q.f3)
  }

  lemma SecondStep(a: Quad, b: Quad, c: Quad, d: Quad)
    requires Small(a) && Small(b) && Small(c) && Small(d)
    ensures Step2(W(Fields(a), Fields(b), Fields(c), Fields(d))) == W(Nibbles(a), Nibbles(b), Nibbles(c), Nibbles(d))
  {
    ShiftTwo(a, b, c, d);
    MaskFields(a, b, c, d);
    MaskFields(Quad(a.f1, a.f2, a.f3, b.f0), Quad(b.f1, b.f2, b.f3, c.f0),
               Quad(c.f1, c.f2, c.f3, d.f0), Quad(d.f1, d.f2, d.f3, 0));
  }

  lemma MaskedNibbles(a: nat, b: nat) returns (x: byte)
    requires a < 16 && b < 16
    ensures x == a + 16 * b && And(x, 0x0F) == a
  {
    x := a + 16 * b;
    AndMask0F(a, b, x);
  }

  lemma MaskNibbles(v: nat, a: nat, b: nat, c: nat, d: nat, p: nat, q: nat, r: nat, s: nat)
    requires a < 16 && b < 16 && c < 16 && d < 16 && p < 16 && q < 16 && r < 16 && s < 16
    requires v == W(a + 16 * p, b + 16 * q, c + 16 * r, d + 16 * s)
    ensures WordAnd(v, 0x0F0F_0F0F) == W(a, b, c, d)
  {
    var w := MaskedNibbles(a, p);
    var x := MaskedNibbles(b, q);
    var y := MaskedNibbles(c, r);
    var z := MaskedNibbles(d, s);
    Masked(v, 0x0F0F_0F0F, w, x, y, z, 0x0F, a, b, c, d);
  }

  lemma AddShifted(v: nat, a: nat, b: nat, c: nat, d: nat, e: nat, f: nat, g: nat, h: nat)
    requires a <= 4 && v == W(a + 16 * b, c + 16 * d, e + 16 * f, g + 16 * h)
    ensures v + v / 16 == W(a + b + 16 * (b + c), c + d + 16 * (d + e), e + f + 16 * (f + g), g + h + 16 * h)
  {
    ShiftFour(a, b, c, d, e, f, g, h);
  }

  /** Two fields of four bits in each byte are added. */
  lemma ThirdStep(v: nat, a: nat, b: nat, c: nat, d: nat, e: nat, f: nat, g: nat, h: nat)
    requires a <= 4 && b <= 4 && c <= 4 && d <= 4 && e <= 4 && f <= 4 && g <= 4 && h <= 4
    requires v == W(a + 16 * b, c + 16 * d, e + 16 * f, g + 16 * h)
    ensures Step3(v) == W(a + b, c + d, e + f, g + h)
  {
    AddShifted(v, a, b, c, d, e, f, g, h);
    MaskNibbles(v + v / 16, a + b, c + d, e + f, g + h, b + c, d + e, f + g, h);
  }

  lemma ShiftFour(a: nat, b: nat, c: nat, d: nat, e: nat, f: nat, g: nat, h: nat)
    requires a <= 4
    ensures W(a + 16 * b, c + 16 * d, e + 16 * f, g + 16 * h) / 16 == W(b + 16 * c, d + 16 * e, f + 16 * g, h)
  {
  }

  lemma LowWord(x: nat, high: nat)
    requires x < 0x1_0000_0000
    ensures (x + 0x1_0000_0000 * high) % 0x1_0000_0000 == x
  {
  }

  lemma TopByte(low: nat, top: nat, high: nat)
    requires low < 0x100_0000 && top < 256
    ensures (low + 0x100_0000 * top + 0x1_0000_0000 * high) % 0x1_0000_0000 / 0x100_0000 == top
  {
    LowWord(low + 0x100_0000 * top, high);
    assert (low + 0x100_0000 * top) / 0x100_0000 == top;
  }

  /** The product collects the four sums in its top byte. */
  lemma FourthStep(p: nat, q: nat, r: nat, s: nat)
    requires p <= 8 && q <= 8 && r <= 8 && s <= 8
    ensures Step4(W(p, q, r, s)) == p + q + r + s
  {
    var low := p + 256 * (p + q) + 65536 * (p + q + r);
    var high := q + r + s + 256 * (r + s) + 65536 * s;
    TopByte(low, p + q + r + s, high);
    assert W(p, q, r, s) * 0x0101_0101 == low + 0x100_0000 * (p + q + r + s) + 0x1_0000_0000 * high;
  }

  /** The bits of the four bytes of a word. */
  method CountWord(b0: byte, b1: byte, b2: byte, b3: byte) returns (n: nat)
    ensures n == Pop(b0) + Pop(b1) + Pop(b2) + Pop(b3)
  {
    ghost var a := OctetOf(b0);
    ghost var b := OctetOf(b1);
    ghost var c := OctetOf(b2);
    ghost var d := OctetOf(b3);
    n := CountOctets(W(b0, b1, b2, b3), a, b, c, d);
    PopOctet(a);
    PopOctet(b);
    PopOctet(c);
    PopOctet(d);
  }

  method CountOctets(w: nat, ghost a: Octet, ghost b: Octet, ghost c: Octet, ghost d: Octet) returns (n: nat)
    requires w == W(Value(a), Value(b), Value(c), Value(d))
    ensures n == Ones(a) + Ones(b) + Ones(c) + Ones(d)
  {
    FirstStep(a, b, c, d);
    var v := Step1(w);
    n := CountFields(v, QuadOf(a), QuadOf(b), QuadOf(c), QuadOf(d));
  }

  function Total(q: Quad): nat {
    q.f0 + q.f1 + q.f2 + q.f3
  }

  method CountFields(w: nat, ghost a: Quad, ghost b: Quad, ghost c: Quad, ghost d: Quad) returns (n: nat)
    requires w == W(Fields(a), Fields(b), Fields(c), Fields(d)) && Small(a) && Small(b) && Small(c) && Small(d)
    ensures n == Total(a) + Total(b) + Total(c) + Total(d)
  {
    SecondStep(a, b, c, d);
    var v := Step2(w);
    n := CountNibbles(v, a.f0 + a.f1, a.f2 + a.f3, b.f0 + b.f1, b.f2 + b.f3,
                      c.f0 + c.f1, c.f2 + c.f3, d.f0 + d.f1, d.f2 + d.f3);
  }

  method CountNibbles(w: nat, ghost a: nat, ghost b: nat, ghost c: nat, ghost d: nat,
                      ghost e: nat, ghost f: nat, ghost g: nat, ghost h: nat) returns (n: nat)
    requires a <= 4 && b <= 4 && c <= 4 && d <= 4 && e <= 4 && f <= 4 && g <= 4 && h <= 4
    requires w == W(a + 16 * b, c + 16 * d, e + 16 * f, g + 16 * h)
    ensures n == a + b + c + d + e + f + g + h
  {
    ThirdStep(w, a, b, c, d, e, f, g, h);
    FourthStep(a + b, c + d, e + f, g + h);
    n := Step4(Step3(w));
  }

  // ---- The loops ----

  lemma NextFourBits(m: seq<byte>, p: nat)
    requires p + 4 <= |m|
    ensures CountBits(m[p..]) == Pop(m[p]) + Pop(m[p + 1]) + Pop(m[p + 2]) + Pop(m[p + 3]) + CountBits(m[p + 4..])
  {
    assert m[p..][1..] == m[p + 1..] && m[p + 1..][1..] == m[p + 2..];
    assert m[p + 2..][1..] == m[p + 3..] && m[p + 3..][1..] == m[p + 4..];
    assert CountBits(m[p + 1..]) == Pop(m[p + 1]) + CountBits(m[p + 2..]);
    assert CountBits(m[p + 2..]) == Pop(m[p + 2]) + CountBits(m[p + 3..]);
  }

  lemma FullWord(b0: byte, b1: byte, b2: byte, b3: byte)
    requires W(b0, b1, b2, b3) == FULL
    ensures b0 == b1 == b2 == b3 == 255 && Pop(255) == 8
  {
    PopOctet(Octet(1, 1, 1, 1, 1, 1, 1, 1));
  }

  method CountBitsInWords(mem: array<byte>) returns (ret: nat)
    requires mem.Length % 4 == 0
    ensures ret == CountBits(mem[..])
  {
    ret := 0;
    ghost var m := mem[..];
    var p := 0;
    ghost var k, words := 0, mem.Length / 4;
    assert m[0..] == m && mem.Length == 4 * words;
    while p < mem.Length
      invariant p == 4 * k && k <= words
      invariant ret + CountBits(m[p..]) == CountBits(m)
    {
      var v := W(mem[p], mem[p + 1], mem[p + 2], mem[p + 3]);
      NextFourBits(m, p);
      if v == FULL {
        FullWord(mem[p], mem[p + 1], mem[p + 2], mem[p + 3]);
        ret := ret + 32;
      } else {
        var n := CountWord(mem[p], mem[p + 1], mem[p + 2], mem[p + 3]);
        ret := ret + n;
      }
      p, k := p + 4, k + 1;
    }
  }

  // ---- Counting bytes ----

  function CountNonzero(m: seq<byte>): nat {
    if m == [] then 0 else (if m[0] != 0 then 1 else 0) + CountNonzero(m[1..])
  }

  /** The mask of the `k`-th byte of a word. */
  function FF(k: nat): nat
    requires k < 4
  {
    if k == 0 then 0xFF else if k == 1 then 0xFF00 else if k == 2 then 0xFF_0000 else 0xFF00_0000
  }

  lemma {:induction false} AndAllOnes(b: nat, n: nat)
    requires b < Pow2(n)
    ensures And(b, Pow2(n) - 1) == b && And(b, 0) == 0
  {
    if n > 0 {
      AndAllOnes(b / 2, n - 1);
      AndCons(b % 2, b / 2, 1, Pow2(n - 1) - 1, b, Pow2(n) - 1);
    }
  }

  lemma AndMaskFF(b: byte)
    ensures And(b, 0xFF) == b && And(b, 0) == 0
  {
    assert Pow2(8) == 256;
    AndAllOnes(b, 8);
  }

  /** What the mask keeps is that byte, in its place. */
  lemma MaskOneByte(b0: byte, b1: byte, b2: byte, b3: byte)
    ensures WordAnd(W(b0, b1, b2, b3), FF(0)) == b0
    ensures WordAnd(W(b0, b1, b2, b3), FF(1)) == 0x100 * b1
    ensures WordAnd(W(b0, b1, b2, b3), FF(2)) == 0x1_0000 * b2
    ensures WordAnd(W(b0, b1, b2, b3), FF(3)) == 0x100_0000 * b3
  {
    AndMaskFF(b0);
    AndMaskFF(b1);
    AndMaskFF(b2);
    AndMaskFF(b3);
    AndBytes4(b0, b1, b2, b3, 0xFF, 0, 0, 0);
    AndBytes4(b0, b1, b2, b3, 0, 0xFF, 0, 0);
    AndBytes4(b0, b1, b2, b3, 0, 0, 0xFF, 0);
    AndBytes4(b0, b1, b2, b3, 0, 0, 0, 0xFF);
  }

  lemma NextFourNonzero(m: seq<byte>, p: nat)
    requires p + 4 <= |m|
    ensures CountNonzero(m[p..])
         == One(m[p] != 0) + One(m[p + 1] != 0) + One(m[p + 2] != 0) + One(m[p + 3] != 0) + CountNonzero(m[p + 4..])
  {
    assert m[p..][1..] == m[p + 1..] && m[p + 1..][1..] == m[p + 2..];
    assert m[p + 2..][1..] == m[p + 3..] && m[p + 3..][1..] == m[p + 4..];
    assert CountNonzero(m[p + 1..]) == One(m[p + 1] != 0) + CountNonzero(m[p + 2..]);
    assert CountNonzero(m[p + 2..]) == One(m[p + 2] != 0) + CountNonzero(m[p + 3..]);
  }

  lemma NextFourNon255(m: seq<byte>, p: nat)
    requires p + 4 <= |m|
    ensures CountNon255(m[p..])
         == One(m[p] != 255) + One(m[p + 1] != 255) + One(m[p + 2] != 255) + One(m[p + 3] != 255)
            + CountNon255(m[p + 4..])
  {
    assert m[p..][1..] == m[p + 1..] && m[p + 1..][1..] == m[p + 2..];
    assert m[p + 2..][1..] == m[p + 3..] && m[p + 3..][1..] == m[p + 4..];
    assert CountNon255(m[p + 1..]) == One(m[p + 1] != 255) + CountNon255(m[p + 2..]);
    assert CountNon255(m[p + 2..]) == One(m[p + 2] != 255) + CountNon255(m[p + 3..]);
  }

  method CountBytes(mem: array<byte>) returns (ret: nat)
    requires mem.Length % 4 == 0
    ensures ret == CountNonzero(mem[..])
  {
    ret := 0;
    ghost var m := mem[..];
    var p := 0;
    ghost var k, words := 0, mem.Length / 4;
    assert m[0..] == m && mem.Length == 4 * words;
    while p < mem.Length
      invariant p == 4 * k && k <= words
      invariant ret + CountNonzero(m[p..]) == CountNonzero(m)
    {
      NextFourNonzero(m, p);
      var n := NonzeroIn(mem[p], mem[p + 1], mem[p + 2], mem[p + 3]);
      ret := ret + n;
      p, k := p + 4, k + 1;
    }
  }

  method NonzeroIn(b0: byte, b1: byte, b2: byte, b3: byte) returns (n: nat)
    ensures n == One(b0 != 0) + One(b1 != 0) + One(b2 != 0) + One(b3 != 0)
  {
    var v := W(b0, b1, b2, b3);
    n := 0;
    if v == 0 {
      return;
    }
    MaskOneByte(b0, b1, b2, b3);
    if WordAnd(v, FF(0)) != 0 { n := n + 1; }
    if WordAnd(v, FF(1)) != 0 { n := n + 1; }
    if WordAnd(v, FF(2)) != 0 { n := n + 1; }
    if WordAnd(v, FF(3)) != 0 { n := n + 1; }
  }

  method CountNon255Bytes(mem: array<byte>) returns (ret: nat)
    requires mem.Length % 4 == 0
    ensures ret == CountNon255(mem[..])
  {
    ret := 0;
    ghost var m := mem[..];
    var p := 0;
    ghost var k, words := 0, mem.Length / 4;
    assert m[0..] == m && mem.Length == 4 * words;
    while p < mem.Length
      invariant p == 4 * k && k <= words
      invariant ret + CountNon255(m[p..]) == CountNon255(m)
    {
      NextFourNon255(m, p);
      var n := Non255In(mem[p], mem[p + 1], mem[p + 2], mem[p + 3]);
      ret := ret + n;
      p, k := p + 4, k + 1;
    }
  }

  method Non255In(b0: byte, b1: byte, b2: byte, b3: byte) returns (n: nat)
    ensures n == One(b0 != 255) + One(b1 != 255) + One(b2 != 255) + One(b3 != 255)
  {
    var v := W(b0, b1, b2, b3);
    n := 0;
    if v == FULL {
      FullWord(b0, b1, b2, b3);
      return;
    }
    MaskOneByte(b0, b1, b2, b3);
    if WordAnd(v, FF(0)) != FF(0) { n := n + 1; }
    if WordAnd(v, FF(1)) != FF(1) { n := n + 1; }
    if WordAnd(v, FF(2)) != FF(2) { n := n + 1; }
    if WordAnd(v, FF(3)) != FF(3) { n := n + 1; }
  }
}
