/** The interesting integers, and the test whether a token holds one of them. */
module Interesting {
  import opened Bytes
  import opened Bits

  const INTERESTING_16: seq<int> :=
    [-128, -1, 0, 1, 16, 32, 64, 100, 127, -32768, -129, 128, 255, 256, 512, 1000, 1024, 4096, 32767]

  const INTERESTING_32: seq<int> :=
    INTERESTING_16 + [-2147483648, -100663046, -32769, 32768, 65535, 65536, 100663045, 2147483647]

  function Unsigned16(v: int): int { if v < 0 then v + 0x1_0000 else v }

  function Swap16(w: int): int { w % 256 * 256 + w / 256 }

  function Swap32(w: int): int {
    w % 0x100 * 0x100_0000 + w / 0x100 % 0x100 * 0x1_0000 + w / 0x1_0000 % 0x100 * 0x100 + w / 0x100_0000
  }

  /** The comparison of two bytes: the word is unsigned, the value keeps its sign, and only
      swapping makes it unsigned. */
  predicate Matches16(v: int, w: nat) { w == v || w == Swap16(Unsigned16(v)) }

  /** Of four bytes: the comparison converts the value to an unsigned word. */
  predicate Matches32(v: int, w: nat) { w == v % 0x1_0000_0000 || w == Swap32(v % 0x1_0000_0000) }

  ghost predicate BuiltIn16(w: nat) {
    exists v <- INTERESTING_16 :: Matches16(v, w)
  }

  ghost predicate BuiltIn32(w: nat) {
    exists v <- INTERESTING_32 :: Matches32(v, w)
  }

  ghost predicate BuiltIn(mem: seq<byte>) {
    (|mem| == 2 && BuiltIn16(Word(mem))) || (|mem| == 4 && BuiltIn32(Word(mem)))
  }

  method IsBuiltIn(mem: seq<byte>) returns (yes: bool)
    ensures yes == BuiltIn(mem)
  {
    if |mem| == 2 {
      for i := |INTERESTING_16| downto 0
        invariant forall j | i <= j < |INTERESTING_16| :: !Matches16(INTERESTING_16[j], Word(mem))
      {
        if Matches16(INTERESTING_16[i], Word(mem)) {
          return true;
        }
      }
    }
    if |mem| == 4 {
      for i := |INTERESTING_32| downto 0
        invariant forall j | i <= j < |INTERESTING_32| :: !Matches32(INTERESTING_32[j], Word(mem))
      {
        if Matches32(INTERESTING_32[i], Word(mem)) {
          return true;
        }
      }
    }
    yes := false;
  }

  /** The values of two bytes. */
  ghost predicate IsValue16(v: int) {
    v in {-128, -1, 0, 1, 16, 32, 64, 100, 127, -32768, -129, 128, 255, 256, 512, 1000, 1024, 4096, 32767}
  }

  /** Those of four bytes are these and eight more. */
  ghost predicate IsValue32(v: int) {
    IsValue16(v) || v in {-2147483648, -100663046, -32769, 32768, 65535, 65536, 100663045, 2147483647}
  }

  lemma Tables(v: int)
    ensures v in INTERESTING_16 <==> IsValue16(v)
    ensures v in INTERESTING_32 <==> IsValue32(v)
  {
    var q := INTERESTING_16;
    assert q[0] == -128 && q[1] == -1 && q[2] == 0 && q[3] == 1 && q[4] == 16 && q[5] == 32 && q[6] == 64;
    assert q[7] == 100 && q[8] == 127 && q[9] == -32768 && q[10] == -129 && q[11] == 128 && q[12] == 255;
    assert q[13] == 256 && q[14] == 512 && q[15] == 1000 && q[16] == 1024 && q[17] == 4096 && q[18] == 32767;
    var r := [-2147483648, -100663046, -32769, 32768, 65535, 65536, 100663045, 2147483647];
    assert INTERESTING_32 == q + r;
    assert r[0] == -2147483648 && r[1] == -100663046 && r[2] == -32769 && r[3] == 32768;
    assert r[4] == 65535 && r[5] == 65536 && r[6] == 100663045 && r[7] == 2147483647;
  }

  /** These bytes, the low one first, are the value, as an unsigned number. */
  ghost predicate Holds(v: int, mem: seq<byte>) {
    Word(mem) == if |mem| == 2 then v % 0x1_0000 else v % 0x1_0000_0000
  }

  /** They are so in one of the two byte orders. */
  ghost predicate Interesting16(mem: seq<byte>)
    requires |mem| == 2
  {
    exists v | IsValue16(v) :: Holds(v, mem) || Holds(v, [mem[1], mem[0]])
  }

  lemma Swapped16(mem: seq<byte>, v: int)
    requires |mem| == 2 && IsValue16(v)
    ensures Word(mem) == Swap16(Unsigned16(v)) <==> Holds(v, [mem[1], mem[0]])
    ensures Word(mem) == Unsigned16(v) <==> Holds(v, mem)
  {
    WordOfTwo(mem, mem[0], mem[1]);
    WordOfTwo([mem[1], mem[0]], mem[1], mem[0]);
    SwapsBytes(Unsigned16(v), mem[0], mem[1]);
    assert v % 0x1_0000 == Unsigned16(v);
  }

  lemma WordOfTwo(mem: seq<byte>, a: int, b: int)
    requires |mem| == 2 && a == mem[0] && b == mem[1]
    ensures Word(mem) == a + 256 * b
  {
    assert Word(mem[1..]) == mem[1] + 256 * Word(mem[1..][1..]);
  }

  lemma SwapsBytes(w: nat, a: int, b: int)
    requires w < 0x1_0000 && 0 <= a < 256 && 0 <= b < 256
    ensures a + 256 * b == Swap16(w) <==> b + 256 * a == w
  {
    var h, l := w / 256, w % 256;
    assert w == l + 256 * h && Swap16(w) == h + 256 * l;
  }

  predicate Holds16(v: int, w: nat) { w == Unsigned16(v) || w == Swap16(Unsigned16(v)) }

  /** Of the interesting words of two bytes, in either order, exactly one is not recognised:
      -128 with its low byte first. */
  lemma OneMissed(mem: seq<byte>)
    requires |mem| == 2
    ensures Interesting16(mem) && !BuiltIn(mem) <==> mem == [0x80, 0xff]
  {
    WordOfTwo(mem, mem[0], mem[1]);
    WordMissed(Word(mem));
    forall v | IsValue16(v)
      ensures Holds16(v, Word(mem)) <==> Holds(v, mem) || Holds(v, [mem[1], mem[0]])
    {
      Swapped16(mem, v);
    }
    forall v | true ensures v in INTERESTING_16 <==> IsValue16(v) {
      Tables(v);
    }
  }

  lemma WordMissed(w: nat)
    requires w < 0x1_0000
    ensures (exists v <- INTERESTING_16 :: Holds16(v, w)) && !BuiltIn16(w) <==> w == 0xff80
  {
    var q := INTERESTING_16;
    assert q[0] == -128 && q[1] == -1 && q[9] == -32768 && q[10] == -129 && q[11] == 128 && q[18] == 32767;
    if v :| v in q && Holds16(v, w) && !Matches16(v, w) {
      NegativeMissed(v, w);
      assert q[11] in q && q[18] in q;
    }
    assert Holds16(q[0], 0xff80);
    forall v <- q ensures !Matches16(v, 0xff80) {
      SwapBack(v);
    }
  }

  lemma NegativeMissed(v: int, w: nat)
    requires v in INTERESTING_16 && Holds16(v, w) && !Matches16(v, w)
    ensures w == 0xff80 || Matches16(128, w) || Matches16(32767, w)
  {
    assert v < 0 && w == Unsigned16(v);
    assert v == -128 || v == -1 || v == -32768 || v == -129;
  }

  lemma SwapBack(v: int)
    requires v in INTERESTING_16
    ensures !Matches16(v, 0xff80)
  {
  }

  /** They are so in one of the two byte orders. */
  ghost predicate Interesting32(mem: seq<byte>)
    requires |mem| == 4
  {
    exists v | IsValue32(v) :: Holds(v, mem) || Holds(v, [mem[3], mem[2], mem[1], mem[0]])
  }

  lemma WordOfFour(mem: seq<byte>, a: int, b: int, c: int, d: int)
    requires |mem| == 4 && a == mem[0] && b == mem[1] && c == mem[2] && d == mem[3]
    ensures Word(mem) == a + 0x100 * b + 0x1_0000 * c + 0x100_0000 * d
  {
    var s := mem[2..];
    assert mem[1..][1..] == s && Word(mem) == mem[0] + 256 * Word(mem[1..]);
    assert Word(mem[1..]) == mem[1] + 256 * Word(s);
    WordOfTwo(s, c, d);
  }

  lemma SwapsFour(w: nat, a: int, b: int, c: int, d: int)
    requires w < 0x1_0000_0000 && 0 <= a < 256 && 0 <= b < 256 && 0 <= c < 256 && 0 <= d < 256
    ensures a + 0x100 * b + 0x1_0000 * c + 0x100_0000 * d == Swap32(w) <==>
            d + 0x100 * c + 0x1_0000 * b + 0x100_0000 * a == w
  {
    var x, h := w % 0x100, w / 0x100;
    var y, g := h % 0x100, h / 0x100;
    var z, t := g % 0x100, g / 0x100;
    assert w / 0x1_0000 == g && w / 0x100_0000 == t;
    assert w == x + 0x100 * y + 0x1_0000 * z + 0x100_0000 * t;
    assert Swap32(w) == t + 0x100 * z + 0x1_0000 * y + 0x100_0000 * x;
    SameFour(a, b, c, d, t, z, y, x);
    SameFour(d, c, b, a, x, y, z, t);
  }

  lemma SameFour(a: int, b: int, c: int, d: int, x: int, y: int, z: int, t: int)
    requires 0 <= a < 256 && 0 <= b < 256 && 0 <= c < 256 && 0 <= x < 256 && 0 <= y < 256 && 0 <= z < 256
    ensures a + 0x100 * b + 0x1_0000 * c + 0x100_0000 * d == x + 0x100 * y + 0x1_0000 * z + 0x100_0000 * t
       <==> a == x && b == y && c == z && d == t
  {
  }

  lemma Swapped32(mem: seq<byte>, v: int)
    requires |mem| == 4 && v in INTERESTING_32
    ensures Matches32(v, Word(mem)) <==> Holds(v, mem) || Holds(v, [mem[3], mem[2], mem[1], mem[0]])
  {
    WordOfFour(mem, mem[0], mem[1], mem[2], mem[3]);
    WordOfFour([mem[3], mem[2], mem[1], mem[0]], mem[3], mem[2], mem[1], mem[0]);
    SwapsFour(v % 0x1_0000_0000, mem[0], mem[1], mem[2], mem[3]);
  }

  /** Comparing four bytes makes the value unsigned, so that none of them is missed in either order:
      a token is built in exactly if it holds an interesting value. */
  lemma NoneMissed(mem: seq<byte>)
    requires |mem| == 4
    ensures BuiltIn(mem) <==> Interesting32(mem)
  {
    forall v | true ensures v in INTERESTING_32 <==> IsValue32(v) {
      Tables(v);
    }
    forall v <- INTERESTING_32
      ensures Matches32(v, Word(mem)) <==> Holds(v, mem) || Holds(v, [mem[3], mem[2], mem[1], mem[0]])
    {
      Swapped32(mem, v);
    }
  }
}
