/** The stages that try byte values, and the proof that together with the flips they run
    each candidate value of a byte exactly once. */
module Deterministic {
  import opened Bytes
  import opened Flips
  import opened WalkingFlips
  import opened Counting

  /** The compiled-in sizes: the largest adjustment, and the interesting bytes. */
  datatype Tuning = Tuning(arithMax: nat, ints: seq<byte>)

  predicate Sound(c: Tuning) {
    c.arithMax <= 127 && forall j, k | 0 <= j < k < |c.ints| :: c.ints[j] != c.ints[k]
  }

  /** The values -128, -1, 0, 1, 16, 32, 64, 100 and 127 as bytes. */
  function Afl(): Tuning {
    Tuning(35, [128, 255, 0, 1, 16, 32, 64, 100, 127])
  }

  lemma AflIsSound()
    ensures Sound(Afl())
  {
    var s := Afl().ints;
    assert s[0] == 128 && s[1] == 255 && s[2] == 0 && s[3] == 1 && s[4] == 16;
    assert s[5] == 32 && s[6] == 64 && s[7] == 100 && s[8] == 127;
  }

  // ---- Stages that try values for one byte after the other ----

  function Variants(s: seq<byte>, i: nat, values: seq<byte>): seq<seq<byte>>
    requires i < |s|
  {
    if values == [] then []
    else Variants(s, i, values[..|values| - 1]) + [s[i := values[|values| - 1]]]
  }

  /** The runs of a stage that tries `values[i]` at offset `i`, for the first `k` offsets. */
  function ByteRuns(s: seq<byte>, values: seq<seq<byte>>, k: nat): seq<seq<byte>>
    requires k <= |s| == |values|
  {
    if k == 0 then [] else ByteRuns(s, values, k - 1) + Variants(s, k - 1, values[k - 1])
  }

  function ByteStage(s: seq<byte>, values: seq<seq<byte>>): seq<seq<byte>>
    requires |s| == |values|
  {
    ByteRuns(s, values, |s|)
  }

  lemma {:induction false} VariantsCount(s: seq<byte>, i: nat, values: seq<byte>, v: byte)
    requires i < |s|
    ensures Count(Variants(s, i, values), s[i := v]) == Count(values, v)
  {
    if values != [] {
      var n := |values| - 1;
      VariantsCount(s, i, values[..n], v);
      CountLast(Variants(s, i, values[..n]), s[i := values[n]], s[i := v]);
      assert s[i := values[n]][i] == values[n] && s[i := v][i] == v;
    }
  }

  lemma {:induction false} VariantsElsewhere(s: seq<byte>, i: nat, values: seq<byte>, k: nat, v: byte)
    requires i < |s| && k < |s| && i != k && v != s[k] && s[i] !in values
    ensures Count(Variants(s, i, values), s[k := v]) == 0
  {
    if values != [] {
      var n := |values| - 1;
      VariantsElsewhere(s, i, values[..n], k, v);
      CountLast(Variants(s, i, values[..n]), s[i := values[n]], s[k := v]);
      assert values[n] != s[i];
      assert s[i := values[n]][i] != s[k := v][i];
    }
  }

  lemma {:induction false} VariantsConcat(s: seq<byte>, i: nat, a: seq<byte>, b: seq<byte>)
    requires i < |s|
    ensures Variants(s, i, a + b) == Variants(s, i, a) + Variants(s, i, b)
  {
    if b == [] {
      assert a + b == a;
    } else {
      var n := |b| - 1;
      VariantsConcat(s, i, a, b[..n]);
      assert (a + b)[..|a + b| - 1] == a + b[..n];
    }
  }

  /** No offset tries the value it already holds. */
  ghost predicate Fresh(s: seq<byte>, values: seq<seq<byte>>)
    requires |s| == |values|
  {
    forall j | 0 <= j < |s| :: s[j] !in values[j]
  }

  lemma {:induction false} ByteRunsCount(s: seq<byte>, values: seq<seq<byte>>, k: nat, i: nat, v: byte)
    requires k <= |s| == |values| && i < |s| && v != s[i] && Fresh(s, values)
    ensures Count(ByteRuns(s, values, k), s[i := v]) == if i < k then Count(values[i], v) else 0
  {
    if k > 0 {
      ByteRunsCount(s, values, k - 1, i, v);
      CountConcat(ByteRuns(s, values, k - 1), Variants(s, k - 1, values[k - 1]), s[i := v]);
      if i == k - 1 {
        VariantsCount(s, i, values[i], v);
      } else {
        VariantsElsewhere(s, k - 1, values[k - 1], i, v);
      }
    }
  }

  // ---- The values tried ----

  /** Arithmetic on bytes wraps around. */
  function U8(x: int): byte
    requires -256 <= x < 512
  {
    if x < 0 then x + 256 else if x < 256 then x else x - 256
  }

  predicate Near(was: byte, now: byte, j: nat) {
    1 <= U8(now - was) <= j || 1 <= U8(was - now) <= j
  }

  /** The value, unless it is one to leave out. */
  function Unless(skip: byte -> bool, v: byte): seq<byte> {
    if skip(v) then [] else [v]
  }

  function ArithValues(was: byte, skip: byte -> bool, j: nat): seq<byte>
    requires j <= 127
  {
    if j == 0 then []
    else ArithValues(was, skip, j - 1) + Unless(skip, U8(was + j)) + Unless(skip, U8(was - j))
  }

  function InterestValues(skip: byte -> bool, ints: seq<byte>): seq<byte> {
    if ints == [] then []
    else InterestValues(skip, ints[..|ints| - 1]) + Unless(skip, ints[|ints| - 1])
  }

  lemma UnlessCount(q: seq<byte>, skip: byte -> bool, tried: byte, v: byte)
    ensures Count(q + Unless(skip, tried), v) == Count(q, v) + One(v == tried && !skip(v))
  {
    CountConcat(q, Unless(skip, tried), v);
    if !skip(tried) {
      CountLast([], tried, v);
      assert [] + [tried] == [tried];
    }
  }

  lemma NearGrows(was: byte, now: byte, j: nat)
    requires 1 <= j <= 127
    ensures Near(was, now, j) <==> Near(was, now, j - 1) || now == U8(was + j) || now == U8(was - j)
    ensures !Near(was, U8(was + j), j - 1) && !Near(was, U8(was - j), j - 1)
    ensures U8(was + j) != U8(was - j)
  {
  }

  lemma {:induction false} ArithCount(was: byte, skip: byte -> bool, j: nat, v: byte)
    requires j <= 127
    ensures Count(ArithValues(was, skip, j), v) == One(Near(was, v, j) && !skip(v))
  {
    if j > 0 {
      var up, down := U8(was + j), U8(was - j);
      ArithCount(was, skip, j - 1, v);
      UnlessCount(ArithValues(was, skip, j - 1), skip, up, v);
      UnlessCount(ArithValues(was, skip, j - 1) + Unless(skip, up), skip, down, v);
      NearGrows(was, v, j);
    }
  }

  lemma {:induction false} InterestCount(skip: byte -> bool, ints: seq<byte>, v: byte)
    requires forall j, k | 0 <= j < k < |ints| :: ints[j] != ints[k]
    ensures Count(InterestValues(skip, ints), v) == One(v in ints && !skip(v))
  {
    if ints != [] {
      var n := |ints| - 1;
      InterestCount(skip, ints[..n], v);
      UnlessCount(InterestValues(skip, ints[..n]), skip, ints[n], v);
      assert ints == ints[..n] + [ints[n]];
    }
  }

  // ---- All byte-sized stages together ----

  ghost predicate IsFlip(was: byte, now: byte) {
    CouldBeFlip(XorByte(was, now))
  }

  /** What the filter of the arithmetic leaves out. */
  ghost function FlipsOf(was: byte): byte -> bool {
    (now: byte) => IsFlip(was, now)
  }

  /** What the filters of the interesting values leave out. */
  ghost function NearOf(c: Tuning, was: byte): byte -> bool {
    (now: byte) => IsFlip(was, now) || was == now || Near(was, now, c.arithMax)
  }

  ghost function Flip8Values(s: seq<byte>): seq<seq<byte>> {
    seq(|s|, i requires 0 <= i < |s| => [XorByte(s[i], 255)])
  }

  /** The effector map has one flag for every eight bytes. */
  predicate Covers(eff: seq<bool>, s: seq<byte>) {
    |s| <= 8 * |eff|
  }

  ghost function Arith8Values(c: Tuning, s: seq<byte>, eff: seq<bool>): seq<seq<byte>>
    requires Covers(eff, s) && Sound(c)
  {
    seq(|s|, i requires 0 <= i < |s| => if eff[i / 8] then ArithValues(s[i], FlipsOf(s[i]), c.arithMax) else [])
  }

  ghost function Interest8Values(c: Tuning, s: seq<byte>, eff: seq<bool>): seq<seq<byte>>
    requires Covers(eff, s) && Sound(c)
  {
    seq(|s|, i requires 0 <= i < |s| => if eff[i / 8] then InterestValues(NearOf(c, s[i]), c.ints) else [])
  }

  lemma Flip8Count(s: seq<byte>, i: nat, v: byte)
    requires i < |s| && v != s[i]
    ensures Count(ByteStage(s, Flip8Values(s)), s[i := v]) == One(IsPattern(XorByte(s[i], v), 8))
  {
    forall j | 0 <= j < |s| ensures s[j] !in Flip8Values(s)[j] {
      ByteSolves(s[j], 255, s[j]);
      ByteSame(s[j]);
    }
    ByteRunsCount(s, Flip8Values(s), |s|, i, v);
    ByteSolves(s[i], 255, v);
    assert IsPattern(XorByte(s[i], v), 8) <==> IsPatternAt(XorByte(s[i], v), 8, 0);
    CountLast([], XorByte(s[i], 255), v);
    assert [] + [XorByte(s[i], 255)] == [XorByte(s[i], 255)];
  }

  lemma UnchangedIsFlip(a: byte)
    ensures IsFlip(a, a)
  {
    ByteSame(a);
  }

  lemma ArithFresh(c: Tuning, s: seq<byte>, eff: seq<bool>)
    requires Covers(eff, s) && Sound(c)
    ensures Fresh(s, Arith8Values(c, s, eff))
  {
    forall j | 0 <= j < |s| ensures s[j] !in Arith8Values(c, s, eff)[j] {
      UnchangedIsFlip(s[j]);
      ArithCount(s[j], FlipsOf(s[j]), c.arithMax, s[j]);
      CountPositive(Arith8Values(c, s, eff)[j], s[j]);
    }
  }

  lemma InterestFresh(c: Tuning, s: seq<byte>, eff: seq<bool>)
    requires Covers(eff, s) && Sound(c)
    ensures Fresh(s, Interest8Values(c, s, eff))
  {
    forall j | 0 <= j < |s| ensures s[j] !in Interest8Values(c, s, eff)[j] {
      InterestCount(NearOf(c, s[j]), c.ints, s[j]);
      CountPositive(Interest8Values(c, s, eff)[j], s[j]);
    }
  }

  lemma Arith8Count(c: Tuning, s: seq<byte>, eff: seq<bool>, i: nat, v: byte)
    requires i < |s| && v != s[i] && Covers(eff, s) && Sound(c)
    ensures Count(ByteStage(s, Arith8Values(c, s, eff)), s[i := v])
         == One(eff[i / 8] && Near(s[i], v, c.arithMax) && !IsFlip(s[i], v))
  {
    ArithFresh(c, s, eff);
    ByteRunsCount(s, Arith8Values(c, s, eff), |s|, i, v);
    ArithCount(s[i], FlipsOf(s[i]), c.arithMax, v);
  }

  lemma Interest8Count(c: Tuning, s: seq<byte>, eff: seq<bool>, i: nat, v: byte)
    requires i < |s| && v != s[i] && Covers(eff, s) && Sound(c)
    ensures Count(ByteStage(s, Interest8Values(c, s, eff)), s[i := v])
         == One(eff[i / 8] && v in c.ints && !Near(s[i], v, c.arithMax) && !IsFlip(s[i], v))
  {
    InterestFresh(c, s, eff);
    ByteRunsCount(s, Interest8Values(c, s, eff), |s|, i, v);
    InterestCount(NearOf(c, s[i]), c.ints, v);
  }

  ghost function AllFlips(s: seq<byte>): seq<seq<byte>>
    requires s != []
  {
    FlipStage(s, 1) + FlipStage(s, 2) + FlipStage(s, 4) + ByteStage(s, Flip8Values(s))
  }

  ghost function AllRuns(c: Tuning, s: seq<byte>, eff: seq<bool>, arith: bool): seq<seq<byte>>
    requires s != [] && Covers(eff, s) && Sound(c)
  {
    AllFlips(s) + (if arith then ByteStage(s, Arith8Values(c, s, eff)) else [])
    + ByteStage(s, Interest8Values(c, s, eff))
  }

  /** The value is one of the candidates of its byte: a flip within the byte; or, where the
      effector map says so, within reach of the arithmetic or an interesting value. */
  ghost predicate Candidate(c: Tuning, was: byte, now: byte, effective: bool) {
    IsFlip(was, now) || (effective && (Near(was, now, c.arithMax) || now in c.ints))
  }

  lemma OneKindOfFlip(d: byte)
    requires d != 0
    ensures One(IsPattern(d, 1)) + One(IsPattern(d, 2)) + One(IsPattern(d, 4)) + One(IsPattern(d, 8))
         == One(CouldBeFlip(d))
  {
    ByteFlips(d);
    if n :| IsPattern(d, n) {
      var r: nat :| IsPatternAt(d, n, r);
      forall k | IsPattern(d, k) ensures k == n {
        var q: nat :| IsPatternAt(d, k, q);
        PatternsDiffer(d, n, r, k, q);
      }
      assert n in {1, 2, 4, 8};
    }
  }

  lemma FlipsCount(s: seq<byte>, i: nat, v: byte)
    requires i < |s| && v != s[i]
    ensures Count(AllFlips(s), s[i := v]) == One(IsFlip(s[i], v))
  {
    var y := s[i := v];
    CountConcat(FlipStage(s, 1), FlipStage(s, 2), y);
    CountConcat(FlipStage(s, 1) + FlipStage(s, 2), FlipStage(s, 4), y);
    CountConcat(FlipStage(s, 1) + FlipStage(s, 2) + FlipStage(s, 4), ByteStage(s, Flip8Values(s)), y);
    FlipStageCount(s, 1, i, v);
    FlipStageCount(s, 2, i, v);
    FlipStageCount(s, 4, i, v);
    Flip8Count(s, i, v);
    ByteSolves(s[i], v, 0);
    ByteSame(s[i]);
    OneKindOfFlip(XorByte(s[i], v));
  }

  /** With arithmetic enabled, the stages together run every candidate exactly once and no
      other change of that one byte: what the filters drop is what another stage makes. */
  lemma EachCandidateOnce(c: Tuning, s: seq<byte>, eff: seq<bool>, i: nat, v: byte)
    requires i < |s| && v != s[i] && Covers(eff, s) && Sound(c)
    ensures Count(AllRuns(c, s, eff, true), s[i := v]) == One(Candidate(c, s[i], v, eff[i / 8]))
  {
    var arith, interest := ByteStage(s, Arith8Values(c, s, eff)), ByteStage(s, Interest8Values(c, s, eff));
    CountConcat(AllFlips(s), arith, s[i := v]);
    CountConcat(AllFlips(s) + arith, interest, s[i := v]);
    FlipsCount(s, i, v);
    Arith8Count(c, s, eff, i, v);
    Interest8Count(c, s, eff, i, v);
  }

  lemma NearIs(was: byte, now: byte, j: nat)
    requires j <= 127
    ensures Near(was, now, j) <==> 1 <= (now - was) % 256 <= j || 1 <= (was - now) % 256 <= j
  {
    if now >= was {
      assert (now - was) % 256 == now - was && (was < now ==> (was - now) % 256 == was - now + 256);
    } else {
      assert (was - now) % 256 == was - now && (now - was) % 256 == now - was + 256;
    }
  }

  /** So it is with the sizes compiled in: 35 steps of arithmetic up and down, with wrap-around, and
      nine interesting bytes, -128 to 127. */
  lemma AflTriesEachOnce(c: Tuning, s: seq<byte>, eff: seq<bool>, i: nat, v: byte)
    requires c == Afl() && i < |s| && v != s[i] && Covers(eff, s)
    ensures Sound(c)
    ensures Count(AllRuns(c, s, eff, true), s[i := v])
         == One(IsFlip(s[i], v)
                || (eff[i / 8] && (1 <= (v - s[i]) % 256 <= 35 || 1 <= (s[i] - v) % 256 <= 35
                                   || v in {128, 255, 0, 1, 16, 32, 64, 100, 127})))
  {
    AflIsSound();
    NearIs(s[i], v, 35);
    EachCandidateOnce(c, s, eff, i, v);
  }

  /** With arithmetic disabled an interesting value is lost exactly when it is within reach
      of the arithmetic and no flip: the last filter still counts on the arithmetic. */
  lemma LostWithoutArith(c: Tuning, s: seq<byte>, eff: seq<bool>, i: nat, v: byte)
    requires i < |s| && v != s[i] && Covers(eff, s) && Sound(c) && eff[i / 8] && v in c.ints
    ensures s[i := v] !in AllRuns(c, s, eff, false) <==> Near(s[i], v, c.arithMax) && !IsFlip(s[i], v)
  {
    var interest := ByteStage(s, Interest8Values(c, s, eff));
    assert AllRuns(c, s, eff, false) == AllFlips(s) + interest;
    CountConcat(AllFlips(s), interest, s[i := v]);
    CountPositive(AllFlips(s) + interest, s[i := v]);
    FlipsCount(s, i, v);
    Interest8Count(c, s, eff, i, v);
  }

  /** So 16 is never tried in the place of 5, though it is an interesting value. */
  lemma LostSixteen(c: Tuning, s: seq<byte>, eff: seq<bool>)
    requires c == Afl() && s == [5] && eff == [true]
    ensures Sound(c) && 16 in c.ints
    ensures s[0 := 16] !in AllRuns(c, s, eff, false) && s[0 := 16] in AllRuns(c, s, eff, true)
  {
    AflIsSound();
    assert c.ints[4] == 16;
    FiveToSixteen();
    LostWithoutArith(c, s, eff, 0, 16);
    EachCandidateOnce(c, s, eff, 0, 16);
    CountPositive(AllRuns(c, s, eff, true), s[0 := 16]);
  }

  /** The change is 10101 in binary: no run of bits. */
  lemma FiveToSixteen()
    ensures !IsFlip(5, 16)
  {
    XorByteIs(5, 16);
    XorDigits(1, 4);
    XorDigits(2, 8);
    XorDigits(5, 16);
    assert Xor(5, 16) == 21;
    FlipByShape(21);
    assert Stripped(21) == 21;
  }
}
