/** State diversity: a bounded history of variable states, how far a new one is from them,
    and the weights that follow the gains. */
module GFuzz {
  import Bits
  import Flips

  type U32 = x: int | 0 <= x < 0x1_0000_0000

  // ---- A distance on hashes ----

  /** The number of bits in which two hashes differ. */
  method HashDistance(hash1: U32, hash2: U32) returns (dist: nat)
    ensures dist == Bits.Pop(Flips.Xor(hash1, hash2))
  {
    var x := Flips.Xor(hash1, hash2);
    dist := 0;
    while x != 0
      invariant dist + Bits.Pop(x) == Bits.Pop(Flips.Xor(hash1, hash2))
    {
      dist := dist + x % 2;
      x := x / 2;
    }
  }

  function Hamming(a: nat, b: nat): nat {
    Bits.Pop(Flips.Xor(a, b))
  }

  lemma {:induction false} PopOfXor(a: nat, b: nat)
    ensures Bits.Pop(Flips.Xor(a, b)) <= Bits.Pop(a) + Bits.Pop(b)
    decreases a + b
  {
    if a > 0 && b > 0 {
      PopOfXor(a / 2, b / 2);
      PopDigits(a, b, Flips.Xor(a, b));
    }
  }

  lemma PopDigits(a: nat, b: nat, x: nat)
    requires x == Flips.Xor(a, b) && Bits.Pop(Flips.Xor(a / 2, b / 2)) <= Bits.Pop(a / 2) + Bits.Pop(b / 2)
    ensures Bits.Pop(x) <= Bits.Pop(a) + Bits.Pop(b)
  {
    Flips.XorDigits(a, b);
    ParityAtMost(a, b);
    PopDigit(x);
    PopDigit(a);
    PopDigit(b);
  }

  lemma ParityAtMost(a: nat, b: nat)
    ensures (a + b) % 2 <= a % 2 + b % 2
  {
  }

  lemma PopDigit(a: nat)
    ensures Bits.Pop(a) == a % 2 + Bits.Pop(a / 2)
  {
  }

  lemma {:induction false} XorZeroIffSame(a: nat, b: nat)
    ensures Flips.Xor(a, b) == 0 <==> a == b
    decreases a + b
  {
    if a > 0 && b > 0 {
      XorZeroIffSame(a / 2, b / 2);
      Flips.XorDigits(a, b);
    }
  }

  /** It is a metric: zero between equal hashes only, the same both ways, and no detour is shorter. */
  lemma HammingIsMetric(a: nat, b: nat, c: nat)
    ensures Hamming(a, b) == 0 <==> a == b
    ensures Hamming(a, b) == Hamming(b, a)
    ensures Hamming(a, c) <= Hamming(a, b) + Hamming(b, c)
  {
    XorZeroIffSame(a, b);
    Bits.PopZero(Flips.Xor(a, b));
    Flips.XorComm(a, b);
    var x, y := Flips.Xor(a, b), Flips.Xor(b, c);
    Flips.XorAssoc(x, b, c);
    Flips.XorAssoc(a, b, b);
    Flips.XorSame(b);
    PopOfXor(x, y);
  }

  lemma {:induction false} PopBound(a: nat, n: nat, p: nat)
    requires p == Bits.Pow2(n) && a < p
    ensures Bits.Pop(a) <= n
    decreases n
  {
    if n > 0 {
      PopBound(a / 2, n - 1, Bits.Pow2(n - 1));
    }
  }

  // ---- Comparing two states of a variable ----

  function Top(x: U32): nat { x / 0x100_0000 }

  function Abs(x: real): real { if x < 0.0 then -x else x }

  predicate TreatedAsChar(x: U32) { Top(x) % 2 == 1 }

  predicate TreatedAsString(x: U32) { 0 < Top(x) < 255 }

  function CharDistance(a: U32, b: U32): real {
    Abs((a % 256) as real - (b % 256) as real) / 127.0 * 0.8
  }

  function StringDistance(a: U32, b: U32): real
    requires TreatedAsString(a) && TreatedAsString(b)
  {
    var len1, len2 := Top(a), Top(b);
    var least := if len1 < len2 then len1 else len2;
    var diff := if len1 > len2 then len1 - len2 else len2 - len1;
    var lev := Hamming(a % 0x100_0000, b % 0x100_0000) as real / least as real;
    (lev * 0.6 + diff as real / 255.0 * 0.4) * 1.2
  }

  function VarDistance(a: U32, b: U32): real {
    if a == 0 || b == 0 then 0.0
    else if TreatedAsChar(a) && TreatedAsChar(b) then CharDistance(a, b)
    else if TreatedAsString(a) && TreatedAsString(b) then StringDistance(a, b)
    else if a == b then 0.0 else 1.0
  }

  method VarSimilarity(current: U32, historical: U32) returns (r: real)
    ensures r == VarDistance(current, historical)
    ensures 0.0 <= r <= 18.0 && (current == historical ==> r == 0.0)
    ensures TreatedAsString(current) && TreatedAsString(historical) && current != historical ==>
              (r == 0.0 <==> TreatedAsChar(current) && TreatedAsChar(historical) && current % 256 == historical % 256)
  {
    VarDistanceLaws(current, historical);
    StringsTellApart(current, historical);
    if current == 0 || historical == 0 {
      return 0.0;
    }
    if (current / 0x100_0000) % 2 == 1 && (historical / 0x100_0000) % 2 == 1 {
      var c1, c2 := current % 256, historical % 256;
      return Abs(c1 as real - c2 as real) / 127.0 * 0.8;
    }
    var len1, len2 := current / 0x100_0000, historical / 0x100_0000;
    if len1 > 0 && len2 > 0 && len1 < 255 && len2 < 255 {
      var dist := HashDistance(current % 0x100_0000, historical % 0x100_0000);
      var least := if len1 < len2 then len1 else len2;
      var diff := if len1 > len2 then len1 - len2 else len2 - len1;
      var lev := if least > 0 then dist as real / least as real else 0.0;
      return (lev * 0.6 + diff as real / 255.0 * 0.4) * 1.2;
    }
    return if current == historical then 0.0 else 1.0;
  }

  /** The comparison does not depend on which state is the older, finds no difference between
      equal states, and is never negative. */
  lemma VarDistanceLaws(a: U32, b: U32)
    ensures VarDistance(a, b) == VarDistance(b, a)
    ensures VarDistance(a, a) == 0.0
    ensures 0.0 <= VarDistance(a, b) <= 18.0
  {
    HammingIsMetric(a % 0x100_0000, b % 0x100_0000, 0);
    HammingIsMetric(a % 0x100_0000, a % 0x100_0000, 0);
    CharDistanceLaws(a, b);
    if TreatedAsString(a) && TreatedAsString(b) {
      StringDistanceBounds(a, b);
    }
  }

  /** What the distance is: four 635ths for each step between two characters; for two strings 0.72
      for each bit of their hashes that differs, over the shorter length, and 0.48 over 255 for each
      step between their lengths; for other states one unless they are equal; zero if one is unset. */
  lemma VarDistanceIs(a: U32, b: U32)
    ensures a == 0 || b == 0 ==> VarDistance(a, b) == 0.0
    ensures a != 0 && b != 0 && a / 0x100_0000 % 2 == 1 && b / 0x100_0000 % 2 == 1 ==>
              var c, d := a % 256, b % 256;
              635.0 * VarDistance(a, b) == 4.0 * (if c < d then d - c else c - d) as real
    ensures !(a / 0x100_0000 % 2 == 1 && b / 0x100_0000 % 2 == 1)
            && 1 <= a / 0x100_0000 <= 254 && 1 <= b / 0x100_0000 <= 254 ==>
              var m, n := a / 0x100_0000, b / 0x100_0000;
              var bits := Bits.Pop(Flips.Xor(a % 0x100_0000, b % 0x100_0000));
              VarDistance(a, b) == 0.72 * (bits as real / (if m < n then m else n) as real)
                                   + 0.48 * ((if m < n then n - m else m - n) as real / 255.0)
    ensures a != 0 && b != 0 && !(a / 0x100_0000 % 2 == 1 && b / 0x100_0000 % 2 == 1)
            && !(1 <= a / 0x100_0000 <= 254 && 1 <= b / 0x100_0000 <= 254) ==>
              VarDistance(a, b) == if a == b then 0.0 else 1.0
  {
  }

  lemma CharDistanceLaws(a: U32, b: U32)
    ensures CharDistance(a, b) == CharDistance(b, a) && CharDistance(a, a) == 0.0 && 0.0 <= CharDistance(a, b) <= 2.0
  {
  }

  lemma StringDistanceBounds(a: U32, b: U32)
    requires TreatedAsString(a) && TreatedAsString(b)
    ensures 0.0 <= StringDistance(a, b) <= 18.0
    ensures a == b ==> StringDistance(a, b) == 0.0
  {
    var x, y := a % 0x100_0000, b % 0x100_0000;
    HammingIsMetric(x, y, 0);
    Power24();
    Flips.XorBound(x, y, 24);
    PopBound(Flips.Xor(x, y), 24, Bits.Pow2(24));
    var least := if Top(a) < Top(b) then Top(a) else Top(b);
    Fraction(Hamming(x, y), least);
  }

  lemma Power24()
    ensures Bits.Pow2(24) == 0x100_0000
  {
    assert Bits.Pow2(8) == 256 && Bits.Pow2(16) == 65536;
  }

  lemma Fraction(a: nat, b: nat)
    requires a <= 24 && b >= 1
    ensures 0.0 <= a as real / b as real <= 24.0
    ensures a == 0 ==> a as real / b as real == 0.0
  {
  }

  /** Different strings lie apart, except that the test for characters looks at the lowest bit
      of what, for strings, is the length: two strings of odd length count as equal exactly if
      the low bytes of their hashes are. */
  lemma StringsTellApart(a: U32, b: U32)
    ensures TreatedAsString(a) && TreatedAsString(b) && a != b ==>
              (VarDistance(a, b) == 0.0 <==> TreatedAsChar(a) && TreatedAsChar(b) && a % 256 == b % 256)
  {
    if TreatedAsString(a) && TreatedAsString(b) && a != b {
      if TreatedAsChar(a) && TreatedAsChar(b) {
        ApartByByte(a % 256, b % 256);
      } else {
        HammingIsMetric(a % 0x100_0000, b % 0x100_0000, 0);
        PartsDiffer(a, b);
        var least := if Top(a) < Top(b) then Top(a) else Top(b);
        var diff := if Top(a) > Top(b) then Top(a) - Top(b) else Top(b) - Top(a);
        ApartByParts(Hamming(a % 0x100_0000, b % 0x100_0000), least, diff);
      }
    }
  }

  lemma ApartByByte(x: nat, y: nat)
    ensures Abs(x as real - y as real) / 127.0 * 0.8 == 0.0 <==> x == y
  {
  }

  lemma PartsDiffer(a: U32, b: U32)
    requires a != b
    ensures a % 0x100_0000 != b % 0x100_0000 || Top(a) != Top(b)
  {
  }

  lemma ApartByParts(bits: nat, least: nat, diff: nat)
    requires least > 0 && (bits > 0 || diff > 0)
    ensures (bits as real / least as real * 0.6 + diff as real / 255.0 * 0.4) * 1.2 > 0.0
  {
    Positive(bits, least);
  }

  lemma Positive(a: nat, b: nat)
    requires b > 0
    ensures a as real / b as real >= 0.0 && (a > 0 ==> a as real / b as real > 0.0)
  {
  }

  /** Two strings of lengths 1 and 3 whose hashes share nothing but their low byte. */
  lemma OddStringsComparedAsChars(len1: nat, len2: nat, hash1: nat, hash2: nat)
    requires len1 == 1 && len2 == 3 && hash1 == 0xabcd01 && hash2 == 0x123401
    ensures VarDistance(len1 * 0x100_0000 + hash1, len2 * 0x100_0000 + hash2) == 0.0
  {
    Parts(len1, hash1);
    Parts(len2, hash2);
    StringsTellApart(len1 * 0x100_0000 + hash1, len2 * 0x100_0000 + hash2);
  }

  lemma Parts(len: nat, hash: nat)
    requires len < 256 && hash < 0x100_0000
    ensures Top(len * 0x100_0000 + hash) == len && (len * 0x100_0000 + hash) % 256 == hash % 256
  {
    assert len * 0x100_0000 == 256 * (len * 0x1_0000);
  }

  // ---- The history ----

  datatype Snapshot = Snapshot(states: seq<U32>, validCount: nat)

  function CountValid(states: seq<U32>): nat {
    if states == [] then 0 else CountValid(states[..|states| - 1]) + if states[|states| - 1] != 0 then 1 else 0
  }

  ghost predicate IsSet(states: seq<U32>, i: nat) {
    i < |states| && states[i] > 0
  }

  lemma {:induction false} CountIs(states: seq<U32>)
    ensures CountValid(states) == |set i: nat | i < |states| && IsSet(states, i)|
  {
    var all := set i: nat | i < |states| && IsSet(states, i);
    if states == [] {
      assert all == {};
    } else {
      var n := |states| - 1;
      var front := set i: nat | i < n && IsSet(states[..n], i);
      CountIs(states[..n]);
      if IsSet(states, n) {
        assert all == front + {n};
      } else {
        assert all == front;
      }
    }
  }

  method CreateSnapshot(map_: seq<U32>) returns (s: Snapshot)
    ensures s == Snapshot(map_, CountValid(map_))
  {
    var n := 0;
    for i := 0 to |map_|
      invariant n == CountValid(map_[..i])
    {
      assert map_[..i + 1][..i] == map_[..i];
      if map_[i] != 0 {
        n := n + 1;
      }
    }
    assert map_[..|map_|] == map_;
    s := Snapshot(map_, n);
  }

  function Coverage(s: Snapshot, totalVars: nat): (r: real)
    ensures r >= 0.0 && if totalVars == 0 then r == 0.0 else r * totalVars as real == s.validCount as real
  {
    if totalVars > 0 then s.validCount as real / totalVars as real else 0.0
  }

  function Newest(s: seq<Snapshot>, n: nat): seq<Snapshot> {
    if |s| <= n then s else s[|s| - n..]
  }

  class History {
    const capacity: nat
    const snapshots: array<Snapshot>
    const totalVars: nat
    var count: nat
    var head: nat
    var minCoverage: real
    var maxCoverage: real
    ghost var added: seq<Snapshot>

    ghost predicate Valid()
      reads this, snapshots
    {
      && 0 < capacity == snapshots.Length
      && count <= capacity && head < capacity && (count < capacity ==> head == 0)
      && OldestFirst() == Newest(added, capacity)
      && minCoverage == 0.0 && maxCoverage >= 1.0
    }

    /** The history from its oldest snapshot on. */
    ghost function OldestFirst(): seq<Snapshot>
      requires head <= count <= snapshots.Length
      reads this, snapshots
    {
      snapshots[head..count] + snapshots[..head]
    }

    constructor (capacity: nat, totalVars: nat)
      requires capacity > 0
      ensures Valid() && added == [] && this.capacity == capacity && this.totalVars == totalVars && fresh(snapshots)
      ensures minCoverage == 0.0 && maxCoverage == 1.0
    {
      this.capacity := capacity;
      this.totalVars := totalVars;
      snapshots := new Snapshot[capacity](_ => Snapshot([], 0));
      count, head, minCoverage, maxCoverage := 0, 0, 0.0, 1.0;
      added := [];
    }

    /** The history is always the newest snapshots, as many as there is room for; the range of
        coverage never moves at its lower end. */
    method AddToHistory(s: Snapshot)
      requires Valid()
      modifies this, snapshots
      ensures Valid() && added == old(added) + [s]
      ensures OldestFirst() == Newest(old(added) + [s], capacity)
      ensures count == if old(count) < capacity then old(count) + 1 else capacity
      ensures minCoverage == 0.0
      ensures maxCoverage == WidenedTo(old(maxCoverage), Coverage(s, totalVars))
      ensures maxCoverage >= old(maxCoverage) && maxCoverage >= Coverage(s, totalVars)
      ensures maxCoverage == old(maxCoverage) || maxCoverage == Coverage(s, totalVars)
    {
      Place(s);
      var cov := Coverage(s, totalVars);
      minCoverage := if cov < minCoverage then cov else minCoverage;
      maxCoverage := if cov > maxCoverage then cov else maxCoverage;
    }

    method Place(s: Snapshot)
      requires Valid()
      modifies this`count, this`head, this`added, snapshots
      ensures Valid() && added == old(added) + [s]
      ensures count == if old(count) < capacity then old(count) + 1 else capacity
    {
      NewestGrows(added, s, capacity);
      if count < capacity {
        Append(s);
      } else {
        Replace(s);
      }
      added := added + [s];
    }

    method Append(s: Snapshot)
      requires head == 0 && count < snapshots.Length
      modifies this`count, snapshots
      ensures count == old(count) + 1 && OldestFirst() == old(OldestFirst()) + [s]
    {
      snapshots[count] := s;
      count := count + 1;
      assert snapshots[..count] == old(snapshots[..count]) + [s];
    }

    method Replace(s: Snapshot)
      requires head < count == snapshots.Length == capacity
      modifies this`head, snapshots
      ensures head < capacity && OldestFirst() == old(OldestFirst())[1..] + [s]
    {
      ghost var ring, h := snapshots[..], head;
      FullIsRing();
      RingStep(ring, h, s);
      snapshots[head] := s;
      head := Next(head, capacity);
      assert snapshots[..] == ring[h := s];
      FullIsRing();
    }

    lemma FullIsRing()
      requires head <= count == snapshots.Length
      ensures OldestFirst() == Unrolled(snapshots[..], head)
    {
    }
  }

  function Next(h: nat, capacity: nat): (n: nat)
    requires h < capacity
    ensures n == if h + 1 == capacity then 0 else h + 1
  {
    (h + 1) % capacity
  }

  /** Overwriting the oldest and moving on. */
  lemma RingStep(ring: seq<Snapshot>, h: nat, s: Snapshot)
    requires h < |ring|
    ensures var next, now := if h + 1 == |ring| then 0 else h + 1, ring[h := s];
            Unrolled(now, next) == Unrolled(ring, h)[1..] + [s]
  {
  }

  ghost function Unrolled(ring: seq<Snapshot>, h: nat): seq<Snapshot>
    requires h <= |ring|
  {
    ring[h..] + ring[..h]
  }

  lemma NewestGrows(added: seq<Snapshot>, s: Snapshot, capacity: nat)
    requires capacity > 0
    ensures Newest(added + [s], capacity)
         == if |added| < capacity then Newest(added, capacity) + [s] else Newest(added, capacity)[1..] + [s]
  {
  }

  // ---- How new a state is ----

  /** The distances of the set variables to one earlier snapshot, and how many were compared. */
  function SumTo(current: seq<U32>, earlier: seq<U32>, v: nat): real
    requires v <= |current| == |earlier|
  {
    if v == 0 then 0.0
    else
      SumTo(current, earlier, v - 1)
      + if current[v - 1] != 0 then VarDistance(current[v - 1], earlier[v - 1]) else 0.0
  }

  function SumAll(current: seq<U32>, history: seq<Snapshot>): real
    requires forall s <- history :: |s.states| == |current|
  {
    if history == [] then 0.0
    else
      var n := |history| - 1;
      SumAll(current, history[..n]) + SumTo(current, history[n].states, |current|)
  }

  lemma {:induction false} SumToBounds(current: seq<U32>, earlier: seq<U32>, v: nat)
    requires v <= |current| == |earlier|
    ensures 0.0 <= SumTo(current, earlier, v) <= 18.0 * CountValid(current[..v]) as real
  {
    if v > 0 {
      SumToBounds(current, earlier, v - 1);
      assert current[..v][..v - 1] == current[..v - 1];
      VarDistanceLaws(current[v - 1], earlier[v - 1]);
    }
  }

  lemma OneRowMore(n: nat, c: nat)
    ensures (n + 1) * c == n * c + c
    ensures 18.0 * ((n + 1) * c) as real == 18.0 * (n * c) as real + 18.0 * c as real
  {
  }

  lemma {:induction false} SumAllBounds(current: seq<U32>, history: seq<Snapshot>)
    requires forall s <- history :: |s.states| == |current|
    ensures 0.0 <= SumAll(current, history) <= 18.0 * (|history| * CountValid(current)) as real
  {
    if history != [] {
      var n := |history| - 1;
      SumAllBounds(current, history[..n]);
      SumToBounds(current, history[n].states, |current|);
      assert current[..|current|] == current;
      OneRowMore(n, CountValid(current));
    }
  }

  function Mean(current: seq<U32>, history: seq<Snapshot>): real
    requires forall s <- history :: |s.states| == |current|
  {
    Averaged(SumAll(current, history), |history| * CountValid(current))
  }

  function Averaged(sum: real, n: nat): real {
    if n > 0 then sum / n as real else sum
  }

  lemma AveragedTimes(sum: real, n: nat)
    ensures n > 0 ==> Averaged(sum, n) * n as real == sum
  {
  }

  function CoverageScore(ratio: real, least: real, most: real): (r: real)
    requires most - least + 0.0001 > 0.0
    ensures 0.0 <= r <= 1.0
  {
    var x := (ratio - least) / (most - least + 0.0001);
    if x < 0.0 then 0.0 else if x > 1.0 then 1.0 else x
  }

  /** The place of the coverage in its range, widened a little at the top, and no less than zero or
      more than one. */
  lemma CoverageScoreIs(ratio: real, least: real, most: real)
    requires most >= least
    ensures ratio <= least ==> CoverageScore(ratio, least, most) == 0.0
    ensures ratio >= most + 0.0001 ==> CoverageScore(ratio, least, most) == 1.0
    ensures least <= ratio <= most + 0.0001 ==>
              CoverageScore(ratio, least, most) * (most - least + 0.0001) == ratio - least
  {
    var w, d := most - least + 0.0001, ratio - least;
    Ratio(d, w);
  }

  lemma Ratio(d: real, w: real)
    requires w > 0.0
    ensures d / w * w == d
    ensures (d <= 0.0 ==> d / w <= 0.0) && (d >= 0.0 ==> d / w >= 0.0)
    ensures (d <= w ==> d / w <= 1.0) && (d >= w ==> d / w >= 1.0)
  {
  }

  function Diversity(current: Snapshot, history: seq<Snapshot>, totalVars: nat, least: real, most: real): real
    requires forall s <- history :: |s.states| == |current.states|
    requires most - least + 0.0001 > 0.0
  {
    if history == [] then 1.0
    else 0.6 * Mean(current.states, history) + 0.4 * CoverageScore(Coverage(current, totalVars), least, most)
  }

  /** The score is bounded, whatever the states are. */
  lemma DiversityBounds(current: Snapshot, history: seq<Snapshot>, totalVars: nat, least: real, most: real)
    requires forall s <- history :: |s.states| == |current.states|
    requires most - least + 0.0001 > 0.0
    ensures 0.0 <= Diversity(current, history, totalVars, least, most) <= 11.2
    ensures history == [] ==> Diversity(current, history, totalVars, least, most) == 1.0
  {
    SumAllBounds(current.states, history);
    var n := |history| * CountValid(current.states);
    if n > 0 {
      MeanBounds(SumAll(current.states, history), n as real);
    } else {
      assert n == 0 && SumAll(current.states, history) == 0.0;
    }
  }

  lemma MeanBounds(sum: real, n: real)
    requires n > 0.0 && 0.0 <= sum <= 18.0 * n
    ensures 0.0 <= sum / n <= 18.0
  {
  }

  lemma {:induction false} SumOfBoth(current: seq<U32>, a: seq<Snapshot>, b: seq<Snapshot>)
    requires (forall s <- a :: |s.states| == |current|) && forall s <- b :: |s.states| == |current|
    ensures SumAll(current, a + b) == SumAll(current, a) + SumAll(current, b)
  {
    if b == [] {
      assert a + b == a;
    } else {
      var n := |b| - 1;
      SumOfBoth(current, a, b[..n]);
      assert (a + b)[..|a + b| - 1] == a + b[..n];
    }
  }

  /** The mean, spread over the pairs it is taken of, is their sum; kept folded. */
  ghost predicate Spread(m: real, k: nat, c: nat, sum: real) {
    forall x | SeeSpread(x) :: m * k as real * c as real == sum
  }

  predicate SeeSpread(x: int) { x == 0 }

  ghost predicate IsMean(m: real, current: seq<U32>, history: seq<Snapshot>) {
    (forall s <- history :: |s.states| == |current|) && forall x | SeeSpread(x) :: m == Mean(current, history)
  }

  lemma MeanSpreads(current: seq<U32>, history: seq<Snapshot>) returns (m: real)
    requires (forall s <- history :: |s.states| == |current|) && history != [] && CountValid(current) > 0
    ensures IsMean(m, current, history) && Spread(m, |history|, CountValid(current), SumAll(current, history))
  {
    m := Mean(current, history);
    AverageSpreads(SumAll(current, history), |history|, CountValid(current));
  }

  lemma AverageSpreads(sum: real, k: nat, c: nat)
    requires k > 0 && c > 0
    ensures Spread(Averaged(sum, k * c), k, c, sum)
  {
    var n := k * c;
    ProductPositive(k, c);
    AveragedTimes(sum, n);
    RealProduct(Averaged(sum, n), k, c, n);
  }

  lemma ProductPositive(k: nat, c: nat)
    requires k > 0 && c > 0
    ensures k * c > 0
  {
  }

  lemma RealProduct(m: real, k: nat, c: nat, n: nat)
    requires n == k * c
    ensures m * k as real * c as real == m * n as real
  {
    assert k as real * c as real == n as real;
  }

  lemma SpreadsCombine(m: real, p: real, q: real, k: nat, l: nat, c: nat, x: real, y: real)
    requires Spread(m, k + l, c, x + y) && Spread(p, k, c, x) && Spread(q, l, c, y) && c > 0
    ensures Weighted(m, p, k, q, l)
  {
    assert SeeSpread(0);
    var r, t := m * (k + l) as real, p * k as real + q * l as real;
    SameFactor(r, t, c as real);
  }

  /** `m` is the average of `p` and `q` with these weights; kept folded. */
  ghost predicate Weighted(m: real, p: real, k: nat, q: real, l: nat) {
    forall x | SeeSpread(x) :: m * (k + l) as real == p * k as real + q * l as real
  }

  lemma SameFactor(a: real, b: real, c: real)
    requires c > 0.0 && a * c == b * c
    ensures a == b
  {
  }

  lemma MeansWeighted(current: seq<U32>, a: seq<Snapshot>, b: seq<Snapshot>) returns (m: real, p: real, q: real)
    requires (forall s <- a :: |s.states| == |current|) && (forall s <- b :: |s.states| == |current|)
    requires CountValid(current) > 0 && a != [] && b != []
    ensures IsMean(m, current, a + b) && IsMean(p, current, a) && IsMean(q, current, b)
    ensures Weighted(m, p, |a|, q, |b|)
  {
    SumOfBoth(current, a, b);
    p := MeanSpreads(current, a);
    q := MeanSpreads(current, b);
    m := MeanSpreads(current, a + b);
    SpreadsCombine(m, p, q, |a|, |b|, CountValid(current), SumAll(current, a), SumAll(current, b));
  }

  /** The mean distance is an average: over a longer history the means of its parts count by their
      lengths. */
  lemma MeanIsAverage(current: seq<U32>, a: seq<Snapshot>, b: seq<Snapshot>) returns (m: real, p: real, q: real)
    requires (forall s <- a :: |s.states| == |current|) && (forall s <- b :: |s.states| == |current|)
    requires CountValid(current) > 0 && a != [] && b != []
    ensures IsMean(m, current, a + b) && IsMean(p, current, a) && IsMean(q, current, b)
    ensures m * (|a| + |b|) as real == p * |a| as real + q * |b| as real
  {
    m, p, q := MeansWeighted(current, a, b);
    Unfolded(m, p, |a|, q, |b|);
  }

  lemma Unfolded(m: real, p: real, k: nat, q: real, l: nat)
    requires Weighted(m, p, k, q, l)
    ensures m * (k + l) as real == p * k as real + q * l as real
  {
    assert SeeSpread(0);
  }

  /** Over one set variable and one snapshot it is the distance of the two states. */
  lemma MeanOfOne(x: U32, s: Snapshot)
    requires x > 0 && |s.states| == 1
    ensures Mean([x], [s]) == VarDistance(x, s.states[0])
  {
    var none: seq<Snapshot> := [];
    assert [s][..0] == none && none + [s] == [s];
    SumAllNext([x], none, s);
    SumOfOne([x], s.states);
    CountsOne(x);
  }

  lemma CountsOne(x: U32)
    requires x > 0
    ensures CountValid([x]) == 1
  {
    assert [x][..0] == [];
  }

  method EvaluateDiversity(current: Snapshot, h: History) returns (score: real)
    requires h.Valid() && forall k | 0 <= k < h.count :: |h.snapshots[k].states| == |current.states|
    requires current.validCount == CountValid(current.states)
    ensures forall s <- h.snapshots[..h.count] :: |s.states| == |current.states|
    ensures score == Diversity(current, h.snapshots[..h.count], h.totalVars, h.minCoverage, h.maxCoverage)
  {
    var history := h.snapshots[..h.count];
    if h.count == 0 {
      return 1.0;
    }
    var sum, compared := CompareToAll(current.states, history);
    if compared > 0 {
      sum := sum / compared as real;
    }
    var ratio := Coverage(current, h.totalVars);
    var coverage := (ratio - h.minCoverage) / (h.maxCoverage - h.minCoverage + 0.0001);
    if coverage < 0.0 {
      coverage := 0.0;
    }
    if coverage > 1.0 {
      coverage := 1.0;
    }
    score := 0.6 * sum + 0.4 * coverage;
  }

  const INTERESTING := 0.3

  /** The range of coverage after states with this coverage joined. */
  function WidenedTo(most: real, coverage: real): real {
    if coverage > most then coverage else most
  }

  /** What is done with the states of one run: they are scored against the history, and join it if
      they are new enough. */
  method Observe(h: History, map_: seq<U32>) returns (score: real)
    requires h.Valid() && forall s <- h.snapshots[..h.count] :: |s.states| == |map_|
    modifies h, h.snapshots
    ensures h.Valid()
    ensures score == Diversity(Snapshot(map_, CountValid(map_)), old(h.snapshots[..h.count]), h.totalVars,
                               old(h.minCoverage), old(h.maxCoverage))
    ensures h.added == old(h.added) + if score > INTERESTING then [Snapshot(map_, CountValid(map_))] else []
    ensures h.minCoverage == old(h.minCoverage)
    ensures h.maxCoverage == if score > INTERESTING
                             then WidenedTo(old(h.maxCoverage), Coverage(Snapshot(map_, CountValid(map_)), h.totalVars))
                             else old(h.maxCoverage)
    ensures score <= INTERESTING ==> h.snapshots[..] == old(h.snapshots[..])
    ensures h.count == if score > INTERESTING && old(h.count) < h.capacity then old(h.count) + 1 else old(h.count)
  {
    var s := CreateSnapshot(map_);
    score := EvaluateDiversity(s, h);
    if score > INTERESTING {
      h.AddToHistory(s);
    }
  }

  lemma {:induction false} NoDistance(current: seq<U32>, v: nat)
    requires v <= |current|
    ensures SumTo(current, current, v) == 0.0
  {
    if v > 0 {
      NoDistance(current, v - 1);
      VarDistanceLaws(current[v - 1], current[v - 1]);
    }
  }

  lemma {:induction false} NoDistances(current: seq<U32>, history: seq<Snapshot>)
    requires forall s <- history :: s.states == current
    ensures SumAll(current, history) == 0.0
  {
    if history != [] {
      NoDistances(current, history[..|history| - 1]);
      NoDistance(current, |current|);
    }
  }

  /** When states join a history that is not empty, whatever it holds: exactly if they are far
      enough from it on average, where full coverage counts as two thirds. So states seen before
      join again if the others are far from them, and any states do with a coverage score above
      three quarters. */
  lemma JoinsExactly(current: Snapshot, history: seq<Snapshot>, totalVars: nat, least: real, most: real)
    requires history != [] && (forall s <- history :: |s.states| == |current.states|) && most - least + 0.0001 > 0.0
    ensures var score := CoverageScore(Coverage(current, totalVars), least, most);
            && (Diversity(current, history, totalVars, least, most) > INTERESTING <==>
                Mean(current.states, history) > 0.5 - score * 2.0 / 3.0)
            && (score > 0.75 ==> Diversity(current, history, totalVars, least, most) > INTERESTING)
  {
    SumAllBounds(current.states, history);
    var n := |history| * CountValid(current.states);
    if n > 0 {
      MeanBounds(SumAll(current.states, history), n as real);
    } else {
      assert SumAll(current.states, history) == 0.0;
    }
  }

  /** States that are all the history holds join it once more exactly if their coverage score is
      above three quarters. */
  lemma RepeatJoins(current: Snapshot, history: seq<Snapshot>, totalVars: nat, least: real, most: real)
    requires history != [] && (forall s <- history :: s.states == current.states) && most - least + 0.0001 > 0.0
    ensures Diversity(current, history, totalVars, least, most) > INTERESTING <==>
            CoverageScore(Coverage(current, totalVars), least, most) > 0.75
  {
    NoDistances(current.states, history);
    var n := |history| * CountValid(current.states);
    assert n > 0 ==> 0.0 / n as real == 0.0;
    JoinsExactly(current, history, totalVars, least, most);
  }

  /** The same states twice in a row. */
  method ObserveTwice() returns (h: History)
    ensures fresh(h) && h.Valid() && |h.added| == 2 && h.added[0] == h.added[1] && h.added[0].states == [5, 7]
  {
    h := new History(100, 2);
    var map_: seq<U32> := [5, 7];
    FullCoverage(map_);
    var first := Observe(h, map_);
    ghost var held := h.snapshots[..h.count];
    HeldIs(h);
    RepeatJoins(Snapshot(map_, 2), held, 2, 0.0, 1.0);
    var second := Observe(h, map_);
  }

  lemma FullCoverage(map_: seq<U32>)
    requires map_ == [5, 7]
    ensures CountValid(map_) == 2
    ensures Coverage(Snapshot(map_, 2), 2) == 1.0 && CoverageScore(1.0, 0.0, 1.0) > 0.75
  {
    assert map_[..1] == [5] && map_[..1][..0] == [];
    assert CountValid([5]) == 1;
  }

  lemma HeldIs(h: History)
    requires h.Valid() && h.count < h.capacity
    ensures h.snapshots[..h.count] == Newest(h.added, h.capacity)
  {
  }

  /** States among others: with far more variables than it sets, and so hardly any coverage, the
      value 5 joins a history again that holds it and three times the value 7. */
  lemma AmongOthers(totalVars: nat, a: Snapshot, b: Snapshot)
    requires totalVars == 100000 && a == Snapshot([5], 1) && b == Snapshot([7], 1)
    ensures CoverageScore(Coverage(a, totalVars), 0.0, 1.0) < 0.0001
    ensures Diversity(a, [a, b, b, b], totalVars, 0.0, 1.0) > INTERESTING
  {
    SumOfOne(a.states, a.states);
    SumOfOne(a.states, b.states);
    SumOfFour(a.states, a, b, [a, b, b, b]);
    OneSet(a.states);
    MeanOf(a.states, [a, b, b, b], 4);
    TinyCoverage(a, totalVars);
    JoinsExactly(a, [a, b, b, b], totalVars, 0.0, 1.0);
  }

  lemma SumOfFour(s: seq<U32>, a: Snapshot, b: Snapshot, history: seq<Snapshot>)
    requires |a.states| == |b.states| == |s| && history == [a, b, b, b]
    ensures SumAll(s, history) == SumTo(s, a.states, |s|) + 3.0 * SumTo(s, b.states, |s|)
  {
    SumAllNext(s, [], a);
    SumAllNext(s, [a], b);
    SumAllNext(s, [a, b], b);
    SumAllNext(s, [a, b, b], b);
    assert [] + [a] == [a] && [a] + [b] == [a, b] && [a, b] + [b] == [a, b, b] && [a, b, b] + [b] == history;
  }

  lemma OneSet(s: seq<U32>)
    requires s == [5]
    ensures CountValid(s) == 1
  {
    assert s[..0] == [];
  }

  lemma MeanOf(s: seq<U32>, history: seq<Snapshot>, n: nat)
    requires (forall h <- history :: |h.states| == |s|) && |history| * CountValid(s) == n && n > 0
    ensures Mean(s, history) == SumAll(s, history) / n as real
  {
  }

  lemma TinyCoverage(s: Snapshot, totalVars: nat)
    requires s.validCount == 1 && totalVars == 100000
    ensures CoverageScore(Coverage(s, totalVars), 0.0, 1.0) < 0.0001
  {
    assert Coverage(s, totalVars) == 0.00001;
  }

  lemma SumOfOne(current: seq<U32>, earlier: seq<U32>)
    requires |current| == |earlier| == 1 && current[0] != 0
    ensures SumTo(current, earlier, 1) == VarDistance(current[0], earlier[0])
  {
    assert SumTo(current, earlier, 0) == 0.0;
  }

  lemma SumAllNext(current: seq<U32>, history: seq<Snapshot>, s: Snapshot)
    requires (forall h <- history :: |h.states| == |current|) && |s.states| == |current|
    ensures SumAll(current, history + [s]) == SumAll(current, history) + SumTo(current, s.states, |current|)
  {
    assert (history + [s])[..|history|] == history;
  }

  method CompareToAll(current: seq<U32>, history: seq<Snapshot>) returns (sum: real, compared: nat)
    requires forall s <- history :: |s.states| == |current|
    ensures sum == SumAll(current, history) && compared == |history| * CountValid(current)
  {
    sum, compared := 0.0, 0;
    for k := 0 to |history|
      invariant sum == SumAll(current, history[..k])
      invariant compared == k * CountValid(current)
    {
      var s, n := CompareTo(current, history[k].states);
      assert history[..k + 1][..k] == history[..k];
      sum, compared := sum + s, compared + n;
    }
    assert history[..|history|] == history;
  }

  method CompareTo(current: seq<U32>, earlier: seq<U32>) returns (sum: real, n: nat)
    requires |current| == |earlier|
    ensures sum == SumTo(current, earlier, |current|) && n == CountValid(current)
  {
    sum, n := 0.0, 0;
    for v := 0 to |current|
      invariant sum == SumTo(current, earlier, v) && n == CountValid(current[..v])
    {
      assert current[..v + 1][..v] == current[..v];
      if current[v] != 0 {
        var d := VarSimilarity(current[v], earlier[v]);
        sum, n := sum + d, n + 1;
      }
    }
    assert current[..|current|] == current;
  }

  // ---- The weights ----

  function Clamped(x: real): real {
    if x < 0.1 then 0.1 else if x > 0.9 then 0.9 else x
  }

  function Stepped(w: real, rate: real, coverageGain: real, stateGain: real): real {
    Clamped(w + rate * (coverageGain - stateGain))
  }

  class Weights {
    var traditional: real
    var state: real
    const rate: real

    predicate Valid()
      reads this
    {
      traditional + state == 1.0 && 0.1 <= traditional <= 0.9
    }

    constructor ()
      ensures Valid() && traditional == 0.5 && rate == 0.1
    {
      traditional, state, rate := 0.5, 0.5, 0.1;
    }

    /** One update is one clamped step: the division by the sum never changes anything. */
    method Update(coverageGain: real, stateGain: real)
      requires Valid()
      modifies this
      ensures Valid()
      ensures traditional == Stepped(old(traditional), rate, coverageGain, stateGain)
      ensures var x := old(traditional) + rate * (coverageGain - stateGain);
              && (0.1 <= x <= 0.9 ==> traditional == x)
              && (x < 0.1 ==> traditional == 0.1) && (x > 0.9 ==> traditional == 0.9)
      ensures state == 1.0 - traditional
    {
      var diff := coverageGain - stateGain;
      var step := rate * diff;
      assert rate * (stateGain - coverageGain) == -step;
      traditional := traditional + step;
      state := state + rate * (stateGain - coverageGain);
      var sum := traditional + state;
      assert sum == 1.0;
      if sum > 0.0 {
        traditional := traditional / sum;
        state := state / sum;
      }
      if traditional < 0.1 {
        traditional := 0.1;
      }
      if traditional > 0.9 {
        traditional := 0.9;
      }
      state := 1.0 - traditional;
    }

    function Combined(t: real, d: real): real
      reads this
    {
      traditional * t + state * d
    }

    /** The combined score lies between the two it combines, as far from the second as the traditional
        weight says. */
    lemma CombinedBetween(t: real, d: real)
      requires Valid()
      ensures Combined(t, d) - d == traditional * (t - d)
      ensures (if t < d then t else d) <= Combined(t, d) <= (if t < d then d else t)
    {
      assert Combined(t, d) == d + traditional * (t - d) == t + state * (d - t);
      if t < d {
        NotNegative(state, d - t);
        NotNegative(traditional, d - t);
        assert traditional * (t - d) == -(traditional * (d - t));
      } else {
        NotNegative(traditional, t - d);
        NotNegative(state, t - d);
        assert state * (d - t) == -(state * (t - d));
      }
    }
  }

  lemma NotNegative(a: real, b: real)
    requires a >= 0.0 && b >= 0.0
    ensures a * b >= 0.0
  {
  }

  /** A run of updates, one for each pair of gains. */
  method UpdateAll(w: Weights, gains: seq<(real, real)>)
    requires w.Valid()
    modifies w
    ensures w.Valid() && w.traditional == AfterUpdates(old(w.traditional), w.rate, gains)
  {
    ghost var first := w.traditional;
    for i := 0 to |gains|
      invariant w.Valid() && w.traditional == AfterUpdates(first, w.rate, gains[..i])
    {
      w.Update(gains[i].0, gains[i].1);
      UpdatesNext(first, w.rate, gains, i);
    }
    assert gains[..|gains|] == gains;
  }

  lemma UpdatesNext(w: real, rate: real, gains: seq<(real, real)>, i: nat)
    requires i < |gains|
    ensures AfterUpdates(w, rate, gains[..i + 1])
         == Stepped(AfterUpdates(w, rate, gains[..i]), rate, gains[i].0, gains[i].1)
  {
    assert gains[..i + 1][..i] == gains[..i];
  }

  /** The traditional weight after a run of updates. */
  function AfterUpdates(w: real, rate: real, gains: seq<(real, real)>): real {
    if gains == [] then w
    else
      var n := |gains| - 1;
      Stepped(AfterUpdates(w, rate, gains[..n]), rate, gains[n].0, gains[n].1)
  }

  lemma StepUp(w: real, rate: real, gain: real, loss: real)
    requires 0.1 <= w <= 0.9 && rate >= 0.0 && gain >= loss
    ensures w <= Stepped(w, rate, gain, loss) <= 0.9
  {
    var x := StepIs(w, rate, gain, loss);
    MovesUp(w, x);
  }

  /** A step is a clamped move in the direction of the gain. */
  lemma StepIs(w: real, rate: real, gain: real, loss: real) returns (x: real)
    requires rate >= 0.0
    ensures Stepped(w, rate, gain, loss) == Clamped(w + x)
    ensures (gain >= loss ==> x >= 0.0) && (gain <= loss ==> x <= 0.0)
  {
    x := rate * (gain - loss);
    assert x == rate * gain - rate * loss;
    if gain >= loss {
      TimesGrows(rate, loss, gain);
    }
    if gain <= loss {
      TimesGrows(rate, gain, loss);
    }
  }

  lemma TimesGrows(a: real, b: real, c: real)
    requires a >= 0.0 && b <= c
    ensures a * b <= a * c
  {
  }

  lemma MovesUp(w: real, x: real)
    requires 0.1 <= w <= 0.9 && x >= 0.0
    ensures w <= Clamped(w + x) <= 0.9
  {
  }

  lemma StepDown(w: real, rate: real, gain: real, loss: real)
    requires 0.1 <= w <= 0.9 && rate >= 0.0 && gain <= loss
    ensures 0.1 <= Stepped(w, rate, gain, loss) <= w
  {
    var x := StepIs(w, rate, gain, loss);
    MovesDown(w, x);
  }

  lemma MovesDown(w: real, x: real)
    requires 0.1 <= w <= 0.9 && x <= 0.0
    ensures 0.1 <= Clamped(w + x) <= w
  {
  }

  /** Over any run both weights stay between one tenth and nine tenths. */
  lemma {:induction false} WeightsStay(w: real, rate: real, gains: seq<(real, real)>)
    requires 0.1 <= w <= 0.9 && rate >= 0.0
    ensures 0.1 <= AfterUpdates(w, rate, gains) <= 0.9
  {
    if gains != [] {
      WeightsStay(w, rate, gains[..|gains| - 1]);
    }
  }

  /** Gains that only ever favour one side can only move the weight to that side. */
  lemma {:induction false} WeightFollowsCoverage(w: real, rate: real, gains: seq<(real, real)>)
    requires 0.1 <= w <= 0.9 && rate >= 0.0 && forall i | 0 <= i < |gains| :: gains[i].0 >= gains[i].1
    ensures AfterUpdates(w, rate, gains) >= w
  {
    if gains != [] {
      var n := |gains| - 1;
      WeightFollowsCoverage(w, rate, gains[..n]);
      WeightsStay(w, rate, gains[..n]);
      StepUp(AfterUpdates(w, rate, gains[..n]), rate, gains[n].0, gains[n].1);
    }
  }

  lemma {:induction false} WeightFollowsState(w: real, rate: real, gains: seq<(real, real)>)
    requires 0.1 <= w <= 0.9 && rate >= 0.0 && forall i | 0 <= i < |gains| :: gains[i].0 <= gains[i].1
    ensures AfterUpdates(w, rate, gains) <= w
  {
    if gains != [] {
      var n := |gains| - 1;
      WeightFollowsState(w, rate, gains[..n]);
      WeightsStay(w, rate, gains[..n]);
      StepDown(AfterUpdates(w, rate, gains[..n]), rate, gains[n].0, gains[n].1);
    }
  }
}
