/** Open addressing with a fixed odd stride over a table of 2^n slots.
    A slot holds 0 (never used), 1 (a tombstone) or a value of at least 2. */
module Probing {
  import opened Bits
  import opened Counting

  const EMPTY: Item := 0
  const TOMBSTONE: Item := 1
  const FIRST_PRIME: Item := 73
  const STRIDE := 5009

  type Item = x: int | 0 <= x < 0x1_0000_0000_0000_0000

  /** The remainder of `x`, by taking `cap` away as long as it can be. */
  function Wrap(x: nat, cap: nat): (r: nat)
    requires cap > 0
    ensures r < cap
  {
    if x < cap then x else Wrap(x - cap, cap)
  }

  /** The product of two 64-bit words. */
  function Product(a: Item, b: Item): Item {
    a * b % 0x1_0000_0000_0000_0000
  }

  /** The `k`-th slot looked at for `v` in a table of `cap` slots. */
  function Slot(v: Item, k: nat, cap: nat): (i: nat)
    requires cap > 0
    ensures i < cap
  {
    if k == 0 then Wrap(Product(FIRST_PRIME, v), cap)
    else Wrap(Slot(v, k - 1, cap) + STRIDE, cap)
  }

  // ---- Masking is taking the remainder ----

  lemma {:induction false} WrapSplits(x: nat, cap: nat) returns (m: nat)
    requires cap > 0
    ensures x == Wrap(x, cap) + m * cap
  {
    if x < cap {
      m := 0;
    } else {
      m := WrapSplits(x - cap, cap);
      m := m + 1;
    }
  }

  lemma {:induction false} WrapIsUnique(x: nat, r: nat, m: nat, cap: nat)
    requires r < cap && x == r + m * cap
    ensures Wrap(x, cap) == r
  {
    if m > 0 {
      assert m * cap == (m - 1) * cap + cap;
      assert (m - 1) * cap >= 0;
      WrapIsUnique(x - cap, r, m - 1, cap);
    }
  }

  lemma Distribute(a: int, b: int, c: int)
    ensures (a + b) * c == a * c + b * c
  {
  }

  lemma {:induction false} WrapHalves(x: nat, p: nat)
    requires p > 0
    ensures Wrap(x, 2 * p) == x % 2 + 2 * Wrap(x / 2, p)
  {
    if x >= 2 * p {
      WrapHalves(x - 2 * p, p);
      assert (x - 2 * p) / 2 == x / 2 - p;
    }
  }

  /** With one bit less than a power of two, `&` keeps the remainder. */
  lemma {:induction false} MaskWraps(x: nat, n: nat)
    ensures And(Pow2(n) - 1, x) == Wrap(x, Pow2(n))
  {
    if n == 0 {
      WrapIsUnique(x, 0, x, 1);
    } else if x != 0 {
      MaskWraps(x / 2, n - 1);
      WrapHalves(x, Pow2(n - 1));
      assert (Pow2(n) - 1) / 2 == Pow2(n - 1) - 1;
    }
  }

  lemma MaskedSlot(v: Item, k: nat, n: nat)
    ensures And(Pow2(n) - 1, Product(FIRST_PRIME, v)) == Slot(v, 0, Pow2(n))
    ensures And(Pow2(n) - 1, Slot(v, k, Pow2(n)) + STRIDE) == Slot(v, k + 1, Pow2(n))
  {
    MaskWraps(Product(FIRST_PRIME, v), n);
    MaskWraps(Slot(v, k, Pow2(n)) + STRIDE, n);
  }

  // ---- No slot is looked at twice within one turn ----

  lemma {:induction false} SlotAhead(v: Item, i: nat, d: nat, cap: nat) returns (m: int)
    requires cap > 0
    ensures Slot(v, i + d, cap) == Slot(v, i, cap) + STRIDE * d - m * cap
  {
    if d == 0 {
      m := 0;
    } else {
      var m0 := SlotAhead(v, i, d - 1, cap);
      var m1 := WrapSplits(Slot(v, i + d - 1, cap) + STRIDE, cap);
      m := m0 + m1;
      Distribute(m0, m1, cap);
    }
  }

  /** The stride is odd, so only multiples of a power of two bring it back. */
  lemma {:induction false} OddStride(d: nat, m: int, n: nat) returns (q: int)
    requires STRIDE * d == m * Pow2(n)
    ensures d == q * Pow2(n)
  {
    if n == 0 {
      q := d;
    } else {
      assert Pow2(n) == 2 * Pow2(n - 1);
      var p := m * Pow2(n - 1);
      assert STRIDE * d == 2 * p;
      assert d == 2 * (p - 2504 * d);
      var half := d / 2;
      assert d == 2 * half;
      q := OddStride(half, m, n - 1);
      assert q * Pow2(n) == 2 * (q * Pow2(n - 1));
    }
  }

  lemma SlotsDiffer(v: Item, i: nat, j: nat, n: nat)
    requires i < j < Pow2(n)
    ensures Slot(v, i, Pow2(n)) != Slot(v, j, Pow2(n))
  {
    var m := SlotAhead(v, i, j - i, Pow2(n));
    if Slot(v, i, Pow2(n)) == Slot(v, j, Pow2(n)) {
      var q := OddStride(j - i, m, n);
      NoMultipleBetween(j - i, q, Pow2(n));
    }
  }

  lemma NoMultipleBetween(d: nat, q: int, p: nat)
    requires d == q * p
    ensures d == 0 || d >= p
  {
    if q >= 1 {
      Distribute(1, q - 1, p);
    }
  }

  /** The first `k` slots for `v`. */
  ghost function Visited(v: Item, k: nat, cap: nat): (r: set<nat>)
    requires cap > 0
  {
    if k == 0 then {} else Visited(v, k - 1, cap) + {Slot(v, k - 1, cap)}
  }

  lemma {:induction false} VisitedIsPath(v: Item, k: nat, cap: nat, x: nat) returns (i: nat)
    requires cap > 0 && x in Visited(v, k, cap)
    ensures i < k && Slot(v, i, cap) == x
  {
    if x == Slot(v, k - 1, cap) {
      i := k - 1;
    } else {
      i := VisitedIsPath(v, k - 1, cap, x);
    }
  }

  lemma {:induction false} VisitedSize(v: Item, k: nat, n: nat)
    requires k <= Pow2(n)
    ensures |Visited(v, k, Pow2(n))| == k
  {
    if k > 0 {
      VisitedSize(v, k - 1, n);
      if Slot(v, k - 1, Pow2(n)) in Visited(v, k - 1, Pow2(n)) {
        var i := VisitedIsPath(v, k - 1, Pow2(n), Slot(v, k - 1, Pow2(n)));
        SlotsDiffer(v, i, k - 1, n);
      }
    }
  }

  // ---- What is in a table ----

  ghost function Used(s: seq<Item>): set<nat> {
    set i: nat | i < |s| && s[i] != EMPTY
  }

  ghost function Live(s: seq<Item>): set<nat> {
    set i: nat | i < |s| && s[i] >= 2
  }

  ghost function Tombs(s: seq<Item>): set<nat> {
    set i: nat | i < |s| && s[i] == TOMBSTONE
  }

  ghost function Contents(s: seq<Item>): set<Item> {
    set i: nat | i < |s| && s[i] >= 2 :: s[i]
  }

  ghost predicate Distinct(s: seq<Item>) {
    forall i: nat, j: nat | i < |s| && j < |s| && s[i] == s[j] >= 2 :: i == j
  }

  /** The first `k` slots for `v` are in use. */
  ghost predicate UsedPath(s: seq<Item>, v: Item, k: nat)
    requires |s| > 0
  {
    forall i: nat | i < k :: s[Slot(v, i, |s|)] != EMPTY
  }

  /** The first `k` slots for `v` hold other values, and no tombstone. */
  ghost predicate BusyPath(s: seq<Item>, v: Item, k: nat)
    requires |s| > 0
  {
    forall i: nat | i < k :: s[Slot(v, i, |s|)] >= 2 && s[Slot(v, i, |s|)] != v
  }

  ghost predicate OtherPath(s: seq<Item>, v: Item, k: nat)
    requires |s| > 0
  {
    forall i: nat | i < k :: s[Slot(v, i, |s|)] != EMPTY && s[Slot(v, i, |s|)] != v
  }

  ghost predicate HeldAt(s: seq<Item>, i: nat, k: nat)
    requires i < |s|
  {
    Slot(s[i], k, |s|) == i && UsedPath(s, s[i], k)
  }

  /** Every value can be reached from its first slot without meeting an empty one. */
  ghost predicate Reachable(s: seq<Item>) {
    forall i: nat | i < |s| && s[i] >= 2 :: exists k: nat :: HeldAt(s, i, k)
  }

  /** A search for `v` that walks over tombstones comes upon it. */
  ghost predicate Found(s: seq<Item>, v: Item)
    requires |s| > 0
  {
    exists k: nat :: OtherPath(s, v, k) && s[Slot(v, k, |s|)] == v && v != EMPTY
  }

  /** A search for `v` that ends at the first tombstone comes upon it. */
  ghost predicate FoundEarly(s: seq<Item>, v: Item)
    requires |s| > 0
  {
    exists k: nat :: BusyPath(s, v, k) && s[Slot(v, k, |s|)] == v
  }

  ghost predicate Adds(s: seq<Item>, v: Item, r: int, t: seq<Item>)
    requires |s| > 0
  {
    if v < 2 then r == -1 && t == s
    else if FoundEarly(s, v) then r == 0 && t == s
    else r == 1 && exists k: nat :: BusyPath(s, v, k) && s[Slot(v, k, |s|)] < 2 && t == s[Slot(v, k, |s|) := v]
  }

  ghost predicate Removes(s: seq<Item>, v: Item, r: int, t: seq<Item>)
    requires |s| > 0
  {
    if Found(s, v) then
      r == 1 && exists k: nat :: OtherPath(s, v, k) && s[Slot(v, k, |s|)] == v && t == s[Slot(v, k, |s|) := TOMBSTONE]
    else r == 0 && t == s
  }

  /** Lookup is exact for every value that can be stored. */
  lemma FoundIffContained(s: seq<Item>, v: Item)
    requires |s| > 0 && Reachable(s) && v >= 2
    ensures Found(s, v) <==> v in Contents(s)
  {
    if v in Contents(s) {
      var i: nat :| i < |s| && s[i] == v;
      var k: nat :| HeldAt(s, i, k);
      FirstHit(s, v, k);
    }
  }

  lemma {:induction false} FirstHit(s: seq<Item>, v: Item, k: nat)
    requires |s| > 0 && UsedPath(s, v, k) && s[Slot(v, k, |s|)] == v && v != EMPTY
    ensures Found(s, v)
  {
    if !OtherPath(s, v, k) {
      var j: nat :| j < k && s[Slot(v, j, |s|)] == v;
      FirstHit(s, v, j);
    }
  }

  /** Without tombstones the insertion search is exact as well. */
  lemma FoundEarlyIffContained(s: seq<Item>, v: Item)
    requires |s| > 0 && Reachable(s) && Tombs(s) == {} && v >= 2
    ensures FoundEarly(s, v) <==> v in Contents(s)
  {
    FoundIffContained(s, v);
    if Found(s, v) {
      var k: nat :| OtherPath(s, v, k) && s[Slot(v, k, |s|)] == v;
      forall i: nat | i < k ensures s[Slot(v, i, |s|)] >= 2 {
        assert Slot(v, i, |s|) !in Tombs(s);
      }
      assert BusyPath(s, v, k);
    }
  }

  lemma NotFound(s: seq<Item>, v: Item, k: nat)
    requires |s| > 0 && OtherPath(s, v, k) && s[Slot(v, k, |s|)] == EMPTY
    ensures !Found(s, v)
  {
  }

  lemma NotFoundEarly(s: seq<Item>, v: Item, k: nat)
    requires |s| > 0 && BusyPath(s, v, k) && s[Slot(v, k, |s|)] < 2 <= v
    ensures !FoundEarly(s, v)
  {
  }

  ghost predicate NoTombstoneBefore(s: seq<Item>, v: Item, k: nat)
    requires |s| > 0
  {
    forall i: nat | i < k :: s[Slot(v, i, |s|)] != TOMBSTONE
  }

  /** In general the insertion search misses a value exactly when the first copy of it
      lies behind a tombstone. */
  lemma FoundEarlyIffNoTombstoneBefore(s: seq<Item>, v: Item, k: nat)
    requires |s| > 0 && OtherPath(s, v, k) && s[Slot(v, k, |s|)] == v >= 2
    ensures FoundEarly(s, v) <==> NoTombstoneBefore(s, v, k)
  {
    if FoundEarly(s, v) {
      var j: nat :| BusyPath(s, v, j) && s[Slot(v, j, |s|)] == v;
      assert !(j < k) && !(k < j);
    }
    if NoTombstoneBefore(s, v, k) {
      assert BusyPath(s, v, k);
    }
  }

  /** A walk over used slots never comes back to one of them: it takes at most as many
      steps as there are used slots, as long as one slot is unused. */
  lemma PathIsShort(s: seq<Item>, v: Item, k: nat, n: nat)
    requires |s| == Pow2(n) && |Used(s)| < |s| && UsedPath(s, v, k)
    ensures k <= |Used(s)|
  {
    var l := if k < |s| then k else |s|;
    VisitedSize(v, l, n);
    forall x <- Visited(v, l, |s|) ensures x in Used(s) {
      var i := VisitedIsPath(v, l, |s|, x);
    }
    SubsetSize(Visited(v, l, |s|), Used(s));
  }

  // ---- What one store changes ----

  lemma StoreKeepsReachable(s: seq<Item>, i: nat, v: Item, k: nat)
    requires i < |s| && Reachable(s) && v != EMPTY
    requires v >= 2 ==> Slot(v, k, |s|) == i && UsedPath(s, v, k)
    ensures Reachable(s[i := v])
  {
    var t := s[i := v];
    forall j: nat | j < |t| && t[j] >= 2 ensures exists l: nat :: HeldAt(t, j, l) {
      if j == i {
        assert HeldAt(t, j, k);
      } else {
        var l: nat :| HeldAt(s, j, l);
        assert HeldAt(t, j, l);
      }
    }
  }

  lemma StoreCounts(s: seq<Item>, i: nat, v: Item)
    requires i < |s| && s[i] < 2 <= v
    ensures |Live(s[i := v])| == |Live(s)| + 1
    ensures |Tombs(s[i := v])| == |Tombs(s)| - s[i]
    ensures |Used(s[i := v])| == |Used(s)| + 1 - s[i]
  {
    var t := s[i := v];
    assert Live(t) == Live(s) + {i};
    assert Tombs(t) == Tombs(s) - {i};
    assert i in Tombs(s) <==> s[i] == TOMBSTONE;
    UsedSplits(s);
    UsedSplits(t);
  }

  lemma StoreContents(s: seq<Item>, i: nat, v: Item)
    requires i < |s| && s[i] < 2 <= v
    ensures Contents(s[i := v]) == Contents(s) + {v}
  {
    var t := s[i := v];
    assert t[i] == v;
    forall x | x in Contents(s) ensures x in Contents(t) {
      var j: nat :| j < |s| && s[j] == x;
      assert t[j] == x;
    }
  }

  lemma EraseCounts(s: seq<Item>, i: nat)
    requires i < |s| && s[i] >= 2
    ensures |Live(s[i := TOMBSTONE])| == |Live(s)| - 1
    ensures |Tombs(s[i := TOMBSTONE])| == |Tombs(s)| + 1
    ensures Used(s[i := TOMBSTONE]) == Used(s)
    ensures Contents(s[i := TOMBSTONE]) - {s[i]} == Contents(s) - {s[i]}
    ensures Contents(s[i := TOMBSTONE]) <= Contents(s)
    ensures Distinct(s) ==> Contents(s[i := TOMBSTONE]) == Contents(s) - {s[i]}
  {
    var t := s[i := TOMBSTONE];
    assert Live(t) == Live(s) - {i};
    assert Tombs(t) == Tombs(s) + {i};
    forall x | x in Contents(s) - {s[i]} ensures x in Contents(t) {
      var j: nat :| j < |s| && s[j] == x;
      assert t[j] == x;
    }
  }

  lemma UsedSplits(s: seq<Item>)
    ensures |Used(s)| == |Live(s)| + |Tombs(s)|
    ensures |Used(s)| <= |s|
  {
    assert Used(s) == Live(s) + Tombs(s) && Live(s) !! Tombs(s);
    BoundedSize(Used(s), |s|);
  }

  /** Without duplicates, the values are as many as the slots that hold one. */
  lemma {:induction false} DistinctCounts(s: seq<Item>)
    requires Distinct(s)
    ensures |Contents(s)| == |Live(s)|
  {
    if s != [] {
      var front := s[..|s| - 1];
      DistinctCounts(front);
      LastLive(s);
    }
  }

  lemma LastLive(s: seq<Item>)
    requires s != []
    ensures var front := s[..|s| - 1];
            if s[|s| - 1] < 2 then Live(s) == Live(front) && Contents(s) == Contents(front)
            else Live(s) == Live(front) + {|s| - 1} && Contents(s) == Contents(front) + {s[|s| - 1]}
  {
    var front := s[..|s| - 1];
    forall x <- Contents(s) ensures x in Contents(front) || (x == s[|s| - 1] && x >= 2) {
      var j: nat :| j < |s| && s[j] == x >= 2;
      assert j < |front| ==> front[j] == x;
    }
    forall x <- Contents(front) ensures x in Contents(s) {
      var j: nat :| j < |front| && front[j] == x >= 2;
      assert s[j] == x;
    }
  }

  lemma BusyStep(s: seq<Item>, v: Item, k: nat, n: nat)
    requires |s| == Pow2(n) && |Used(s)| < |s| && BusyPath(s, v, k)
    requires s[Slot(v, k, |s|)] >= 2 && s[Slot(v, k, |s|)] != v
    ensures BusyPath(s, v, k + 1) && k + 1 <= |Used(s)|
  {
    PathIsShort(s, v, k + 1, n);
  }

  lemma OtherStep(s: seq<Item>, v: Item, k: nat, n: nat)
    requires |s| == Pow2(n) && |Used(s)| < |s| && OtherPath(s, v, k)
    requires s[Slot(v, k, |s|)] != EMPTY && s[Slot(v, k, |s|)] != v
    ensures OtherPath(s, v, k + 1) && k + 1 <= |Used(s)|
  {
    PathIsShort(s, v, k + 1, n);
  }

  lemma AddsAt(s: seq<Item>, v: Item, k: nat)
    requires |s| > 0 && v >= 2 && BusyPath(s, v, k) && s[Slot(v, k, |s|)] < 2
    ensures Adds(s, v, 1, s[Slot(v, k, |s|) := v])
  {
    NotFoundEarly(s, v, k);
  }

  lemma KeptAt(s: seq<Item>, v: Item, k: nat)
    requires |s| > 0 && v >= 2 && BusyPath(s, v, k) && s[Slot(v, k, |s|)] == v
    ensures Adds(s, v, 0, s)
  {
  }

  lemma RemovesAt(s: seq<Item>, v: Item, k: nat)
    requires |s| > 0 && v != EMPTY && OtherPath(s, v, k) && s[Slot(v, k, |s|)] == v
    ensures Removes(s, v, 1, s[Slot(v, k, |s|) := TOMBSTONE]) && Found(s, v)
  {
  }

  /** A value whose first slot is empty goes there. */
  lemma AddsFirst(s: seq<Item>, v: Item, r: int, t: seq<Item>)
    requires |s| > 0 && v >= 2 && s[Slot(v, 0, |s|)] == EMPTY && Adds(s, v, r, t)
    ensures r == 1 && t == s[Slot(v, 0, |s|) := v]
  {
    NotFoundEarly(s, v, 0);
    var k: nat :| BusyPath(s, v, k) && t == s[Slot(v, k, |s|) := v];
    assert k == 0;
  }

  lemma RemovesFirst(s: seq<Item>, v: Item, r: int, t: seq<Item>)
    requires |s| > 0 && v >= 2 && s[Slot(v, 0, |s|)] == v && Removes(s, v, r, t)
    ensures r == 1 && t == s[Slot(v, 0, |s|) := TOMBSTONE]
  {
    RemovesAt(s, v, 0);
    var k: nat :| OtherPath(s, v, k) && t == s[Slot(v, k, |s|) := TOMBSTONE];
    assert k == 0;
  }

  /** What adding does to the values held, for every table and every value. */
  lemma AddsGrows(s: seq<Item>, v: Item, r: int, t: seq<Item>)
    requires |s| > 0 && Reachable(s) && Adds(s, v, r, t)
    ensures |t| == |s| && Reachable(t)
    ensures Contents(t) == if v < 2 then Contents(s) else Contents(s) + {v}
    ensures |Live(t)| == |Live(s)| + if r == 1 then 1 else 0
    ensures |Used(s)| <= |Used(t)| <= |Used(s)| + 1
    ensures |Used(t)| - |Used(s)| == (if r == 1 then 1 else 0) - (|Tombs(s)| - |Tombs(t)|)
    ensures Tombs(s) == {} ==> Tombs(t) == {}
  {
    if r == 1 {
      var k: nat :| BusyPath(s, v, k) && s[Slot(v, k, |s|)] < 2 && t == s[Slot(v, k, |s|) := v];
      StoreKeepsReachable(s, Slot(v, k, |s|), v, k);
      StoreCounts(s, Slot(v, k, |s|), v);
      StoreContents(s, Slot(v, k, |s|), v);
      assert |Tombs(s)| == 0 <==> Tombs(s) == {};
    } else if r == 0 {
      var k: nat :| BusyPath(s, v, k) && s[Slot(v, k, |s|)] == v;
      assert v in Contents(s);
    }
  }

  /** Without tombstones and second copies, adding is adding to a set, and it reports
      exactly whether the value is new. */
  lemma AddsToSet(s: seq<Item>, v: Item, r: int, t: seq<Item>)
    requires |s| > 0 && Reachable(s) && Adds(s, v, r, t) && Tombs(s) == {} && Distinct(s)
    ensures Distinct(t)
    ensures v >= 2 ==> r == if v in Contents(s) then 0 else 1
  {
    if v >= 2 {
      FoundEarlyIffContained(s, v);
      if r == 1 {
        forall i: nat, j: nat | i < |t| && j < |t| && t[i] == t[j] >= 2 ensures i == j {
          assert t[i] == v || (s[i] == t[i] && s[i] in Contents(s));
          assert t[j] == v || (s[j] == t[j] && s[j] in Contents(s));
        }
      }
    }
  }

  /** What removing does, for every value that can be stored. */
  lemma RemovesShrinks(s: seq<Item>, v: Item, r: int, t: seq<Item>)
    requires |s| > 0 && Reachable(s) && Removes(s, v, r, t)
    ensures |t| == |s| && Reachable(t) && Used(t) == Used(s)
    ensures Contents(t) - {v} == Contents(s) - {v} && Contents(t) <= Contents(s)
    ensures v != 1 ==> |Live(t)| == |Live(s)| - r
    ensures v >= 2 ==> r == if v in Contents(s) then 1 else 0
    ensures Distinct(s) ==> Distinct(t) && Contents(t) == Contents(s) - {v}
    ensures v < 2 ==> t == s
  {
    if v >= 2 {
      FoundIffContained(s, v);
    }
    if r == 1 {
      var k: nat :| OtherPath(s, v, k) && s[Slot(v, k, |s|)] == v && t == s[Slot(v, k, |s|) := TOMBSTONE];
      StoreKeepsReachable(s, Slot(v, k, |s|), TOMBSTONE, k);
      if v >= 2 {
        EraseCounts(s, Slot(v, k, |s|));
      } else {
        assert t == s;
      }
    }
  }

  // ---- A second copy ----

  lemma Colliding()
    ensures Slot(2, 0, 8) == 2 && Slot(10, 0, 8) == 2 && Slot(10, 1, 8) == 3
  {
    WrapIsUnique(146, 2, 18, 8);
    WrapIsUnique(730, 2, 91, 8);
    WrapIsUnique(5011, 3, 626, 8);
    assert Product(FIRST_PRIME, 2) == 146 && Product(FIRST_PRIME, 10) == 730;
  }

  /** Values 2 and 10 share their first slot. Once 2 is removed, adding 10 again stores
      a second copy and reports it as new; removing it then leaves it a member. */
  lemma SecondCopy(t0: seq<Item>) returns (t1: seq<Item>, t2: seq<Item>, t3: seq<Item>, t4: seq<Item>, t5: seq<Item>)
    requires t0 == [0, 0, 0, 0, 0, 0, 0, 0]
    ensures |t1| == |t2| == |t3| == |t4| == |t5| == 8
    ensures Adds(t0, 2, 1, t1) && Adds(t1, 10, 1, t2)
    ensures Removes(t2, 2, 1, t3) && Found(t3, 10)
    ensures Adds(t3, 10, 1, t4)
    ensures Removes(t4, 10, 1, t5) && Found(t5, 10)
  {
    Colliding();
    t1, t2, t3 := t0[2 := 2], t0[2 := 2][3 := 10], t0[2 := 2][3 := 10][2 := TOMBSTONE];
    t4, t5 := t3[2 := 10], t3;
    AddsAt(t0, 2, 0);
    AddsAt(t1, 10, 1);
    RemovesAt(t2, 2, 0);
    RemovesAt(t3, 10, 1);
    AddsAt(t3, 10, 0);
    RemovesAt(t4, 10, 0);
    assert t4[2 := TOMBSTONE] == t5;
  }
}
