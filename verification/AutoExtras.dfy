/** Tokens found on the way: a bounded list, kept in the order the later stages rely on. */
module AutoExtras {
  import opened Bytes
  import opened Interesting
  import Extras

  datatype Extra = Extra(data: seq<byte>, hits: nat)

  function Lower(b: byte): byte {
    if 65 <= b <= 90 then b + 32 else b
  }

  function Lowered(s: seq<byte>): seq<byte> {
    seq(|s|, i requires 0 <= i < |s| => Lower(s[i]))
  }

  predicate SameNocase(a: seq<byte>, b: seq<byte>) {
    Lowered(a) == Lowered(b)
  }

  /** The same byte, or a letter in the other case. */
  predicate Letters(a: byte, b: byte) {
    a == b || ('A' as int <= a <= 'Z' as int && b == a + 32) || ('A' as int <= b <= 'Z' as int && a == b + 32)
  }

  /** Two texts are taken for the same exactly if they are, up to the case of ASCII letters. */
  lemma SameUpToCase(a: seq<byte>, b: seq<byte>)
    ensures SameNocase(a, b) <==> |a| == |b| && forall i | 0 <= i < |a| :: Letters(a[i], b[i])
  {
    if SameNocase(a, b) {
      forall i | 0 <= i < |a| ensures Letters(a[i], b[i]) {
        assert Lowered(a)[i] == Lowered(b)[i];
      }
    }
  }

  method MemcmpNocase(a: seq<byte>, b: seq<byte>) returns (differ: bool)
    requires |a| == |b|
    ensures differ <==> !SameNocase(a, b)
  {
    for i := 0 to |a|
      invariant forall j | 0 <= j < i :: Lowered(a)[j] == Lowered(b)[j]
    {
      if Lower(a[i]) != Lower(b[i]) {
        assert Lowered(a)[i] != Lowered(b)[i];
        return true;
      }
    }
    differ := false;
  }

  // ---- Sorting ----

  ghost predicate Sorted(s: seq<Extra>, key: Extra -> int) {
    forall i, j | 0 <= i < j < |s| :: key(s[i]) <= key(s[j])
  }

  /** The C library's sort: all that its callers rely on is that it sorts. */
  method Qsort(s: seq<Extra>, key: Extra -> int) returns (t: seq<Extra>)
    ensures multiset(t) == multiset(s) && Sorted(t, key)
  {
    t := [];
    for n := 0 to |s|
      invariant Sorted(t, key) && multiset(t) == multiset(s[..n])
    {
      assert s[..n + 1] == s[..n] + [s[n]];
      t := InsertInto(t, key, s[n]);
    }
    assert s[..|s|] == s;
  }

  method InsertInto(t: seq<Extra>, key: Extra -> int, x: Extra) returns (u: seq<Extra>)
    requires Sorted(t, key)
    ensures Sorted(u, key) && multiset(u) == multiset(t) + multiset{x}
  {
    var i := 0;
    while i < |t| && key(t[i]) <= key(x)
      invariant 0 <= i <= |t|
      invariant forall j | 0 <= j < i :: key(t[j]) <= key(x)
    {
      i := i + 1;
    }
    PutsInPlace(t, key, i, x);
    u := t[..i] + [x] + t[i..];
  }

  lemma PutsInPlace(t: seq<Extra>, key: Extra -> int, i: nat, x: Extra)
    requires Sorted(t, key) && i <= |t|
    requires forall j | 0 <= j < i :: key(t[j]) <= key(x)
    requires i < |t| ==> key(x) <= key(t[i])
    ensures Sorted(t[..i] + [x] + t[i..], key)
    ensures multiset(t[..i] + [x] + t[i..]) == multiset(t) + multiset{x}
  {
    assert t == t[..i] + t[i..];
    var u := t[..i] + [x] + t[i..];
    forall a, b | 0 <= a < b < |u| ensures key(u[a]) <= key(u[b]) {
      if a == i {
        assert u[b] == t[b - 1] && key(t[i]) <= key(t[b - 1]);
      } else if b == i {
        assert u[a] == t[a];
      } else {
        var c, d := if a < i then a else a - 1, if b < i then b else b - 1;
        assert u[a] == t[c] && u[b] == t[d] && key(t[c]) <= key(t[d]);
      }
    }
  }

  // ---- The order kept ----

  ghost predicate Distinct(s: seq<Extra>) {
    forall i, j | 0 <= i < j < |s| :: !SameNocase(s[i].data, s[j].data)
  }

  function ByHits(): Extra -> int { (e: Extra) => 0 - e.hits }

  function ByLen(): Extra -> int { (e: Extra) => |e.data| }

  /** The most used tokens come first, and among themselves in order of length. */
  ghost predicate InOrder(s: seq<Extra>, use: nat) {
    var top := Min(use, |s|);
    && Sorted(s[..top], ByLen())
    && Sorted(s[top..], ByHits())
    && forall i, j | 0 <= i < top <= j < |s| :: s[i].hits >= s[j].hits
  }

  lemma OrderExactly(s: seq<Extra>, use: nat)
    ensures InOrder(s, use) <==>
              && (forall i, j | 0 <= i < j < Min(use, |s|) :: |s[i].data| <= |s[j].data|)
              && (forall i, j | 0 <= i < j < |s| && use <= j :: s[i].hits >= s[j].hits)
  {
    var top := Min(use, |s|);
    if InOrder(s, use) {
      forall i, j | 0 <= i < j < top ensures |s[i].data| <= |s[j].data| {
        assert ByLen()(s[..top][i]) <= ByLen()(s[..top][j]);
      }
      forall i, j | 0 <= i < j < |s| && use <= j ensures s[i].hits >= s[j].hits {
        if i >= top {
          assert ByHits()(s[top..][i - top]) <= ByHits()(s[top..][j - top]);
        }
      }
    }
  }

  lemma AtFrom(a: seq<Extra>, b: seq<Extra>, i: nat) returns (j: nat)
    requires multiset(a) == multiset(b) && i < |b|
    ensures j < |a| && a[j] == b[i]
  {
    assert b[i] in multiset(a);
    j :| 0 <= j < |a| && a[j] == b[i];
  }

  /** Two equal elements of one list are two of the other. */
  lemma TwiceIn(a: seq<Extra>, x: Extra)
    requires multiset(a)[x] >= 2
    ensures exists i, j :: 0 <= i < j < |a| && a[i] == x && a[j] == x
  {
    var i :| 0 <= i < |a| && a[i] == x;
    var rest := a[..i] + a[i + 1..];
    OneLeft(a, i, x);
    var j :| 0 <= j < |rest| && rest[j] == x;
    var k := if j < i then j else j + 1;
    assert a[k] == x && k != i;
    var first, second := if k < i then k else i, if k < i then i else k;
    assert 0 <= first < second < |a| && a[first] == x && a[second] == x;
  }

  lemma OneLeft(a: seq<Extra>, i: nat, x: Extra)
    requires i < |a| && a[i] == x && multiset(a)[x] >= 2
    ensures x in a[..i] + a[i + 1..]
  {
    var rest := a[..i] + a[i + 1..];
    assert a == a[..i] + [x] + a[i + 1..];
    assert multiset(a) == multiset(rest) + multiset{x};
    assert x in multiset(rest);
  }

  lemma PermutedDistinct(a: seq<Extra>, b: seq<Extra>)
    requires multiset(a) == multiset(b) && Distinct(a)
    ensures Distinct(b)
  {
    forall i, j | 0 <= i < j < |b| ensures !SameNocase(b[i].data, b[j].data) {
      if b[i] == b[j] {
        assert b == b[..i] + [b[i]] + b[i + 1..j] + [b[j]] + b[j + 1..];
        TwiceIn(a, b[i]);
      } else {
        var k := AtFrom(a, b, i);
        var l := AtFrom(a, b, j);
        assert k != l;
      }
    }
  }

  /** Sorting by use, and then the front by length, establishes the order. */
  lemma SortsInOrder(s: seq<Extra>, t: seq<Extra>, top: seq<Extra>, use: nat)
    requires Sorted(s, ByHits()) && multiset(top) == multiset(s[..Min(use, |s|)]) && Sorted(top, ByLen())
    requires t == top + s[Min(use, |s|)..]
    ensures InOrder(t, use) && multiset(t) == multiset(s)
  {
    var n := Min(use, |s|);
    assert s == s[..n] + s[n..];
    assert |multiset(top)| == |top| && |multiset(s[..n])| == n;
    assert t[..n] == top && t[n..] == s[n..];
    forall i, j | 0 <= i < j < |t[n..]| ensures ByHits()(t[n..][i]) <= ByHits()(t[n..][j]) {
      assert ByHits()(s[n + i]) <= ByHits()(s[n + j]);
    }
    forall i, j | 0 <= i < n <= j < |t| ensures t[i].hits >= t[j].hits {
      var k := AtFrom(s[..n], top, i);
      assert ByHits()(s[k]) <= ByHits()(s[j]);
    }
  }

  lemma BumpKeepsDistinct(s: seq<Extra>, i: nat)
    requires Distinct(s) && i < |s|
    ensures Distinct(s[i := Extra(s[i].data, s[i].hits + 1)])
  {
  }

  lemma PutKeepsDistinct(s: seq<Extra>, i: nat, mem: seq<byte>)
    requires Distinct(s) && i <= |s| && forall j | 0 <= j < |s| :: !SameNocase(s[j].data, mem)
    ensures Distinct(if i < |s| then s[i := Extra(mem, 0)] else s + [Extra(mem, 0)])
  {
  }

  /** The tokens the overwriting stage takes from the front of the list. */
  function FrontTokens(s: seq<Extra>, use: nat): seq<seq<byte>> {
    seq(Min(use, |s|), i requires 0 <= i < Min(use, |s|) => s[i].data)
  }

  /** They are in the order that stage relies on. */
  lemma FrontIsAscending(s: seq<Extra>, use: nat)
    requires InOrder(s, use)
    ensures Extras.Ascending(FrontTokens(s, use))
  {
    var top := s[..Min(use, |s|)];
    forall a, b | 0 <= a < b < |FrontTokens(s, use)| ensures |FrontTokens(s, use)[a]| <= |FrontTokens(s, use)[b]| {
      assert ByLen()(top[a]) <= ByLen()(top[b]);
    }
  }

  // ---- Adding a token ----

  class AutoDict {
    const maxAuto: nat
    const useAuto: nat
    const extras: seq<seq<byte>>
    var autos: seq<Extra>
    var changed: bool

    /** The user's tokens are sorted by length when they are loaded. */
    ghost predicate Valid()
      reads this
    {
      && (forall i, j | 0 <= i < j < |extras| :: |extras[i]| <= |extras[j]|)
      && |autos| <= maxAuto && Distinct(autos) && InOrder(autos, useAuto)
    }

    constructor (maxAuto: nat, useAuto: nat, extras: seq<seq<byte>>)
      requires forall i, j | 0 <= i < j < |extras| :: |extras[i]| <= |extras[j]|
      ensures Valid() && autos == [] && !changed && this.maxAuto == maxAuto && this.useAuto == useAuto
      ensures this.extras == extras
    {
      this.maxAuto := maxAuto;
      this.useAuto := useAuto;
      this.extras := extras;
      autos, changed := [], false;
    }

    predicate Uniform(mem: seq<byte>) {
      mem != [] && forall i | 0 <= i < |mem| :: mem[i] == mem[0]
    }

    ghost predicate MatchesExtra(mem: seq<byte>) {
      exists i | 0 <= i < |extras| :: SameNocase(extras[i], mem)
    }

    ghost predicate Rejected(mem: seq<byte>) {
      maxAuto == 0 || useAuto == 0 || Uniform(mem) || BuiltIn(mem) || MatchesExtra(mem)
    }

    method IsUniform(mem: seq<byte>) returns (yes: bool)
      ensures yes == Uniform(mem)
    {
      var i := 1;
      while i < |mem| && mem[0] == mem[i]
        invariant 1 <= i && (|mem| == 0 || i <= |mem|)
        invariant forall j | 0 <= j < i && j < |mem| :: mem[j] == mem[0]
      {
        i := i + 1;
      }
      yes := i == |mem|;
    }

    /** Only the tokens of the right length are looked at; the list is sorted by length. */
    method FindExtra(mem: seq<byte>) returns (yes: bool)
      requires forall i, j | 0 <= i < j < |extras| :: |extras[i]| <= |extras[j]|
      ensures yes == MatchesExtra(mem)
    {
      var i := 0;
      while i < |extras| && |extras[i]| < |mem|
        invariant 0 <= i <= |extras|
        invariant forall j | 0 <= j < i :: |extras[j]| < |mem|
      {
        i := i + 1;
      }
      while i < |extras| && |extras[i]| == |mem|
        invariant 0 <= i <= |extras|
        invariant forall j | 0 <= j < i :: !SameNocase(extras[j], mem)
      {
        var differ := MemcmpNocase(extras[i], mem);
        if !differ {
          return true;
        }
        i := i + 1;
      }
      yes := false;
    }

    method FindAuto(mem: seq<byte>) returns (i: nat)
      ensures i <= |autos|
      ensures i < |autos| ==> SameNocase(autos[i].data, mem)
      ensures i == |autos| ==> forall j | 0 <= j < |autos| :: !SameNocase(autos[j].data, mem)
    {
      i := 0;
      while i < |autos|
        invariant i <= |autos|
        invariant forall j | 0 <= j < i :: !SameNocase(autos[j].data, mem)
      {
        if |autos[i].data| == |mem| {
          var differ := MemcmpNocase(autos[i].data, mem);
          if !differ {
            return;
          }
        }
        i := i + 1;
      }
    }

    method SortAutos()
      requires Distinct(autos)
      modifies this`autos
      ensures multiset(autos) == multiset(old(autos)) && Distinct(autos) && InOrder(autos, useAuto)
    {
      var s := Qsort(autos, ByHits());
      var n := Min(useAuto, |s|);
      var top := Qsort(s[..n], ByLen());
      PermutedDistinct(autos, s);
      autos := top + s[n..];
      SortsInOrder(s, autos, top, useAuto);
      PermutedDistinct(s, autos);
    }

    /** What adding a token makes of the list, up to its order: a known one is counted once
        more; a new one is appended, or takes the place of one from the back half. */
    ghost predicate Adds(was: seq<Extra>, mem: seq<byte>, choice: nat, now: seq<Extra>) {
      if exists i :: Known(was, mem, i) then exists i :: CountedUp(was, mem, i, now)
      else if |was| < maxAuto then SameTokens(now, was + [Extra(mem, 0)])
      else
        var e := maxAuto / 2 + choice;
        e < |was| && SameTokens(now, was[e := Extra(mem, 0)])
    }

    ghost predicate CountedUp(was: seq<Extra>, mem: seq<byte>, i: int, now: seq<Extra>) {
      Known(was, mem, i) && SameTokens(now, was[i := Extra(was[i].data, was[i].hits + 1)])
    }

    ghost predicate SameTokens(a: seq<Extra>, b: seq<Extra>) {
      multiset(a) == multiset(b)
    }

    ghost predicate Known(s: seq<Extra>, mem: seq<byte>, i: int) {
      0 <= i < |s| && SameNocase(s[i].data, mem)
    }

    method Rejects(mem: seq<byte>) returns (yes: bool)
      requires forall i, j | 0 <= i < j < |extras| :: |extras[i]| <= |extras[j]|
      ensures yes == Rejected(mem)
    {
      if maxAuto == 0 || useAuto == 0 {
        return true;
      }
      yes := IsUniform(mem);
      if !yes {
        yes := IsBuiltIn(mem);
      }
      if !yes {
        yes := FindExtra(mem);
      }
    }

    method MaybeAdd(mem: seq<byte>, choice: nat)
      requires Valid() && choice < (maxAuto + 1) / 2
      modifies this`autos, this`changed
      ensures Valid()
      ensures Rejected(mem) ==> autos == old(autos) && changed == old(changed)
      ensures !Rejected(mem) ==> changed && Adds(old(autos), mem, choice, autos)
    {
      var reject := Rejects(mem);
      if reject {
        return;
      }
      changed := true;
      Enter(mem, choice);
      ghost var entered := autos;
      SortAutos();
      AddsReordered(old(autos), mem, choice, entered, autos);
    }

    lemma AddsReordered(was: seq<Extra>, mem: seq<byte>, choice: nat, now: seq<Extra>, sorted: seq<Extra>)
      requires Adds(was, mem, choice, now) && multiset(sorted) == multiset(now)
      ensures Adds(was, mem, choice, sorted)
    {
      if exists i :: Known(was, mem, i) {
        var i :| CountedUp(was, mem, i, now);
        assert CountedUp(was, mem, i, sorted);
      }
    }

    /** A full list never loses one of the tokens in use to a new one. */
    lemma EvictionSparesFront(was: seq<Extra>, mem: seq<byte>, choice: nat, now: seq<Extra>, i: nat)
      requires Adds(was, mem, choice, now) && 2 * useAuto <= maxAuto && i < Min(useAuto, |was|)
      ensures exists j :: 0 <= j < |now| && now[j].data == was[i].data
    {
      if exists k :: Known(was, mem, k) {
        var k: nat :| CountedUp(was, mem, k, now);
        StaysIn(was, was[k := Extra(was[k].data, was[k].hits + 1)], now, i);
      } else if |was| < maxAuto {
        StaysIn(was, was + [Extra(mem, 0)], now, i);
      } else {
        StaysIn(was, was[maxAuto / 2 + choice := Extra(mem, 0)], now, i);
      }
    }

    lemma StaysIn(was: seq<Extra>, changed: seq<Extra>, now: seq<Extra>, i: nat)
      requires i < |was| && i < |changed| && changed[i].data == was[i].data && SameTokens(now, changed)
      ensures exists j :: 0 <= j < |now| && now[j].data == was[i].data
    {
      var j := AtFrom(now, changed, i);
    }

    method Enter(mem: seq<byte>, choice: nat)
      requires Distinct(autos) && |autos| <= maxAuto && choice < (maxAuto + 1) / 2
      modifies this`autos
      ensures Distinct(autos) && |autos| <= maxAuto
      ensures Adds(old(autos), mem, choice, autos)
    {
      var i := FindAuto(mem);
      if i < |autos| {
        Bump(i, mem, choice);
      } else {
        EnterNew(mem, choice);
      }
    }

    lemma NotKnown(s: seq<Extra>, mem: seq<byte>)
      requires forall j | 0 <= j < |s| :: !SameNocase(s[j].data, mem)
      ensures forall i :: !Known(s, mem, i)
    {
    }

    method Bump(i: nat, ghost mem: seq<byte>, ghost choice: nat)
      requires Distinct(autos) && i < |autos| <= maxAuto && SameNocase(autos[i].data, mem)
      modifies this`autos
      ensures Distinct(autos) && |autos| <= maxAuto
      ensures Adds(old(autos), mem, choice, autos)
    {
      BumpKeepsDistinct(autos, i);
      ghost var was := autos;
      autos := autos[i := Extra(autos[i].data, autos[i].hits + 1)];
      assert CountedUp(was, mem, i, autos);
    }

    method EnterNew(mem: seq<byte>, choice: nat)
      requires Distinct(autos) && |autos| <= maxAuto && choice < (maxAuto + 1) / 2
      requires forall j | 0 <= j < |autos| :: !SameNocase(autos[j].data, mem)
      modifies this`autos
      ensures Distinct(autos) && |autos| <= maxAuto
      ensures Adds(old(autos), mem, choice, autos)
    {
      NotKnown(autos, mem);
      if |autos| < maxAuto {
        PutKeepsDistinct(autos, |autos|, mem);
        autos := autos + [Extra(mem, 0)];
      } else {
        var e := maxAuto / 2 + choice;
        PutKeepsDistinct(autos, e, mem);
        autos := autos[e := Extra(mem, 0)];
      }
    }
  }
}
