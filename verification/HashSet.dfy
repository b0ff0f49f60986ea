/** The hash set of the tracing runtime. */
module HashSets {
  import opened Probing
  import opened Bits

  class HashSet {
    var nbits: nat
    var capacity: nat
    var mask: nat
    var items: array<Item>
    var nitems: int
    var nDeleted: int

    /** The table: what every operation keeps, whatever it is given. */
    ghost predicate Valid()
      reads this, items
    {
      && Shaped()
      && 100 * |Used(items[..])| < 85 * capacity
    }

    ghost predicate Shaped()
      reads this, items
    {
      && capacity == Pow2(nbits) == items.Length && capacity >= 8 && mask == capacity - 1
      && Reachable(items[..])
      && nitems + nDeleted == |Used(items[..])|
    }

    /** The counters say what the table holds. */
    ghost predicate Counted()
      reads this, items
    {
      nitems == |Live(items[..])| && nDeleted == |Tombs(items[..])|
    }

    /** No tombstone and no second copy: the table of a history without removals. */
    ghost predicate Pristine()
      reads this, items
    {
      Tombs(items[..]) == {} && Distinct(items[..]) && Counted()
    }

    ghost function Members(): set<Item>
      reads this, items
    {
      Contents(items[..])
    }

    constructor ()
      ensures Valid() && Pristine() && Members() == {} && fresh(items)
      ensures items[..] == EightEmpty()
    {
      nbits := 3;
      capacity := 8;
      mask := 7;
      items := new Item[8](_ => EMPTY);
      nitems := 0;
      nDeleted := 0;
      new;
      assert Pow2(3) == 8;
      assert Used(items[..]) == {} && Live(items[..]) == {} && Tombs(items[..]) == {};
    }

    function First(v: Item): (i: nat)
      reads this
    {
      And(mask, Product(FIRST_PRIME, v))
    }

    function Next(i: nat): nat
      reads this
    {
      And(mask, i + STRIDE)
    }
  
    lemma NextSlot(v: Item, k: nat)
      requires mask == capacity - 1 && capacity == Pow2(nbits)
      ensures First(v) == Slot(v, 0, capacity)
      ensures Next(Slot(v, k, capacity)) == Slot(v, k + 1, capacity)
    {
      MaskedSlot(v, k, nbits);
    }

    method NumItems() returns (n: int)
      requires Counted() && Distinct(items[..])
      ensures n == |Members()|
    {
      DistinctCounts(items[..]);
      n := nitems;
    }

    method IsMember(item: Item) returns (rv: int)
      requires Valid()
      ensures rv == if Found(items[..], item) then 1 else 0
      ensures item >= 2 ==> rv == if item in Members() then 1 else 0
    {
      ghost var s := items[..];
      var ii := First(item);
      ghost var k := 0;
      NextSlot(item, 0);
      if item >= 2 {
        FoundIffContained(s, item);
      }
      while items[ii] != EMPTY
        invariant items[..] == s && ii == Slot(item, k, capacity) && OtherPath(s, item, k)
        decreases |Used(s)| - k
      {
        if items[ii] == item {
          return 1;
        }
        NextSlot(item, k);
        OtherStep(s, item, k, nbits);
        ii, k := Next(ii), k + 1;
      }
      NotFound(s, item, k);
      rv := 0;
    }

    method AddMember(item: Item) returns (rv: int)
      requires Shaped() && |Used(items[..])| < capacity
      modifies this`nitems, this`nDeleted, items
      ensures Adds(old(items[..]), item, rv, items[..])
      ensures Shaped() && |Used(items[..])| <= old(|Used(items[..])|) + 1
      ensures old(Counted()) ==> Counted()
    {
      if item == 0 || item == 1 {
        return -1;
      }
      ghost var s := items[..];
      var ii := First(item);
      ghost var k := 0;
      NextSlot(item, 0);
      while items[ii] != EMPTY && items[ii] != TOMBSTONE
        modifies {}
        invariant items[..] == s && ii == Slot(item, k, capacity) && BusyPath(s, item, k)
        decreases |Used(s)| - k
      {
        if items[ii] == item {
          KeptAt(s, item, k);
          return 0;
        }
        NextSlot(item, k);
        BusyStep(s, item, k, nbits);
        ii, k := Next(ii), k + 1;
      }
      Occupy(ii, item, k);
      rv := 1;
    }

    method Occupy(ii: nat, item: Item, ghost k: nat)
      requires Shaped() && ii < capacity && ii == Slot(item, k, capacity)
      requires BusyPath(items[..], item, k) && items[ii] < 2 <= item
      modifies this`nitems, this`nDeleted, items
      ensures Adds(old(items[..]), item, 1, items[..])
      ensures Shaped() && |Used(items[..])| <= old(|Used(items[..])|) + 1
      ensures old(Counted()) ==> Counted()
    {
      ghost var s := items[..];
      nitems := nitems + 1;
      if items[ii] == TOMBSTONE {
        nDeleted := nDeleted - 1;
      }
      items[ii] := item;
      assert items[..] == s[ii := item];
      AddsAt(s, item, k);
      AddsGrows(s, item, 1, items[..]);
      StoreCounts(s, ii, item);
    }

    /** Doubling the table drops the tombstones and the second copies. */
    method Rehash()
      requires Shaped()
      modifies this, items
      ensures fresh(items) && Valid() && Pristine() && Members() == old(Members())
    {
      var oldItems, oldCapacity := items, capacity;
      ghost var s := items[..];
      nbits := nbits + 1;
      capacity := Pow2(nbits);
      mask := capacity - 1;
      items := new Item[capacity](_ => EMPTY);
      nitems := 0;
      nDeleted := 0;
      assert Used(items[..]) == {} && Live(items[..]) == {} && Tombs(items[..]) == {};
      for ii := 0 to oldCapacity
        invariant fresh(items) && oldItems[..] == s && capacity == 2 * oldCapacity
        invariant Shaped() && Pristine() && |Used(items[..])| <= ii
        invariant Members() == Contents(s[..ii])
      {
        Reinsert(oldItems[ii], s, ii);
      }
      assert s[..oldCapacity] == s;
    }

    method Reinsert(item: Item, ghost s: seq<Item>, ghost ii: nat)
      requires ii < |s| && item == s[ii] && |s| < capacity
      requires Shaped() && Pristine() && |Used(items[..])| <= ii && Members() == Contents(s[..ii])
      modifies this`nitems, this`nDeleted, items
      ensures Shaped() && Pristine() && |Used(items[..])| <= ii + 1 && Members() == Contents(s[..ii + 1])
    {
      ghost var before := items[..];
      var rv := AddMember(item);
      AddsGrows(before, item, rv, items[..]);
      AddsToSet(before, item, rv, items[..]);
      assert s[..ii + 1][..ii] == s[..ii];
      LastLive(s[..ii + 1]);
    }

    method MaybeRehash()
      requires Shaped()
      modifies this, items
      ensures Valid() && Members() == old(Members())
      ensures items == old(items) || fresh(items)
      ensures old(100 * (nitems + nDeleted) < 85 * capacity) ==>
                items == old(items) && items[..] == old(items[..]) && nitems == old(nitems) && nDeleted == old(nDeleted)
      ensures old(Pristine()) ==> Pristine()
      ensures old(Counted()) ==> Counted()
    {
      if 100 * (nitems + nDeleted) >= 85 * capacity {
        Rehash();
      }
    }

    method Add(item: Item) returns (rv: int)
      requires Valid()
      modifies this, items
      ensures Valid() && (items == old(items) || fresh(items))
      ensures rv == if item < 2 then -1 else if FoundEarly(old(items[..]), item) then 0 else 1
      ensures Members() == if item < 2 then old(Members()) else old(Members()) + {item}
      ensures old(Counted()) ==> Counted()
      ensures old(Pristine()) ==> Pristine() && (item >= 2 ==> rv == if item in old(Members()) then 0 else 1)
      ensures old(100 * (nitems + nDeleted + 1) < 85 * capacity) ==> Adds(old(items[..]), item, rv, items[..])
    {
      ghost var s := items[..];
      rv := AddMember(item);
      AddsGrows(s, item, rv, items[..]);
      if old(Pristine()) {
        AddsToSet(s, item, rv, items[..]);
      }
      MaybeRehash();
    }

    /** Removing the tombstone's own value "succeeds" when a search for it ends at a
        tombstone; it changes no slot but leaves the counters wrong. A caller can tell before:
        it is when the lookup of that value says yes. */
    method Remove(item: Item) returns (rv: int)
      requires Valid()
      modifies this`nitems, this`nDeleted, items
      ensures Valid() && Removes(old(items[..]), item, rv, items[..])
      ensures nitems == old(nitems) - rv && nDeleted == old(nDeleted) + rv
      ensures old(Counted()) ==> (Counted() <==> item != TOMBSTONE || !Found(old(items[..]), TOMBSTONE))
    {
      ghost var s := items[..];
      var ii := First(item);
      ghost var k := 0;
      NextSlot(item, 0);
      while items[ii] != EMPTY
        modifies {}
        invariant items[..] == s && ii == Slot(item, k, capacity) && OtherPath(s, item, k)
        decreases |Used(s)| - k
      {
        if items[ii] == item {
          break;
        }
        NextSlot(item, k);
        OtherStep(s, item, k, nbits);
        ii, k := Next(ii), k + 1;
      }
      if items[ii] == EMPTY {
        NotFound(s, item, k);
        return 0;
      }
      Bury(ii, item, k);
      rv := 1;
    }

    method Bury(ii: nat, item: Item, ghost k: nat)
      requires Valid() && ii < capacity && ii == Slot(item, k, capacity)
      requires OtherPath(items[..], item, k) && items[ii] == item != EMPTY
      modifies this`nitems, this`nDeleted, items
      ensures Valid() && Removes(old(items[..]), item, 1, items[..])
      ensures nitems == old(nitems) - 1 && nDeleted == old(nDeleted) + 1
      ensures old(Counted()) ==> (Counted() <==> item != TOMBSTONE)
    {
      ghost var s := items[..];
      items[ii] := TOMBSTONE;
      nitems := nitems - 1;
      nDeleted := nDeleted + 1;
      assert items[..] == s[ii := TOMBSTONE];
      RemovesAt(s, item, k);
      RemovesShrinks(s, item, 1, items[..]);
      UsedSplits(s);
      UsedSplits(items[..]);
    }
  }

  function EightEmpty(): (s: seq<Item>)
    ensures |s| == 8
  {
    seq(8, _ => EMPTY)
  }

  lemma SameFirstSlot()
    ensures Slot(9, 0, 8) == 1 && Slot(1, 0, 8) == 1
  {
    WrapIsUnique(657, 1, 82, 8);
    WrapIsUnique(73, 1, 9, 8);
    assert Product(FIRST_PRIME, 9) == 657 && Product(FIRST_PRIME, 1) == 73;
  }

  /** The slots for 9 and for the tombstone's value 1 begin at the same place. */
  lemma BuriedNine(t0: seq<Item>, r1: int, t1: seq<Item>, r2: int, t2: seq<Item>)
    requires t0 == EightEmpty() && Adds(t0, 9, r1, t1) && |t1| == 8 && Removes(t1, 9, r2, t2) && |t2| == 8
    ensures r1 == 1 && r2 == 1 && Found(t2, TOMBSTONE)
  {
    SameFirstSlot();
    AddsFirst(t0, 9, r1, t1);
    RemovesFirst(t1, 9, r2, t2);
    RemovesAt(t2, TOMBSTONE, 0);
  }

  method AddAndRemoveNine() returns (h: HashSet)
    ensures fresh(h) && fresh(h.items) && h.Valid() && h.Members() == {} && h.Counted() && h.nitems == 0
    ensures Found(h.items[..], TOMBSTONE)
  {
    h := new HashSet();
    var added := AddNine(h);
    ghost var t1 := h.items[..];
    var removed := h.Remove(9);
    RemovesShrinks(t1, 9, removed, h.items[..]);
    BuriedNine(EightEmpty(), added, t1, removed, h.items[..]);
  }

  method AddNine(h: HashSet) returns (added: int)
    requires h.Valid() && h.Pristine() && h.Members() == {} && h.items[..] == EightEmpty()
    modifies h, h.items
    ensures h.Valid() && h.Pristine() && h.Members() == {9} && h.nitems == 1
    ensures Adds(EightEmpty(), 9, added, h.items[..])
    ensures fresh(h.items) || h.items == old(h.items)
  {
    DistinctCounts(h.items[..]);
    added := h.Add(9);
    DistinctCounts(h.items[..]);
  }

  /** An empty set that counts minus one items. */
  method RemovedTombstone() returns (h: HashSet)
    ensures fresh(h) && h.Valid() && h.Members() == {} && h.nitems == -1 && !h.Counted()
  {
    h := AddAndRemoveNine();
    ghost var t := h.items[..];
    var removed := h.Remove(TOMBSTONE);
    RemovesShrinks(t, TOMBSTONE, removed, h.items[..]);
  }
}
