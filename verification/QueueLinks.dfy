/** The links by hundreds that the queue keeps for seeking, and what seeking by them finds. Entries
    are known by their place in the queue. */
module QueueLinks {
  import opened Options

  /** Where the links are set: at the first entry, and at each hundredth one from the 100th on. */
  function Post(j: nat): nat {
    if j == 0 then 0 else 100 * j - 1
  }

  lemma PostsDiffer(i: nat, j: nat)
    ensures Post(i) == Post(j) ==> i == j
  {
  }

  class Queue {
    var lens: seq<nat>
    var next100: map<nat, nat>
    var prev100: nat

    /** There is a link from each post to the next one. */
    ghost predicate Valid()
      reads this
    {
      && prev100 == Post(|lens| / 100)
      && (forall j: nat | j < |lens| / 100 :: Post(j) in next100 && next100[Post(j)] == Post(j + 1))
    }

    constructor ()
      ensures Valid() && lens == []
    {
      lens, next100, prev100 := [], map[], 0;
    }

    /** The 100th entry is the 99th after the first one. */
    method Append(len: nat)
      requires Valid()
      modifies this
      ensures Valid() && lens == old(lens) + [len]
    {
      ghost var posts := |lens| / 100;
      lens := lens + [len];
      if |lens| % 100 == 0 {
        NextHundred(|lens|);
        forall j: nat | j < posts ensures Post(j) != prev100 {
          PostsDiffer(j, posts);
        }
        next100 := next100[prev100 := |lens| - 1];
        prev100 := |lens| - 1;
      } else {
        SameHundred(|lens|);
      }
    }

    /** Seeking by hundreds and then one by one stays in the queue; from 100 on it ends one entry
        before the one wanted. */
    method Seek(tid: nat) returns (target: nat)
      requires Valid() && tid < |lens|
      ensures target == Found(tid) < |lens|
    {
      var left: nat := tid;
      target := 0;
      ghost var j: nat := 0;
      while left >= 100
        invariant left + 100 * j == tid && target == Post(j)
      {
        assert j < |lens| / 100;
        target, left := next100[target], left - 100;
        j := j + 1;
      }
      target := target + left;
    }

    /** The first entry from there on that can be spliced with the current one. */
    method Other(tid: nat, current: nat) returns (r: Option<nat>)
      requires Valid() && tid < |lens|
      ensures r.Some? ==> Found(tid) <= r.value < |lens| && Fits(r.value, current)
                          && forall k | Found(tid) <= k < r.value :: !Fits(k, current)
      ensures r.None? ==> forall k | Found(tid) <= k < |lens| :: !Fits(k, current)
    {
      var target := Seek(tid);
      while target < |lens| && (lens[target] < 2 || target == current)
        invariant Found(tid) <= target <= |lens|
        invariant forall k | Found(tid) <= k < target :: !Fits(k, current)
      {
        target := target + 1;
      }
      r := if target < |lens| then Some(target) else None;
    }

    predicate Fits(k: nat, current: nat)
      requires k < |lens|
      reads this
    {
      lens[k] >= 2 && k != current
    }
  }

  function Found(tid: nat): nat {
    if tid < 100 then tid else tid - 1
  }

  lemma NextHundred(n: nat)
    requires n > 0 && n % 100 == 0
    ensures n / 100 == (n - 1) / 100 + 1 && Post(n / 100) == n - 1
  {
  }

  lemma SameHundred(n: nat)
    requires n % 100 != 0
    ensures n / 100 == (n - 1) / 100
  {
  }

  /** An entry is found as itself exactly if it is one of the first 100. In a longer queue the
      100th one is found twice, and the newest one is not found at all. */
  lemma NewestIsMissed(n: nat, e: nat)
    requires e < n
    ensures Found(e) == e <==> e < 100
    ensures (exists tid: nat :: tid < n && Found(tid) == e) <==> n <= 100 || e < n - 1
    ensures n > 100 ==> Found(99) == Found(100) == 99
  {
    if e < n - 1 || n <= 100 {
      assert Found(if e < 100 then e else e + 1) == e;
    }
  }
}
