/** How often a value occurs in a sequence, and how large a set can be. */
module Counting {
  function One(b: bool): nat {
    if b then 1 else 0
  }

  /** How often `y` occurs. */
  ghost function Count<T>(q: seq<T>, y: T): nat {
    if q == [] then 0 else Count(q[..|q| - 1], y) + One(q[|q| - 1] == y)
  }

  lemma CountLast<T>(q: seq<T>, x: T, y: T)
    ensures Count(q + [x], y) == Count(q, y) + One(x == y)
  {
    assert (q + [x])[..|q|] == q;
  }

  lemma {:induction false} CountConcat<T>(a: seq<T>, b: seq<T>, y: T)
    ensures Count(a + b, y) == Count(a, y) + Count(b, y)
  {
    if b == [] {
      assert a + b == a;
    } else {
      var n := |b| - 1;
      CountConcat(a, b[..n], y);
      assert (a + b)[..|a + b| - 1] == a + b[..n];
    }
  }

  lemma {:induction false} CountOnce<T>(q: seq<T>, y: T)
    requires forall c, d | 0 <= c < d < |q| :: !(q[c] == y && q[d] == y)
    ensures Count(q, y) == One(y in q)
  {
    if q != [] {
      var front := q[..|q| - 1];
      assert q == front + [q[|q| - 1]];
      CountOnce(front, y);
    }
  }

  lemma {:induction false} CountPositive<T>(q: seq<T>, y: T)
    ensures Count(q, y) > 0 <==> y in q
  {
    if q != [] {
      CountPositive(q[..|q| - 1], y);
      assert q == q[..|q| - 1] + [q[|q| - 1]];
    }
  }

  lemma {:induction false} BoundedSize(a: set<nat>, n: nat)
    requires forall x <- a :: x < n
    ensures |a| <= n
  {
    if n > 0 {
      BoundedSize(a - {n - 1}, n - 1);
    } else {
      assert a == {};
    }
  }

  lemma {:induction false} SubsetSize<T>(a: set<T>, b: set<T>)
    requires a <= b
    ensures |a| <= |b|
  {
    if a != {} {
      var x :| x in a;
      SubsetSize(a - {x}, b - {x});
    }
  }
}
