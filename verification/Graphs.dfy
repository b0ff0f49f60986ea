/** Paths in a directed graph, and the breadth-first search that measures them. */
module Graphs {
  import opened Options

  /** The successors of each vertex; the vertices are numbered from zero. */
  type Graph = seq<seq<nat>>

  predicate WellFormed(g: Graph) {
    forall u: nat, i: nat | u < |g| && i < |g[u]| :: g[u][i] < |g|
  }

  ghost predicate Steps(g: Graph, u: nat, v: nat, k: nat)
    decreases k
  {
    if k == 0 then u == v < |g|
    else exists w: nat :: w < |g| && Steps(g, u, w, k - 1) && v in g[w]
  }

  ghost predicate IsShortest(g: Graph, u: nat, v: nat, k: nat) {
    Steps(g, u, v, k) && forall j: nat | j < k :: !Steps(g, u, v, j)
  }

  ghost predicate Reaches(g: Graph, u: nat, v: nat) {
    exists k: nat :: Steps(g, u, v, k)
  }

  lemma {:induction false} ShortestExists(g: Graph, u: nat, v: nat, k: nat) returns (s: nat)
    requires Steps(g, u, v, k)
    ensures IsShortest(g, u, v, s)
  {
    if j: nat :| j < k && Steps(g, u, v, j) {
      s := ShortestExists(g, u, v, j);
    } else {
      s := k;
    }
  }

  /** The reference: the length of a shortest path, if there is one. */
  ghost function Shortest(g: Graph, u: nat, v: nat): (r: Option<nat>)
    ensures r.Some? ==> IsShortest(g, u, v, r.value)
    ensures r.None? <==> !Reaches(g, u, v)
  {
    if Reaches(g, u, v) then
      var k: nat :| Steps(g, u, v, k);
      assert exists s :: IsShortest(g, u, v, s) by { var s := ShortestExists(g, u, v, k); }
      var s: nat :| IsShortest(g, u, v, s);
      Some(s)
    else None
  }

  // ---- What a search knows ----

  /** The vertices found so far, each with the length of some path to it. */
  ghost predicate Found(g: Graph, from: nat, seen: seq<bool>, dists: seq<nat>) {
    && |seen| == |dists| == |g| && from < |g| && seen[from] && dists[from] == 0
    && forall k | SeeFound(k) :: Paths(g, from, seen, dists)
  }

  ghost predicate Paths(g: Graph, from: nat, seen: seq<bool>, dists: seq<nat>)
    requires |seen| == |dists| == |g|
  {
    && (forall v: nat | v < |g| && seen[v] :: Steps(g, from, v, dists[v]))
    && (forall v: nat | v < |g| && !seen[v] :: dists[v] == 0)
  }

  /** Named where a proof looks into what is found, and into the edges that are done. */
  predicate SeeFound(k: int) { k == 0 }

  predicate SeeEdges(k: int) { k == 0 }

  /** The first `n` edges of `u` lead to vertices found, and shorten nothing. */
  ghost predicate Done(g: Graph, seen: seq<bool>, dists: seq<nat>, u: nat, n: nat)
    requires u < |g| == |seen| == |dists| && n <= |g[u]|
  {
    forall k | SeeEdges(k) ::
      forall i: nat | i < n :: g[u][i] < |g| && seen[g[u][i]] && dists[g[u][i]] <= dists[u] + 1
  }

  /** A finished search: no edge leads out of the vertices found. */
  ghost predicate Relaxed(g: Graph, from: nat, seen: seq<bool>, dists: seq<nat>) {
    Found(g, from, seen, dists) && forall u: nat | u < |g| && seen[u] :: Done(g, seen, dists, u, |g[u]|)
  }

  lemma {:induction false} RelaxedIsShort(g: Graph, from: nat, seen: seq<bool>, dists: seq<nat>, v: nat, k: nat)
    requires Relaxed(g, from, seen, dists) && Steps(g, from, v, k)
    ensures v < |g| && seen[v] && dists[v] <= k
    decreases k
  {
    assert SeeFound(0) && SeeEdges(0);
    if k > 0 {
      var w: nat :| w < |g| && Steps(g, from, w, k - 1) && v in g[w];
      RelaxedIsShort(g, from, seen, dists, w, k - 1);
      var i :| 0 <= i < |g[w]| && g[w][i] == v;
      assert Done(g, seen, dists, w, |g[w]|);
    }
  }

  /** So the search finds exactly the vertices that can be reached, and their distances. */
  lemma RelaxedIsExact(g: Graph, from: nat, seen: seq<bool>, dists: seq<nat>, v: nat)
    requires Relaxed(g, from, seen, dists) && v < |g|
    ensures Shortest(g, from, v) == if seen[v] then Some(dists[v]) else None
  {
    assert SeeFound(0);
    if Reaches(g, from, v) {
      var s := Shortest(g, from, v).value;
      RelaxedIsShort(g, from, seen, dists, v, s);
    }
  }

  /** Zero is a distance only of the start itself: elsewhere it stands for "not reached". */
  lemma ZeroMeansUnreachable(g: Graph, from: nat, seen: seq<bool>, dists: seq<nat>, v: nat)
    requires Relaxed(g, from, seen, dists) && v < |g|
    ensures dists[v] == 0 && from != v <==> Shortest(g, from, v) == None
  {
    assert SeeFound(0);
    RelaxedIsExact(g, from, seen, dists, v);
    if seen[v] && dists[v] == 0 {
      assert Steps(g, from, v, 0);
    }
  }

  // ---- Breadth-first search ----

  ghost predicate Queued(g: Graph, seen: seq<bool>, queue: seq<nat>)
    requires |seen| == |g|
  {
    forall i: nat | i < |queue| :: queue[i] < |g| && seen[queue[i]]
  }

  /** The queue is in order of distance, starting no lower than `low`. */
  ghost predicate Ordered(dists: seq<nat>, queue: seq<nat>, low: nat) {
    && (forall i: nat | i < |queue| :: queue[i] < |dists| && low <= dists[queue[i]])
    && (forall i: nat, j: nat | i < j < |queue| :: dists[queue[i]] <= dists[queue[j]])
  }

  ghost predicate Near(seen: seq<bool>, dists: seq<nat>, far: nat)
    requires |seen| == |dists|
  {
    forall v: nat | v < |seen| && seen[v] :: dists[v] <= far
  }

  /** Between two vertices: those found but not in the queue are done, and none is more than
      one step farther than the head of the queue. */
  ghost predicate Searching(g: Graph, from: nat, seen: seq<bool>, dists: seq<nat>, queue: seq<nat>) {
    && Found(g, from, seen, dists) && Queued(g, seen, queue) && Ordered(dists, queue, 0)
    && (queue != [] ==> Near(seen, dists, dists[queue[0]] + 1))
    && (forall u: nat | u < |g| && seen[u] && u !in queue :: Done(g, seen, dists, u, |g[u]|))
  }

  /** In the middle of the edges of `u`, which is off the queue. */
  ghost predicate Expanding(g: Graph, from: nat, seen: seq<bool>, dists: seq<nat>, queue: seq<nat>, u: nat, n: nat) {
    && Found(g, from, seen, dists) && Queued(g, seen, queue)
    && u < |g| && seen[u] && n <= |g[u]|
    && Ordered(dists, queue, dists[u]) && Near(seen, dists, dists[u] + 1)
    && (forall w: nat | w < |g| && seen[w] && w !in queue && w != u :: Done(g, seen, dists, w, |g[w]|))
    && Done(g, seen, dists, u, n)
  }

  ghost function Unseen(seen: seq<bool>): set<nat> {
    set v: nat | v < |seen| && !seen[v]
  }

  lemma FoundMore(g: Graph, from: nat, seen: seq<bool>, dists: seq<nat>, v: nat, d: nat)
    requires Found(g, from, seen, dists) && v < |g| && !seen[v] && Steps(g, from, v, d)
    ensures Found(g, from, seen[v := true], dists[v := d])
    ensures Unseen(seen[v := true]) < Unseen(seen)
  {
    assert SeeFound(0);
    assert v in Unseen(seen) && v !in Unseen(seen[v := true]);
  }

  lemma QueuedMore(g: Graph, seen: seq<bool>, dists: seq<nat>, queue: seq<nat>, low: nat, v: nat)
    requires |seen| == |dists| == |g| && Queued(g, seen, queue) && Ordered(dists, queue, low)
             && Near(seen, dists, low + 1)
    requires v < |g| && !seen[v]
    ensures Queued(g, seen[v := true], queue + [v]) && Ordered(dists[v := low + 1], queue + [v], low)
  {
    assert forall i: nat | i < |queue| :: queue[i] != v && dists[queue[i]] <= low + 1;
  }

  lemma StillDone(g: Graph, seen: seq<bool>, dists: seq<nat>, v: nat, d: nat, w: nat, n: nat)
    requires w < |g| == |seen| == |dists| && n <= |g[w]| && Done(g, seen, dists, w, n) && v < |g| && !seen[v] && w != v
    ensures Done(g, seen[v := true], dists[v := d], w, n)
  {
    assert SeeEdges(0);
  }

  lemma DoneMore(g: Graph, seen: seq<bool>, dists: seq<nat>, u: nat, n: nat)
    requires u < |g| == |seen| == |dists| && n < |g[u]| && Done(g, seen, dists, u, n)
    requires g[u][n] < |g| && seen[g[u][n]] && dists[g[u][n]] <= dists[u] + 1
    ensures Done(g, seen, dists, u, n + 1)
  {
    assert SeeEdges(0);
  }

  /** An edge to a vertex not found before puts it at the end of the queue. */
  lemma Discover(g: Graph, from: nat, seen: seq<bool>, dists: seq<nat>, queue: seq<nat>, u: nat, n: nat, v: nat)
    requires Expanding(g, from, seen, dists, queue, u, n) && n < |g[u]| && v == g[u][n] < |g| && !seen[v]
    ensures Expanding(g, from, seen[v := true], dists[v := dists[u] + 1], queue + [v], u, n + 1)
    ensures Unseen(seen[v := true]) < Unseen(seen)
  {
    assert Steps(g, from, v, dists[u] + 1) by {
      assert SeeFound(0);
      assert Steps(g, from, u, dists[u]) && v in g[u];
    }
    FoundMore(g, from, seen, dists, v, dists[u] + 1);
    QueuedMore(g, seen, dists, queue, dists[u], v);
    forall w: nat | w < |g| && seen[w] && w !in queue && w != u
      ensures Done(g, seen[v := true], dists[v := dists[u] + 1], w, |g[w]|)
    {
      StillDone(g, seen, dists, v, dists[u] + 1, w, |g[w]|);
    }
    StillDone(g, seen, dists, v, dists[u] + 1, u, n);
    DoneMore(g, seen[v := true], dists[v := dists[u] + 1], u, n);
  }

  lemma StartExpanding(g: Graph, from: nat, seen: seq<bool>, dists: seq<nat>, queue: seq<nat>)
    requires Searching(g, from, seen, dists, queue) && queue != []
    ensures Expanding(g, from, seen, dists, queue[1..], queue[0], 0)
  {
    var rest := queue[1..];
    assert queue == [queue[0]] + rest;
    assert forall i: nat | i < |rest| :: rest[i] == queue[i + 1];
  }

  lemma StopExpanding(g: Graph, from: nat, seen: seq<bool>, dists: seq<nat>, queue: seq<nat>, u: nat)
    requires u < |g| && Expanding(g, from, seen, dists, queue, u, |g[u]|)
    ensures Searching(g, from, seen, dists, queue)
  {
  }

  /** Fills `dists` with the distances from one vertex; what is not reached keeps its zero. */
  method InitDistancesFrom(g: Graph, from: nat, dists: array<nat>) returns (ghost seen: seq<bool>)
    requires WellFormed(g) && from < |g| == dists.Length
    requires forall v | 0 <= v < |g| :: dists[v] == 0
    modifies dists
    ensures Relaxed(g, from, seen, dists[..])
  {
    var color := new bool[|g|](_ => false);
    color[from] := true;
    var queue := [from];
    assert Steps(g, from, from, 0);
    while queue != []
      invariant Searching(g, from, color[..], dists[..], queue)
      decreases Unseen(color[..]), |queue|
    {
      StartExpanding(g, from, color[..], dists[..], queue);
      queue := Expand(g, from, color, dists, queue[1..], queue[0]);
    }
    seen := color[..];
  }

  method Expand(g: Graph, ghost from: nat, color: array<bool>, dists: array<nat>, rest: seq<nat>, u: nat)
      returns (queue: seq<nat>)
    requires WellFormed(g) && Expanding(g, from, color[..], dists[..], rest, u, 0)
    modifies color, dists
    ensures Searching(g, from, color[..], dists[..], queue)
    ensures Unseen(color[..]) < old(Unseen(color[..])) || (Unseen(color[..]) == old(Unseen(color[..])) && queue == rest)
  {
    queue := rest;
    for i := 0 to |g[u]|
      invariant Expanding(g, from, color[..], dists[..], queue, u, i)
      invariant || Unseen(color[..]) < old(Unseen(color[..]))
                || (Unseen(color[..]) == old(Unseen(color[..])) && queue == rest)
    {
      queue := Follow(g, from, color, dists, queue, u, i);
    }
    StopExpanding(g, from, color[..], dists[..], queue, u);
  }

  method Follow(g: Graph, ghost from: nat, color: array<bool>, dists: array<nat>, queue: seq<nat>, u: nat, i: nat)
      returns (longer: seq<nat>)
    requires WellFormed(g) && Expanding(g, from, color[..], dists[..], queue, u, i) && i < |g[u]|
    modifies color, dists
    ensures Expanding(g, from, color[..], dists[..], longer, u, i + 1)
    ensures || Unseen(color[..]) < old(Unseen(color[..]))
            || (Unseen(color[..]) == old(Unseen(color[..])) && longer == queue)
  {
    var v := g[u][i];
    longer := queue;
    if !color[v] {
      ghost var seen, known := color[..], dists[..];
      Discover(g, from, seen, known, queue, u, i, v);
      color[v] := true;
      dists[v] := dists[u] + 1;
      assert color[..] == seen[v := true] && dists[..] == known[v := known[u] + 1];
      longer := queue + [v];
    } else {
      DoneMore(g, color[..], dists[..], u, i);
    }
  }
}
