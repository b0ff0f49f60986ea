/** The distance of a function or basic block to the targets: a harmonic mean over the
    targets reached, the least one among the vertices a name stands for. Both versions of the
    calculator, the one on breadth-first search and the one on shortest paths, are here. */
module Distances {
  import opened Graphs
  import opened Options

  const NOTHING := -1.0

  // ---- The reference ----

  function Term(steps: nat, offset: real): (r: real)
    requires offset >= 0.0
    ensures r > 0.0
  {
    1.0 / (1.0 + offset + steps as real)
  }

  /** Over the first `k` targets that can be reached: the sum of the terms, and their number. */
  ghost function Sum(g: Graph, n: nat, targets: seq<nat>, offset: real, k: nat): real
    requires k <= |targets| && offset >= 0.0
  {
    if k == 0 then 0.0
    else
      var s := Shortest(g, n, targets[k - 1]);
      Sum(g, n, targets, offset, k - 1) + if s.Some? then Term(s.value, offset) else 0.0
  }

  ghost function Count(g: Graph, n: nat, targets: seq<nat>, k: nat): nat
    requires k <= |targets|
  {
    if k == 0 then 0
    else Count(g, n, targets, k - 1) + if Shortest(g, n, targets[k - 1]).Some? then 1 else 0
  }

  /** A basic block with a distance of its own: its name, the vertices it stands for, and it. */
  datatype Group = Group(name: string, nodes: seq<nat>, distance: real)

  predicate Nonnegative(groups: seq<Group>) {
    forall i | 0 <= i < |groups| :: groups[i].distance >= 0.0
  }

  ghost function GroupSum(g: Graph, n: nat, groups: seq<Group>, k: nat): real
    requires k <= |groups| && Nonnegative(groups)
  {
    if k == 0 then 0.0
    else
      var e := groups[k - 1];
      var c := Count(g, n, e.nodes, |e.nodes|);
      GroupSum(g, n, groups, k - 1)
      + if c != 0 then Sum(g, n, e.nodes, 10.0 * e.distance, |e.nodes|) / c as real else 0.0
  }

  ghost function GroupCount(g: Graph, n: nat, groups: seq<Group>, k: nat): nat
    requires k <= |groups|
  {
    if k == 0 then 0
    else
      GroupCount(g, n, groups, k - 1) + if Count(g, n, groups[k - 1].nodes, |groups[k - 1].nodes|) != 0 then 1 else 0
  }

  /** What distances are measured to. */
  datatype Goal = Targets(nodes: seq<nat>) | Blocks(groups: seq<Group>)

  predicate Proper(goal: Goal) {
    goal.Blocks? ==> Nonnegative(goal.groups)
  }

  predicate InGraph(goal: Goal, g: Graph) {
    match goal
    case Targets(nodes) => forall t <- nodes :: t < |g|
    case Blocks(groups) => forall e <- groups :: forall t <- e.nodes :: t < |g|
  }

  ghost function Total(g: Graph, n: nat, goal: Goal): real
    requires Proper(goal)
  {
    match goal
    case Targets(nodes) => Sum(g, n, nodes, 0.0, |nodes|)
    case Blocks(groups) => GroupSum(g, n, groups, |groups|)
  }

  ghost function Number(g: Graph, n: nat, goal: Goal): nat {
    match goal
    case Targets(nodes) => Count(g, n, nodes, |nodes|)
    case Blocks(groups) => GroupCount(g, n, groups, |groups|)
  }

  /** The harmonic mean from one vertex, if it reaches anything. */
  ghost function Mean(g: Graph, n: nat, goal: Goal): Option<real>
    requires Proper(goal)
  {
    if Number(g, n, goal) == 0 || Total(g, n, goal) == 0.0 then None
    else Some(Number(g, n, goal) as real / Total(g, n, goal))
  }

  /** The least of the means from the first `k` vertices. */
  ghost function Best(g: Graph, nodes: seq<nat>, goal: Goal, k: nat): Option<real>
    requires k <= |nodes| && Proper(goal)
  {
    if k == 0 then None
    else
      var before, here := Best(g, nodes, goal, k - 1), Mean(g, nodes[k - 1], goal);
      if here.None? || (before.Some? && before.value <= here.value) then before else here
  }

  function OrNothing(r: Option<real>): real {
    if r.Some? then r.value else NOTHING
  }

  /** The distance of its own that a name has, in a control-flow graph. */
  function InGroups(name: string, groups: seq<Group>): Option<real> {
    if groups == [] then None
    else if groups[0].name == name then Some(groups[0].distance)
    else InGroups(name, groups[1..])
  }

  function Own(name: string, goal: Goal): Option<real> {
    if goal.Blocks? then InGroups(name, goal.groups) else None
  }

  ghost function Entry(g: Graph, name: string, nodes: seq<nat>, goal: Goal): Option<real>
    requires Proper(goal)
  {
    if Own(name, goal).Some? then Some(10.0 * Own(name, goal).value) else Best(g, nodes, goal, |nodes|)
  }

  method OwnDistance(name: string, goal: Goal) returns (own: Option<real>)
    ensures own == Own(name, goal)
  {
    if goal.Targets? {
      return None;
    }
    var i := 0;
    while i < |goal.groups| && goal.groups[i].name != name
      invariant 0 <= i <= |goal.groups| && InGroups(name, goal.groups[i..]) == Own(name, goal)
    {
      i := i + 1;
    }
    own := if i < |goal.groups| then Some(goal.groups[i].distance) else None;
  }

  // ---- What the reference means ----

  lemma {:induction false} SumPositive(g: Graph, n: nat, targets: seq<nat>, offset: real, k: nat)
    requires k <= |targets| && offset >= 0.0
    ensures Sum(g, n, targets, offset, k) >= 0.0
    ensures Sum(g, n, targets, offset, k) == 0.0 <==> Count(g, n, targets, k) == 0
  {
    if k > 0 {
      SumPositive(g, n, targets, offset, k - 1);
    }
  }

  lemma {:induction false} GroupSumPositive(g: Graph, n: nat, groups: seq<Group>, k: nat)
    requires k <= |groups| && Nonnegative(groups)
    ensures GroupSum(g, n, groups, k) >= 0.0
    ensures GroupSum(g, n, groups, k) == 0.0 <==> GroupCount(g, n, groups, k) == 0
  {
    if k > 0 {
      GroupSumPositive(g, n, groups, k - 1);
      var e := groups[k - 1];
      SumPositive(g, n, e.nodes, 10.0 * e.distance, |e.nodes|);
    }
  }

  lemma TotalPositive(g: Graph, n: nat, goal: Goal)
    requires Proper(goal)
    ensures Total(g, n, goal) >= 0.0 && (Total(g, n, goal) == 0.0 <==> Number(g, n, goal) == 0)
  {
    match goal
    case Targets(nodes) => SumPositive(g, n, nodes, 0.0, |nodes|);
    case Blocks(groups) => GroupSumPositive(g, n, groups, |groups|);
  }

  /** All vertices reached count as something within these bounds. */
  ghost predicate Reach(g: Graph, n: nat, nodes: seq<nat>, offset: real, lo: real, hi: real) {
    forall t <- nodes | Shortest(g, n, t).Some? :: lo <= 1.0 + offset + Shortest(g, n, t).value as real <= hi
  }

  lemma TermWithin(s: nat, offset: real, lo: real, hi: real)
    requires offset >= 0.0 && lo <= 1.0 + offset + s as real <= hi
    ensures lo * Term(s, offset) <= 1.0 <= hi * Term(s, offset)
  {
    var t, d := Term(s, offset), 1.0 + offset + s as real;
    assert d * t == 1.0;
    TimesMonotone(t, lo, d);
    TimesMonotone(t, d, hi);
  }

  lemma TimesMonotone(t: real, a: real, b: real)
    requires t > 0.0 && a <= b
    ensures a * t <= b * t
  {
  }

  /** A count and a sum whose quotient lies between `l` and `h`. */
  ghost predicate Between(l: real, h: real, sum: real, c: real) {
    forall k | SeeBounds(k) :: l * sum <= c <= h * sum
  }

  predicate SeeBounds(k: int) { k == 0 }

  lemma BetweenMore(l: real, h: real, sum: real, c: real, t: real)
    requires Between(l, h, sum, c) && l * t <= 1.0 <= h * t
    ensures Between(l, h, sum + t, c + 1.0)
  {
    assert SeeBounds(0);
    assert l * (sum + t) == l * sum + l * t && h * (sum + t) == h * sum + h * t;
  }

  lemma {:induction false} SumWithin(g: Graph, n: nat, nodes: seq<nat>, offset: real, k: nat, lo: real, hi: real)
    requires k <= |nodes| && offset >= 0.0 && Reach(g, n, nodes, offset, lo, hi)
    ensures Between(lo, hi, Sum(g, n, nodes, offset, k), Count(g, n, nodes, k) as real)
  {
    if k > 0 {
      SumWithin(g, n, nodes, offset, k - 1, lo, hi);
      var s := Shortest(g, n, nodes[k - 1]);
      if s.Some? {
        assert nodes[k - 1] in nodes;
        TermWithin(s.value, offset, lo, hi);
        BetweenMore(lo, hi, Sum(g, n, nodes, offset, k - 1), Count(g, n, nodes, k - 1) as real, Term(s.value, offset));
      }
    }
  }

  ghost predicate AllReach(g: Graph, n: nat, groups: seq<Group>, lo: real, hi: real) {
    forall e <- groups :: Reach(g, n, e.nodes, 10.0 * e.distance, lo, hi)
  }

  lemma AverageWithin(sum: real, c: nat, lo: real, hi: real)
    requires c > 0 && Between(lo, hi, sum, c as real)
    ensures lo * (sum / c as real) <= 1.0 <= hi * (sum / c as real)
  {
    assert SeeBounds(0);
    var q := sum / c as real;
    assert q * c as real == sum;
    Regroup(lo, q, c as real);
    Regroup(hi, q, c as real);
    CancelsBelow(lo * q, 1.0, c as real);
    CancelsBelow(1.0, hi * q, c as real);
  }

  lemma Regroup(a: real, b: real, c: real)
    ensures a * (b * c) == a * b * c
  {
  }

  lemma CancelsBelow(a: real, b: real, c: real)
    requires c > 0.0 && a * c <= b * c
    ensures a <= b
  {
    if a > b {
      TimesBelow(c, b, a);
      assert false;
    }
  }

  lemma {:induction false} GroupSumWithin(g: Graph, n: nat, groups: seq<Group>, k: nat, lo: real, hi: real)
    requires k <= |groups| && Nonnegative(groups) && AllReach(g, n, groups, lo, hi)
    ensures Between(lo, hi, GroupSum(g, n, groups, k), GroupCount(g, n, groups, k) as real)
  {
    if k > 0 {
      GroupSumWithin(g, n, groups, k - 1, lo, hi);
      var e := groups[k - 1];
      var c := Count(g, n, e.nodes, |e.nodes|);
      if c != 0 {
        assert e in groups;
        SumWithin(g, n, e.nodes, 10.0 * e.distance, |e.nodes|, lo, hi);
        var sum := Sum(g, n, e.nodes, 10.0 * e.distance, |e.nodes|);
        AverageWithin(sum, c, lo, hi);
        BetweenMore(lo, hi, GroupSum(g, n, groups, k - 1), GroupCount(g, n, groups, k - 1) as real, sum / c as real);
      }
    }
  }

  lemma QuotientWithin(c: real, sum: real, lo: real, hi: real)
    requires sum > 0.0 && Between(lo, hi, sum, c)
    ensures lo <= c / sum <= hi
  {
    assert SeeBounds(0);
    var q := c / sum;
    assert q * sum == c;
    if q < lo {
      assert false by { TimesBelow(sum, q, lo); }
    }
    if hi < q {
      assert false by { TimesBelow(sum, hi, q); }
    }
  }

  lemma TimesBelow(t: real, a: real, b: real)
    requires t > 0.0 && a < b
    ensures a * t < b * t
  {
  }

  /** In a call graph the mean lies between one more than the least and one more than the
      greatest distance of the targets reached. */
  lemma MeanWithin(g: Graph, n: nat, targets: seq<nat>, lo: nat, hi: nat)
    requires forall t <- targets | Shortest(g, n, t).Some? :: lo <= Shortest(g, n, t).value <= hi
    requires lo <= hi && Mean(g, n, Targets(targets)).Some?
    ensures 1.0 + lo as real <= Mean(g, n, Targets(targets)).value <= 1.0 + hi as real
  {
    var c, sum := Count(g, n, targets, |targets|), Sum(g, n, targets, 0.0, |targets|);
    SumPositive(g, n, targets, 0.0, |targets|);
    SumWithin(g, n, targets, 0.0, |targets|, 1.0 + lo as real, 1.0 + hi as real);
    QuotientWithin(c as real, sum, 1.0 + lo as real, 1.0 + hi as real);
  }

  /** In a control-flow graph it lies between the bounds of what the vertices reached count as: one
      more than the steps to them and ten times the distance of the block they stand for. */
  lemma BlockMeanWithin(g: Graph, n: nat, groups: seq<Group>, lo: real, hi: real)
    requires Nonnegative(groups) && Mean(g, n, Blocks(groups)).Some?
    requires forall e <- groups, t <- e.nodes | Shortest(g, n, t).Some? ::
               lo <= 1.0 + 10.0 * e.distance + Shortest(g, n, t).value as real <= hi
    ensures lo <= Mean(g, n, Blocks(groups)).value <= hi
  {
    forall e <- groups ensures Reach(g, n, e.nodes, 10.0 * e.distance, lo, hi) {
    }
    GroupSumPositive(g, n, groups, |groups|);
    GroupSumWithin(g, n, groups, |groups|, lo, hi);
    QuotientWithin(GroupCount(g, n, groups, |groups|) as real, GroupSum(g, n, groups, |groups|), lo, hi);
  }

  // ---- Which mean it is ----

  /** The mean over some vertices that share an offset. */
  ghost function MeanOf(g: Graph, n: nat, nodes: seq<nat>, offset: real): Option<real>
    requires offset >= 0.0
  {
    var c, sum := Count(g, n, nodes, |nodes|), Sum(g, n, nodes, offset, |nodes|);
    if c == 0 || sum == 0.0 then None else Some(c as real / sum)
  }

  ghost predicate Reaches(g: Graph, n: nat, nodes: seq<nat>, i: nat) {
    i < |nodes| && Shortest(g, n, nodes[i]).Some?
  }

  /** How many of the vertices are reached. */
  ghost function Reached(g: Graph, n: nat, nodes: seq<nat>, k: nat): set<nat> {
    set i: nat | i < k && Reaches(g, n, nodes, i)
  }

  lemma {:induction false} CountIsReached(g: Graph, n: nat, nodes: seq<nat>, k: nat)
    requires k <= |nodes|
    ensures Count(g, n, nodes, k) == |Reached(g, n, nodes, k)|
  {
    if k == 0 {
      assert Reached(g, n, nodes, 0) == {};
    } else {
      CountIsReached(g, n, nodes, k - 1);
      OneReachedMore(g, n, nodes, k - 1);
    }
  }

  lemma OneReachedMore(g: Graph, n: nat, nodes: seq<nat>, k: nat)
    ensures |Reached(g, n, nodes, k + 1)| == |Reached(g, n, nodes, k)| + if Reaches(g, n, nodes, k) then 1 else 0
  {
    var before, after := Reached(g, n, nodes, k), Reached(g, n, nodes, k + 1);
    if Reaches(g, n, nodes, k) {
      assert after == before + {k};
    } else {
      assert after == before;
    }
  }

  lemma {:induction false} SumOfFront(g: Graph, n: nat, a: seq<nat>, b: seq<nat>, offset: real, k: nat)
    requires k <= |a| && offset >= 0.0
    ensures Sum(g, n, a + b, offset, k) == Sum(g, n, a, offset, k) && Count(g, n, a + b, k) == Count(g, n, a, k)
  {
    if k > 0 {
      SumOfFront(g, n, a, b, offset, k - 1);
    }
  }

  lemma {:induction false} SumOfBoth(g: Graph, n: nat, a: seq<nat>, b: seq<nat>, offset: real, k: nat)
    requires k <= |b| && offset >= 0.0
    ensures Sum(g, n, a + b, offset, |a| + k) == Sum(g, n, a, offset, |a|) + Sum(g, n, b, offset, k)
    ensures Count(g, n, a + b, |a| + k) == Count(g, n, a, |a|) + Count(g, n, b, k)
  {
    if k == 0 {
      SumOfFront(g, n, a, b, offset, |a|);
    } else {
      SumOfBoth(g, n, a, b, offset, k - 1);
      assert (a + b)[|a| + k - 1] == b[k - 1];
    }
  }

  lemma TurnedOver(c: real, sum: real)
    requires c > 0.0 && sum > 0.0
    ensures c / (c / sum) == sum
  {
    var q := c / sum;
    assert q * sum == c;
    assert q > 0.0;
    Cancels(q, sum, c);
  }

  lemma Cancels(q: real, sum: real, c: real)
    requires q > 0.0 && q * sum == c
    ensures c / q == sum
  {
  }

  /** A harmonic mean: over one vertex it is one more than the steps to it and the offset; and over
      more vertices, the numbers reached divided by their means add up. */
  lemma HarmonicMean(g: Graph, n: nat, t: nat, a: seq<nat>, b: seq<nat>, offset: real)
    requires offset >= 0.0
    ensures MeanOf(g, n, [t], offset)
         == if Shortest(g, n, t).None? then None else Some(1.0 + offset + Shortest(g, n, t).value as real)
    ensures MeanOf(g, n, a, offset).None? ==> MeanOf(g, n, a + b, offset) == MeanOf(g, n, b, offset)
    ensures MeanOf(g, n, b, offset).None? ==> MeanOf(g, n, a + b, offset) == MeanOf(g, n, a, offset)
    ensures var p, q, m := MeanOf(g, n, a, offset), MeanOf(g, n, b, offset), MeanOf(g, n, a + b, offset);
            var c, d := |Reached(g, n, a, |a|)| as real, |Reached(g, n, b, |b|)| as real;
            p.Some? && q.Some? ==>
              m.Some? && m.value > 0.0 && p.value > 0.0 && q.value > 0.0
              && (c + d) / m.value == c / p.value + d / q.value
  {
    SingleMean(g, n, t, offset);
    SumOfBoth(g, n, a, b, offset, |b|);
    CountIsReached(g, n, a, |a|);
    CountIsReached(g, n, b, |b|);
    MeanTurned(g, n, a, offset);
    MeanTurned(g, n, b, offset);
    MeanTurned(g, n, a + b, offset);
  }

  lemma SingleMean(g: Graph, n: nat, t: nat, offset: real)
    requires offset >= 0.0
    ensures MeanOf(g, n, [t], offset)
         == if Shortest(g, n, t).None? then None else Some(1.0 + offset + Shortest(g, n, t).value as real)
  {
    var k := 0;
    assert Sum(g, n, [t], offset, k) == 0.0 && Count(g, n, [t], k) == 0;
    if Shortest(g, n, t).Some? {
      var d := 1.0 + offset + Shortest(g, n, t).value as real;
      assert Sum(g, n, [t], offset, k + 1) == 0.0 + 1.0 / d && Count(g, n, [t], k + 1) == 1;
      TurnedOver(1.0, d);
    }
  }

  lemma MeanTurned(g: Graph, n: nat, nodes: seq<nat>, offset: real)
    requires offset >= 0.0
    ensures var c, sum := Count(g, n, nodes, |nodes|), Sum(g, n, nodes, offset, |nodes|);
            var m := MeanOf(g, n, nodes, offset);
            if m.None? then c == 0 && sum == 0.0 else m.value > 0.0 && c as real / m.value == sum
  {
    var c, sum := Count(g, n, nodes, |nodes|), Sum(g, n, nodes, offset, |nodes|);
    SumPositive(g, n, nodes, offset, |nodes|);
    if c > 0 {
      TurnedOver(c as real, sum);
    }
  }

  /** In a call graph it is the mean over the targets; in a control-flow graph with one block, the
      mean over its vertices with ten times the block's distance as the offset. */
  lemma MeansAre(g: Graph, n: nat, nodes: seq<nat>, e: Group)
    requires e.distance >= 0.0
    ensures Mean(g, n, Targets(nodes)) == MeanOf(g, n, nodes, 0.0)
    ensures Mean(g, n, Blocks([e])) == MeanOf(g, n, e.nodes, 10.0 * e.distance)
  {
    var c, sum := Count(g, n, e.nodes, |e.nodes|), Sum(g, n, e.nodes, 10.0 * e.distance, |e.nodes|);
    var k := 0;
    SumPositive(g, n, e.nodes, 10.0 * e.distance, |e.nodes|);
    assert GroupSum(g, n, [e], k) == 0.0 && GroupCount(g, n, [e], k) == 0;
    if c != 0 {
      assert GroupSum(g, n, [e], k + 1) == 0.0 + sum / c as real && GroupCount(g, n, [e], k + 1) == 1;
      OneOver(c as real, sum);
    }
  }

  lemma OneOver(c: real, sum: real)
    requires c > 0.0 && sum > 0.0
    ensures sum / c > 0.0 && 1.0 / (sum / c) == c / sum
  {
    var r := c / sum;
    var y := 1.0 / r;
    TurnedOver(c, sum);
    OverIsTimes(c, r, y);
    Cancels(c, y, c * y);
    TurnedOver(1.0, r);
  }

  lemma OverIsTimes(c: real, r: real, y: real)
    requires r > 0.0 && y == 1.0 / r
    ensures c / r == c * y
  {
    Substituted(c, r, y);
    Cancels(r, c * y, c);
  }

  lemma Substituted(c: real, r: real, y: real)
    requires r > 0.0 && y == 1.0 / r
    ensures r * (c * y) == c
  {
    assert r * y == 1.0;
  }

  /** Several blocks: each block reached counts once, with its own mean. */
  lemma BlockMeans(g: Graph, n: nat, a: seq<Group>, b: seq<Group>)
    requires Nonnegative(a) && Nonnegative(b)
    ensures Nonnegative(a + b)
    ensures Mean(g, n, Blocks(a)).None? ==> Mean(g, n, Blocks(a + b)) == Mean(g, n, Blocks(b))
    ensures Mean(g, n, Blocks(b)).None? ==> Mean(g, n, Blocks(a + b)) == Mean(g, n, Blocks(a))
    ensures var p, q, m := Mean(g, n, Blocks(a)), Mean(g, n, Blocks(b)), Mean(g, n, Blocks(a + b));
            var c, d := |BlocksReached(g, n, a, |a|)| as real, |BlocksReached(g, n, b, |b|)| as real;
            p.Some? && q.Some? ==>
              m.Some? && m.value > 0.0 && p.value > 0.0 && q.value > 0.0
              && (c + d) / m.value == c / p.value + d / q.value
  {
    GroupSumOfBoth(g, n, a, b, |b|);
    GroupCountIsReached(g, n, a, |a|);
    GroupCountIsReached(g, n, b, |b|);
    BlockMeanTurned(g, n, a);
    BlockMeanTurned(g, n, b);
    BlockMeanTurned(g, n, a + b);
  }

  ghost predicate BlockReached(g: Graph, n: nat, groups: seq<Group>, i: nat) {
    i < |groups| && exists t <- groups[i].nodes :: Shortest(g, n, t).Some?
  }

  ghost function BlocksReached(g: Graph, n: nat, groups: seq<Group>, k: nat): set<nat> {
    set i: nat | i < k && BlockReached(g, n, groups, i)
  }

  lemma {:induction false} GroupCountIsReached(g: Graph, n: nat, groups: seq<Group>, k: nat)
    requires k <= |groups|
    ensures GroupCount(g, n, groups, k) == |BlocksReached(g, n, groups, k)|
  {
    if k == 0 {
      assert BlocksReached(g, n, groups, 0) == {};
    } else {
      GroupCountIsReached(g, n, groups, k - 1);
      CountsReached(g, n, groups[k - 1].nodes, |groups[k - 1].nodes|);
      OneBlockMore(g, n, groups, k - 1);
    }
  }

  lemma OneBlockMore(g: Graph, n: nat, groups: seq<Group>, k: nat)
    ensures |BlocksReached(g, n, groups, k + 1)|
         == |BlocksReached(g, n, groups, k)| + if BlockReached(g, n, groups, k) then 1 else 0
  {
    var before, after := BlocksReached(g, n, groups, k), BlocksReached(g, n, groups, k + 1);
    if BlockReached(g, n, groups, k) {
      assert after == before + {k};
    } else {
      assert after == before;
    }
  }

  lemma {:induction false} GroupSumOfFront(g: Graph, n: nat, a: seq<Group>, b: seq<Group>, k: nat)
    requires k <= |a| && Nonnegative(a) && Nonnegative(a + b)
    ensures GroupSum(g, n, a + b, k) == GroupSum(g, n, a, k) && GroupCount(g, n, a + b, k) == GroupCount(g, n, a, k)
  {
    if k > 0 {
      GroupSumOfFront(g, n, a, b, k - 1);
      assert (a + b)[k - 1] == a[k - 1];
    }
  }

  lemma {:induction false} GroupSumOfBoth(g: Graph, n: nat, a: seq<Group>, b: seq<Group>, k: nat)
    requires k <= |b| && Nonnegative(a) && Nonnegative(b)
    ensures Nonnegative(a + b)
    ensures GroupSum(g, n, a + b, |a| + k) == GroupSum(g, n, a, |a|) + GroupSum(g, n, b, k)
    ensures GroupCount(g, n, a + b, |a| + k) == GroupCount(g, n, a, |a|) + GroupCount(g, n, b, k)
  {
    if k == 0 {
      GroupSumOfFront(g, n, a, b, |a|);
    } else {
      GroupSumOfBoth(g, n, a, b, k - 1);
      assert (a + b)[|a| + k - 1] == b[k - 1];
    }
  }

  lemma BlockMeanTurned(g: Graph, n: nat, groups: seq<Group>)
    requires Nonnegative(groups)
    ensures var c, sum := GroupCount(g, n, groups, |groups|), GroupSum(g, n, groups, |groups|);
            var m := Mean(g, n, Blocks(groups));
            if m.None? then c == 0 && sum == 0.0 else m.value > 0.0 && c as real / m.value == sum
  {
    var c, sum := GroupCount(g, n, groups, |groups|), GroupSum(g, n, groups, |groups|);
    GroupSumPositive(g, n, groups, |groups|);
    if c > 0 {
      TurnedOver(c as real, sum);
    }
  }

  /** A mean is missing exactly when no target is reached. */
  lemma MeanExists(g: Graph, n: nat, goal: Goal)
    requires Proper(goal)
    ensures Mean(g, n, goal).Some? <==> Number(g, n, goal) > 0
    ensures Mean(g, n, goal).Some? ==> Mean(g, n, goal).value > 0.0
  {
    TotalPositive(g, n, goal);
  }

  /** The result is the mean from one of the vertices, and from none is it less. */
  lemma {:induction false} BestIsLeast(g: Graph, nodes: seq<nat>, goal: Goal, k: nat)
    requires k <= |nodes| && Proper(goal)
    ensures Best(g, nodes, goal, k).None? <==> forall j | 0 <= j < k :: Mean(g, nodes[j], goal).None?
    ensures Best(g, nodes, goal, k).Some? ==>
              && (exists j | 0 <= j < k :: Mean(g, nodes[j], goal) == Best(g, nodes, goal, k))
              && (forall j | 0 <= j < k && Mean(g, nodes[j], goal).Some? ::
                    Best(g, nodes, goal, k).value <= Mean(g, nodes[j], goal).value)
  {
    if k > 0 {
      BestIsLeast(g, nodes, goal, k - 1);
      if Best(g, nodes, goal, k) == Mean(g, nodes[k - 1], goal) && Mean(g, nodes[k - 1], goal).Some? {
        assert 0 <= k - 1 < k;
      }
    }
  }

  // ---- The version on breadth-first search ----

  /** The targets reached, by the search's distances: zero elsewhere than at the start means
      not reached. */
  method SearchedSum(g: Graph, n: nat, dists: array<nat>, targets: seq<nat>, offset: real, ghost seen: seq<bool>)
      returns (d: real, i: nat)
    requires offset >= 0.0 && dists.Length == |g| && Relaxed(g, n, seen, dists[..])
    requires forall t <- targets :: t < |g|
    ensures d == Sum(g, n, targets, offset, |targets|) && i == Count(g, n, targets, |targets|)
  {
    d, i := 0.0, 0;
    for k := 0 to |targets|
      invariant d == Sum(g, n, targets, offset, k) && i == Count(g, n, targets, k)
    {
      var t := targets[k];
      assert t in targets;
      ZeroMeansUnreachable(g, n, seen, dists[..], t);
      RelaxedIsExact(g, n, seen, dists[..], t);
      if dists[t] == 0 && n != t {
        continue;
      }
      d := d + Term(dists[t], offset);
      i := i + 1;
    }
  }

  method SearchedTotal(g: Graph, n: nat, dists: array<nat>, goal: Goal, ghost seen: seq<bool>) returns (d: real, i: nat)
    requires Proper(goal) && InGraph(goal, g) && dists.Length == |g| && Relaxed(g, n, seen, dists[..])
    ensures d == Total(g, n, goal) && i == Number(g, n, goal)
  {
    match goal
    case Targets(nodes) => d, i := SearchedSum(g, n, dists, nodes, 0.0, seen);
    case Blocks(groups) =>
      d, i := 0.0, 0;
      for k := 0 to |groups|
        invariant d == GroupSum(g, n, groups, k) && i == GroupCount(g, n, groups, k)
      {
        assert groups[k] in groups;
        var di, ii := SearchedSum(g, n, dists, groups[k].nodes, 10.0 * groups[k].distance, seen);
        if ii != 0 {
          d := d + di / ii as real;
          i := i + 1;
        }
      }
  }

  method SearchedDistance(g: Graph, nodes: seq<nat>, goal: Goal) returns (distance: real)
    requires WellFormed(g) && Proper(goal) && InGraph(goal, g) && forall n <- nodes :: n < |g|
    ensures distance == OrNothing(Best(g, nodes, goal, |nodes|))
  {
    distance := NOTHING;
    for k := 0 to |nodes|
      invariant distance == OrNothing(Best(g, nodes, goal, k))
    {
      var n := nodes[k];
      assert n in nodes;
      var dists := new nat[|g|](_ => 0);
      var seen := InitDistancesFrom(g, n, dists);
      var d, i := SearchedTotal(g, n, dists, goal, seen);
      distance := Improved(g, nodes, goal, k, distance, d, i);
    }
  }

  /** What is written for a name: a block with a distance of its own gets ten times that. */
  method SearchedEntry(g: Graph, name: string, nodes: seq<nat>, goal: Goal) returns (written: Option<real>)
    requires WellFormed(g) && Proper(goal) && InGraph(goal, g) && forall n <- nodes :: n < |g|
    ensures written == Entry(g, name, nodes, goal)
  {
    var own := OwnDistance(name, goal);
    if own.Some? {
      return Some(10.0 * own.value);
    }
    var distance := SearchedDistance(g, nodes, goal);
    BestPositive(g, nodes, goal, |nodes|);
    written := if distance != NOTHING then Some(distance) else None;
  }

  /** The last lines of either loop. */
  method Improved(ghost g: Graph, ghost nodes: seq<nat>, ghost goal: Goal, ghost k: nat,
                  distance: real, d: real, i: nat) returns (better: real)
    requires Proper(goal) && k < |nodes| && distance == OrNothing(Best(g, nodes, goal, k))
    requires d == Total(g, nodes[k], goal) && i == Number(g, nodes[k], goal)
    ensures better == OrNothing(Best(g, nodes, goal, k + 1))
  {
    TotalPositive(g, nodes[k], goal);
    BestPositive(g, nodes, goal, k);
    better := distance;
    if d != 0.0 && (distance == NOTHING || distance > i as real / d) {
      better := i as real / d;
    }
  }

  lemma BestPositive(g: Graph, nodes: seq<nat>, goal: Goal, k: nat)
    requires k <= |nodes| && Proper(goal)
    ensures Best(g, nodes, goal, k).Some? ==> Best(g, nodes, goal, k).value > 0.0
  {
    BestIsLeast(g, nodes, goal, k);
    if Best(g, nodes, goal, k).Some? {
      var j :| 0 <= j < k && Mean(g, nodes[j], goal) == Best(g, nodes, goal, k);
      MeanExists(g, nodes[j], goal);
    }
  }

  // ---- The version on shortest paths ----

  /** A library's shortest path: its length, or an exception where there is none. */
  ghost predicate IsLibrary(g: Graph, shortest: (nat, nat) -> Option<nat>) {
    forall u, v :: shortest(u, v) == Shortest(g, u, v)
  }

  method LibrarySum(ghost g: Graph, n: nat, shortest: (nat, nat) -> Option<nat>, targets: seq<nat>, offset: real)
      returns (d: real, i: nat)
    requires offset >= 0.0 && IsLibrary(g, shortest)
    ensures d == Sum(g, n, targets, offset, |targets|) && i == Count(g, n, targets, |targets|)
  {
    d, i := 0.0, 0;
    for k := 0 to |targets|
      invariant d == Sum(g, n, targets, offset, k) && i == Count(g, n, targets, k)
    {
      match shortest(n, targets[k])
      case Some(s) =>
        d := d + Term(s, offset);
        i := i + 1;
      case None =>
    }
  }

  method LibraryTotal(ghost g: Graph, n: nat, shortest: (nat, nat) -> Option<nat>, goal: Goal) returns (d: real, i: nat)
    requires Proper(goal) && IsLibrary(g, shortest)
    ensures d == Total(g, n, goal) && i == Number(g, n, goal)
  {
    match goal
    case Targets(nodes) => d, i := LibrarySum(g, n, shortest, nodes, 0.0);
    case Blocks(groups) =>
      d, i := 0.0, 0;
      for k := 0 to |groups|
        invariant d == GroupSum(g, n, groups, k) && i == GroupCount(g, n, groups, k)
      {
        var di, ii := LibrarySum(g, n, shortest, groups[k].nodes, 10.0 * groups[k].distance);
        if ii != 0 {
          d := d + di / ii as real;
          i := i + 1;
        }
      }
  }

  method LibraryDistance(ghost g: Graph, shortest: (nat, nat) -> Option<nat>, nodes: seq<nat>, goal: Goal)
      returns (distance: real)
    requires Proper(goal) && IsLibrary(g, shortest)
    ensures distance == OrNothing(Best(g, nodes, goal, |nodes|))
  {
    distance := NOTHING;
    for k := 0 to |nodes|
      invariant distance == OrNothing(Best(g, nodes, goal, k))
    {
      var d, i := LibraryTotal(g, nodes[k], shortest, goal);
      distance := Improved(g, nodes, goal, k, distance, d, i);
    }
  }

  method LibraryEntry(ghost g: Graph, shortest: (nat, nat) -> Option<nat>, name: string, nodes: seq<nat>, goal: Goal)
      returns (written: Option<real>)
    requires Proper(goal) && IsLibrary(g, shortest)
    ensures written == Entry(g, name, nodes, goal)
  {
    var own := OwnDistance(name, goal);
    if own.Some? {
      return Some(10.0 * own.value);
    }
    var distance := LibraryDistance(g, shortest, nodes, goal);
    BestPositive(g, nodes, goal, |nodes|);
    written := if distance != NOTHING then Some(distance) else None;
  }

  // ---- What is written ----

  /** Nothing is written for a name exactly if it has no distance of its own and none of its
      vertices reaches anything; what is written is never negative, and zero exactly for a block
      whose own distance is zero. */
  lemma EntryExists(g: Graph, name: string, nodes: seq<nat>, goal: Goal)
    requires Proper(goal)
    ensures Entry(g, name, nodes, goal).None? <==>
            Own(name, goal).None? && forall j | 0 <= j < |nodes| :: Number(g, nodes[j], goal) == 0
    ensures Entry(g, name, nodes, goal).Some? ==>
              && Entry(g, name, nodes, goal).value >= 0.0
              && (Own(name, goal).Some? ==> Entry(g, name, nodes, goal).value == 10.0 * Own(name, goal).value)
              && (Entry(g, name, nodes, goal).value == 0.0 <==> Own(name, goal) == Some(0.0))
  {
    OwnIsNonnegative(name, goal);
    BestIsLeast(g, nodes, goal, |nodes|);
    BestPositive(g, nodes, goal, |nodes|);
    forall j | 0 <= j < |nodes| ensures Mean(g, nodes[j], goal).None? <==> Number(g, nodes[j], goal) == 0 {
      MeanExists(g, nodes[j], goal);
    }
  }

  lemma OwnIsNonnegative(name: string, goal: Goal)
    requires Proper(goal)
    ensures Own(name, goal).Some? ==> Own(name, goal).value >= 0.0
  {
    if goal.Blocks? {
      FoundInGroups(name, goal.groups);
    }
  }

  lemma {:induction false} FoundInGroups(name: string, groups: seq<Group>)
    ensures InGroups(name, groups).None? <==> forall e <- groups :: e.name != name
    ensures InGroups(name, groups).Some? ==>
              exists e <- groups :: e.name == name && InGroups(name, groups) == Some(e.distance)
  {
    if groups != [] && groups[0].name != name {
      FoundInGroups(name, groups[1..]);
      assert groups == [groups[0]] + groups[1..];
    }
  }

  /** What is written for a call graph: nothing exactly when no vertex of that name reaches a
      target; otherwise a mean between the bounds of the vertex it is taken from. */
  lemma CallGraphDistance(g: Graph, nodes: seq<nat>, targets: seq<nat>, lo: nat, hi: nat)
    requires lo <= hi
    requires forall n <- nodes, t <- targets | Shortest(g, n, t).Some? :: lo <= Shortest(g, n, t).value <= hi
    ensures var r := OrNothing(Best(g, nodes, Targets(targets), |nodes|));
            if r == -1.0 then forall n <- nodes, t <- targets :: Shortest(g, n, t).None?
            else (exists n <- nodes, t <- targets :: Shortest(g, n, t).Some?)
                 && 1.0 + lo as real <= r <= 1.0 + hi as real
  {
    var goal := Targets(targets);
    BestIsLeast(g, nodes, goal, |nodes|);
    BestPositive(g, nodes, goal, |nodes|);
    if Best(g, nodes, goal, |nodes|).Some? {
      var j :| 0 <= j < |nodes| && Mean(g, nodes[j], goal) == Best(g, nodes, goal, |nodes|);
      MeanWithin(g, nodes[j], targets, lo, hi);
      CountsReached(g, nodes[j], targets, |targets|);
    } else {
      forall n <- nodes, t <- targets ensures Shortest(g, n, t).None? {
        MeanExists(g, n, goal);
        CountsReached(g, n, targets, |targets|);
      }
    }
  }

  lemma {:induction false} CountsReached(g: Graph, n: nat, targets: seq<nat>, k: nat)
    requires k <= |targets|
    ensures Count(g, n, targets, k) > 0 <==> exists t <- targets[..k] :: Shortest(g, n, t).Some?
    ensures k == |targets| ==> (Count(g, n, targets, k) > 0 <==> exists t <- targets :: Shortest(g, n, t).Some?)
  {
    if k > 0 {
      CountsReached(g, n, targets, k - 1);
      assert targets[..k] == targets[..k - 1] + [targets[k - 1]];
    }
    assert targets[..|targets|] == targets;
  }
}
