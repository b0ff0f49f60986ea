/** Whole runs of the fuzzer against one virgin map: what the map is after any sequence of
    executions, and how many executions can have been found interesting. */
module CoverageRuns {
  import opened Bytes
  import opened Bits
  import opened Coverage

  // Traces of one map size.
  ghost predicate Sized(n: nat, traces: seq<seq<byte>>) {
    forall i :: 0 <= i < |traces| ==> |traces[i]| == n
  }

  // The virgin map after has_new_bits() has seen each trace in turn.
  ghost function VirginAfter(start: seq<byte>, traces: seq<seq<byte>>): (v: seq<byte>)
    requires Sized(|start|, traces)
    ensures |v| == |start|
  {
    if |traces| == 0 then start
    else
      var before := traces[..|traces| - 1];
      Cleared(traces[|traces| - 1], VirginAfter(start, before))
  }

  ghost function NoveltyAt(start: seq<byte>, traces: seq<seq<byte>>, i: nat): nat
    requires Sized(|start|, traces) && i < |traces|
  {
    Novelty(traces[i], VirginAfter(start, traces[..i]))
  }

  // Every bit that some trace sets, byte by byte.
  ghost function Union(n: nat, traces: seq<seq<byte>>): (u: seq<nat>)
    requires Sized(n, traces)
    ensures |u| == n
  {
    if |traces| == 0 then seq(n, _ => 0)
    else
      var last := |traces| - 1;
      var before := Union(n, traces[..last]);
      seq(n, i requires 0 <= i < n => Or(before[i], traces[last][i]))
  }

  /** The virgin map after any run is the start map less the union of all traces. */
  lemma {:induction false} VirginIsStartLessUnion(start: seq<byte>, traces: seq<seq<byte>>)
    requires Sized(|start|, traces)
    ensures forall i :: 0 <= i < |start| ==>
              VirginAfter(start, traces)[i] == AndNot(start[i], Union(|start|, traces)[i])
  {
    if |traces| == 0 {
      forall i | 0 <= i < |start|
        ensures AndNot(start[i], 0) == start[i]
      {
        AndNotIsRest(start[i], 0);
      }
    } else {
      var last := |traces| - 1;
      VirginIsStartLessUnion(start, traces[..last]);
      forall i | 0 <= i < |start|
        ensures VirginAfter(start, traces)[i] == AndNot(start[i], Union(|start|, traces)[i])
      {
        AndNotTwice(start[i], Union(|start|, traces[..last])[i], traces[last][i]);
      }
    }
  }

  lemma {:induction false} AndNotStable(v: nat, a: nat, b: nat)
    requires And(v, a) == 0
    ensures And(AndNot(v, b), a) == 0
  {
    if v != 0 && a != 0 {
      AndNotStable(v / 2, a / 2, b / 2);
      assert And(v, a) == (if v % 2 == 1 && a % 2 == 1 then 1 else 0) + 2 * And(v / 2, a / 2);
      var x := AndNot(v, b);
      assert x % 2 == (if v % 2 == 1 && b % 2 == 0 then 1 else 0) && x / 2 == AndNot(v / 2, b / 2);
    }
  }

  lemma {:induction false} AndNotMeetsNot(v: nat, a: nat)
    ensures And(AndNot(v, a), a) == 0
  {
    if v != 0 {
      AndNotMeetsNot(v / 2, a / 2);
      var x := AndNot(v, a);
      assert x % 2 == (if v % 2 == 1 && a % 2 == 0 then 1 else 0) && x / 2 == AndNot(v / 2, a / 2);
    }
  }

  /** A trace that has been seen is never new again, whatever came in between. */
  lemma {:induction false} SeenIsNotNew(start: seq<byte>, traces: seq<seq<byte>>, i: nat)
    requires Sized(|start|, traces) && i < |traces|
    ensures Novelty(traces[i], VirginAfter(start, traces)) == 0
    decreases |traces|
  {
    var last := |traces| - 1;
    var before := VirginAfter(start, traces[..last]);
    var after := VirginAfter(start, traces);
    if i < last {
      SeenIsNotNew(start, traces[..last], i);
      NoveltyClears(traces[i], before);
    }
    forall k
      ensures !HitsAt(traces[i], after, k)
    {
      if 0 <= k < |start| {
        if i < last {
          assert !HitsAt(traces[i], before, k);
          AndNotStable(before[k], traces[i][k], traces[last][k]);
        } else {
          AndNotMeetsNot(before[k], traces[last][k]);
        }
      }
    }
    NoveltyClears(traces[i], after);
  }

  // ------------------------------------------------------------ counting

  function CountBits(m: seq<byte>): nat {
    if |m| == 0 then 0 else Pop(m[0]) + CountBits(m[1..])
  }

  function CountNon255(m: seq<byte>): (r: nat)
    ensures r <= |m|
  {
    if |m| == 0 then 0 else (if m[0] != 0xff then 1 else 0) + CountNon255(m[1..])
  }

  ghost function PristineHits(cur: seq<byte>, vir: seq<byte>): nat
    requires |cur| == |vir|
  {
    if |cur| == 0 then 0
    else (if cur[0] != 0 && vir[0] == 0xff then 1 else 0) + PristineHits(cur[1..], vir[1..])
  }

  lemma {:induction false} ClearingCountsBits(cur: seq<byte>, vir: seq<byte>)
    requires |cur| == |vir|
    ensures CountBits(Cleared(cur, vir)) + CountBits(AndBytes(vir, cur)) == CountBits(vir)
  {
    if |cur| > 0 {
      ClearingCountsBits(cur[1..], vir[1..]);
      PopSplit(vir[0], cur[0]);
      assert Cleared(cur, vir)[1..] == Cleared(cur[1..], vir[1..]);
      assert AndBytes(vir, cur)[1..] == AndBytes(vir[1..], cur[1..]);
    }
  }

  lemma {:induction false} NoBits(m: seq<byte>)
    ensures CountBits(m) == 0 <==> forall i :: 0 <= i < |m| ==> m[i] == 0
  {
    if |m| > 0 {
      PopZero(m[0]);
      NoBits(m[1..]);
      assert forall i :: 0 < i < |m| ==> m[i] == m[1..][i - 1];
      assert forall i :: 0 <= i < |m| - 1 ==> m[1..][i] == m[i + 1];
    }
  }

  lemma {:induction false} ClearingCountsPristine(cur: seq<byte>, vir: seq<byte>)
    requires |cur| == |vir|
    ensures CountNon255(Cleared(cur, vir)) == CountNon255(vir) + PristineHits(cur, vir)
  {
    if |cur| > 0 {
      ClearingCountsPristine(cur[1..], vir[1..]);
      assert Cleared(cur, vir)[1..] == Cleared(cur[1..], vir[1..]);
      AndNotIsRest(vir[0], cur[0]);
      AndOnes(cur[0], 255);
    }
  }

  lemma {:induction false} SomePristineHit(cur: seq<byte>, vir: seq<byte>)
    requires |cur| == |vir|
    ensures PristineHits(cur, vir) > 0 <==> exists i :: PristineHitAt(cur, vir, i)
  {
    if |cur| > 0 {
      SomePristineHit(cur[1..], vir[1..]);
      if cur[0] != 0 && vir[0] == 0xff {
        assert PristineHitAt(cur, vir, 0);
      }
      if i :| PristineHitAt(cur[1..], vir[1..], i) {
        assert PristineHitAt(cur, vir, i + 1);
      }
      if i :| PristineHitAt(cur, vir, i) {
        assert i == 0 || PristineHitAt(cur[1..], vir[1..], i - 1);
      }
    }
  }

  /** One call of has_new_bits(): it reports something new exactly when the bits left in the virgin
      map become fewer, and a new tuple exactly when its bytes other than 255 become more. */
  lemma NoveltyCounts(cur: seq<byte>, vir: seq<byte>)
    requires |cur| == |vir|
    ensures CountBits(Cleared(cur, vir)) <= CountBits(vir)
    ensures Novelty(cur, vir) > 0 <==> CountBits(Cleared(cur, vir)) < CountBits(vir)
    ensures CountNon255(Cleared(cur, vir)) >= CountNon255(vir)
    ensures Novelty(cur, vir) == 2 <==> CountNon255(Cleared(cur, vir)) > CountNon255(vir)
  {
    ClearingCountsBits(cur, vir);
    NoBits(AndBytes(vir, cur));
    NoveltyClears(cur, vir);
    assert forall i :: HitsAt(cur, vir, i) <==> 0 <= i < |cur| && AndBytes(vir, cur)[i] != 0;
    ClearingCountsPristine(cur, vir);
    SomePristineHit(cur, vir);
  }

  // The traces that brought something, and those that brought a new tuple: save_if_interesting()
  // keeps a regular input exactly when its novelty is not 0.
  ghost function Kept(start: seq<byte>, traces: seq<seq<byte>>): set<nat>
    requires Sized(|start|, traces)
  {
    set i: nat | i < |traces| && NoveltyAt(start, traces, i) != 0
  }

  ghost function NewTuples(start: seq<byte>, traces: seq<seq<byte>>): set<nat>
    requires Sized(|start|, traces)
  {
    set i: nat | i < |traces| && NoveltyAt(start, traces, i) == 2
  }

  lemma SameNovelty(start: seq<byte>, traces: seq<seq<byte>>, n: nat, i: nat)
    requires Sized(|start|, traces) && i < n <= |traces|
    ensures NoveltyAt(start, traces[..n], i) == NoveltyAt(start, traces, i)
  {
    assert traces[..n][..i] == traces[..i];
  }

  lemma OneMember(a: set<nat>, b: set<nat>, last: nat, more: bool)
    requires last !in a && forall i :: i in b <==> i in a || (i == last && more)
    ensures |b| == |a| + if more then 1 else 0
  {
    if more {
      assert b == a + {last};
    } else {
      assert b == a;
    }
  }

  lemma OneKeptMore(start: seq<byte>, traces: seq<seq<byte>>, last: nat)
    requires Sized(|start|, traces) && |traces| == last + 1
    ensures |Kept(start, traces)|
         == |Kept(start, traces[..last])| + if NoveltyAt(start, traces, last) != 0 then 1 else 0
  {
    forall i: nat | i < last ensures NoveltyAt(start, traces[..last], i) == NoveltyAt(start, traces, i) {
      SameNovelty(start, traces, last, i);
    }
    OneMember(Kept(start, traces[..last]), Kept(start, traces), last, NoveltyAt(start, traces, last) != 0);
  }

  lemma OneNewMore(start: seq<byte>, traces: seq<seq<byte>>, last: nat)
    requires Sized(|start|, traces) && |traces| == last + 1
    ensures |NewTuples(start, traces)|
         == |NewTuples(start, traces[..last])| + if NoveltyAt(start, traces, last) == 2 then 1 else 0
  {
    forall i: nat | i < last ensures NoveltyAt(start, traces[..last], i) == NoveltyAt(start, traces, i) {
      SameNovelty(start, traces, last, i);
    }
    OneMember(NewTuples(start, traces[..last]), NewTuples(start, traces), last, NoveltyAt(start, traces, last) == 2);
  }

  /** Over any run, the inputs kept never outnumber the bits that the start map had, less those still
      left; those with new tuples never outnumber the bytes that were still 255. */
  lemma {:induction false} FindsBounded(start: seq<byte>, traces: seq<seq<byte>>)
    requires Sized(|start|, traces)
    ensures |Kept(start, traces)| + CountBits(VirginAfter(start, traces)) <= CountBits(start)
    ensures |NewTuples(start, traces)| + CountNon255(start) <= CountNon255(VirginAfter(start, traces)) <= |start|
  {
    if |traces| > 0 {
      var last := |traces| - 1;
      FindsBounded(start, traces[..last]);
      OneKeptMore(start, traces, last);
      OneNewMore(start, traces, last);
      NoveltyCounts(traces[last], VirginAfter(start, traces[..last]));
    }
  }
}
