/** Dictionary tokens in the deterministic stages: written over the input, and inserted. */
module Extras {
  import opened Bytes
  import opened Constants
  import opened Stages

  predicate Ascending(tokens: seq<seq<byte>>) {
    forall a, b | 0 <= a < b < |tokens| :: |tokens[a]| <= |tokens[b]|
  }

  /** Whether any flag is set for the blocks a token would touch. */
  predicate Spans(eff: seq<bool>, i: nat, n: nat) {
    exists j | i / 8 <= j <= (i + n - 1) / 8 && 0 <= j < |eff| :: eff[j]
  }

  /** What the stage is given: the input, its effector map, the tokens, and for each offset
      and token whether a token list that is too long lets it through. */
  datatype Setup = Setup(input: seq<byte>, eff: seq<bool>, tokens: seq<seq<byte>>, lucky: (nat, nat) -> bool)

  predicate Proper(u: Setup) {
    Ascending(u.tokens) && forall t <- u.tokens :: t != []
  }

  predicate Eligible(u: Setup, i: nat, k: nat)
    requires k < |u.tokens|
  {
    u.lucky(i, k) && i + |u.tokens[k]| <= |u.input| && Spans(u.eff, i, |u.tokens[k]|)
  }

  /** The buffer at offset `i` once the first `k` tokens were dealt with. */
  function Current(u: Setup, i: nat, k: nat): seq<byte>
    requires k <= |u.tokens|
  {
    if k > 0 && Eligible(u, i, k - 1) then Write(u.input, i, u.tokens[k - 1])
    else if k > 0 then Current(u, i, k - 1)
    else u.input
  }

  /** The runs at offset `i`: a token is run unless its buffer is there already. */
  function RunsAt(u: Setup, i: nat, k: nat): seq<seq<byte>>
    requires k <= |u.tokens|
  {
    if k == 0 then []
    else if Current(u, i, k) == Current(u, i, k - 1) then RunsAt(u, i, k - 1)
    else RunsAt(u, i, k - 1) + [Current(u, i, k)]
  }

  function OverwriteRuns(u: Setup, i: nat): seq<seq<byte>> {
    if i == 0 then [] else OverwriteRuns(u, i - 1) + RunsAt(u, i - 1, |u.tokens|)
  }

  // ---- What is run ----

  ghost predicate IsOneWrite(u: Setup, i: nat, r: seq<byte>) {
    exists k :: 0 <= k < |u.tokens| && Eligible(u, i, k) && r == Write(u.input, i, u.tokens[k])
  }

  /** Every run is the input with exactly one token written over it. */
  lemma {:induction false} RunsAreOneWrites(u: Setup, i: nat, k: nat)
    requires k <= |u.tokens|
    ensures forall r <- RunsAt(u, i, k) :: IsOneWrite(u, i, r)
  {
    if k > 0 {
      RunsAreOneWrites(u, i, k - 1);
    }
  }

  /** Every eligible token that changes the input is run. */
  lemma {:induction false} EligibleIsRun(u: Setup, i: nat, k: nat, j: nat)
    requires j < k <= |u.tokens| && Eligible(u, i, j) && Write(u.input, i, u.tokens[j]) != u.input
    ensures Write(u.input, i, u.tokens[j]) in RunsAt(u, i, k)
  {
    if j < k - 1 {
      EligibleIsRun(u, i, k - 1, j);
    } else if Current(u, i, k) == Current(u, i, k - 1) {
      CurrentIsRun(u, i, k - 1);
    }
  }

  /** What the buffer holds was run, unless it is still the input. */
  lemma {:induction false} CurrentIsRun(u: Setup, i: nat, k: nat)
    requires k <= |u.tokens|
    ensures Current(u, i, k) == u.input || Current(u, i, k) in RunsAt(u, i, k)
  {
    if k > 0 {
      CurrentIsRun(u, i, k - 1);
    }
  }

  /** No buffer is run twice in a row. */
  lemma {:induction false} NoRunRepeats(u: Setup, i: nat, k: nat, j: nat)
    requires k <= |u.tokens| && j + 1 < |RunsAt(u, i, k)|
    ensures RunsAt(u, i, k)[j] != RunsAt(u, i, k)[j + 1]
  {
    if Current(u, i, k) == Current(u, i, k - 1) {
      NoRunRepeats(u, i, k - 1, j);
    } else if j + 1 < |RunsAt(u, i, k - 1)| {
      NoRunRepeats(u, i, k - 1, j);
    } else {
      LastIsCurrent(u, i, k - 1);
    }
  }

  lemma {:induction false} LastIsCurrent(u: Setup, i: nat, k: nat)
    requires k <= |u.tokens|
    ensures RunsAt(u, i, k) != [] ==> RunsAt(u, i, k)[|RunsAt(u, i, k)| - 1] == Current(u, i, k)
  {
    if k > 0 {
      LastIsCurrent(u, i, k - 1);
    }
  }

  /** A token spans a flagged block exactly if one of its bytes lies in one. */
  lemma SpansExactly(eff: seq<bool>, i: nat, n: nat)
    requires n > 0
    ensures Spans(eff, i, n) <==> exists q: nat :: i <= q < i + n && q / 8 < |eff| && eff[q / 8]
  {
    if Spans(eff, i, n) {
      var j :| i / 8 <= j <= (i + n - 1) / 8 && 0 <= j < |eff| && eff[j];
      var q := if 8 * j < i then i else 8 * j;
      assert q / 8 == j;
    }
  }

  /** Over the whole stage: every run is the input with one token, let through, written over it where
      it fits and touches an effective block; and each such buffer other than the input is run. */
  lemma OverwriteExactly(u: Setup, r: seq<byte>)
    requires forall t <- u.tokens :: t != []
    ensures r in OverwriteRuns(u, |u.input|) ==> exists i: nat, k: nat :: Writes(u, i, k, r)
    ensures r != u.input && (exists i: nat, k: nat :: Writes(u, i, k, r)) ==> r in OverwriteRuns(u, |u.input|)
  {
    if r in OverwriteRuns(u, |u.input|) {
      RunWrites(u, r);
    }
    if r != u.input && exists i: nat, k: nat :: Writes(u, i, k, r) {
      var i: nat, k: nat :| Writes(u, i, k, r);
      WriteIsRun(u, i, k, r);
    }
  }

  ghost predicate Writes(u: Setup, i: nat, k: nat, r: seq<byte>) {
    && k < |u.tokens| && u.lucky(i, k) && i + |u.tokens[k]| <= |u.input|
    && (exists q: nat :: i <= q < i + |u.tokens[k]| && q / 8 < |u.eff| && u.eff[q / 8])
    && r == u.input[..i] + u.tokens[k] + u.input[i + |u.tokens[k]|..]
  }

  lemma EligibleIs(u: Setup, i: nat, k: nat)
    requires k < |u.tokens| && u.tokens[k] != []
    ensures Eligible(u, i, k) <==> i + |u.tokens[k]| <= |u.input| && Writes(u, i, k, Write(u.input, i, u.tokens[k]))
  {
    SpansExactly(u.eff, i, |u.tokens[k]|);
  }

  lemma RunWrites(u: Setup, r: seq<byte>)
    requires (forall t <- u.tokens :: t != []) && r in OverwriteRuns(u, |u.input|)
    ensures exists i: nat, k: nat :: Writes(u, i, k, r)
  {
    var i := RunAtSome(u, |u.input|, r);
    RunsAreOneWrites(u, i, |u.tokens|);
    assert IsOneWrite(u, i, r);
    var k :| 0 <= k < |u.tokens| && Eligible(u, i, k) && r == Write(u.input, i, u.tokens[k]);
    assert u.tokens[k] in u.tokens;
    EligibleIs(u, i, k);
  }

  lemma WriteIsRun(u: Setup, i: nat, k: nat, r: seq<byte>)
    requires (forall t <- u.tokens :: t != []) && r != u.input && Writes(u, i, k, r)
    ensures r in OverwriteRuns(u, |u.input|)
  {
    assert u.tokens[k] in u.tokens;
    EligibleIs(u, i, k);
    EligibleIsRun(u, i, |u.tokens|, k);
    RunIsIn(u, |u.input|, i, r);
  }

  lemma {:induction false} RunAtSome(u: Setup, n: nat, r: seq<byte>) returns (i: nat)
    requires r in OverwriteRuns(u, n)
    ensures i < n && r in RunsAt(u, i, |u.tokens|)
  {
    if r in RunsAt(u, n - 1, |u.tokens|) {
      i := n - 1;
    } else {
      i := RunAtSome(u, n - 1, r);
    }
  }

  lemma {:induction false} RunIsIn(u: Setup, n: nat, i: nat, r: seq<byte>)
    requires i < n && r in RunsAt(u, i, |u.tokens|)
    ensures r in OverwriteRuns(u, n)
  {
    if i < n - 1 {
      RunIsIn(u, n - 1, i, r);
    }
  }

  /** Why the order matters: after a longer token, a shorter one leaves a rest behind. */
  lemma UnsortedLeavesRest(s: seq<byte>, i: nat, long: seq<byte>, short: seq<byte>)
    requires i + |long| <= |s| && |short| < |long|
    ensures Write(Write(s, i, long), i, short) == Write(s, i, short)
       <==> long[|short|..] == s[i + |short|..i + |long|]
  {
    var a, b := Write(Write(s, i, long), i, short), Write(s, i, short);
    assert a[i + |short|..i + |long|] == long[|short|..];
    assert b[i + |short|..i + |long|] == s[i + |short|..i + |long|];
    if long[|short|..] == s[i + |short|..i + |long|] {
      forall k | 0 <= k < |s| ensures a[k] == b[k] {
        if i + |short| <= k < i + |long| {
          assert a[k] == a[i + |short|..i + |long|][k - i - |short|];
        }
      }
    }
  }

  // ---- The stage ----

  /** One token at one offset; `lastLen` bytes from there on may differ from the input. */
  method OverwriteToken(u: Setup, out: array<byte>, i: nat, k: nat, last: nat, target: Target) returns (lastLen: nat)
    requires Proper(u) && i < |u.input| && k < |u.tokens| && out[..] == Current(u, i, k)
    requires last <= |u.tokens[k]| && Touched(u, out[..], i, last)
    modifies out, target
    ensures out[..] == Current(u, i, k + 1) && Touched(u, out[..], i, lastLen)
    ensures lastLen == last || lastLen == |u.tokens[k]|
    ensures target.runs == old(target.runs)
                        + if Current(u, i, k + 1) == Current(u, i, k) then [] else [Current(u, i, k + 1)]
  {
    lastLen := last;
    var token := u.tokens[k];
    ghost var s := out[..];
    CurrentNext(u, s, i, k, last);
    if !u.lucky(i, k) || |token| > out.Length - i || out[i..i + |token|] == token || !Spans(u.eff, i, |token|) {
      return;
    }
    lastLen := |token|;
    PutBytes(out, i, token);
    target.Run(out);
  }

  lemma CurrentNext(u: Setup, s: seq<byte>, i: nat, k: nat, n: nat)
    requires k < |u.tokens| && s == Current(u, i, k) && n <= |u.tokens[k]| && Touched(u, s, i, n)
    ensures !Eligible(u, i, k) ==> Current(u, i, k + 1) == s
    ensures Eligible(u, i, k) ==>
              var token := u.tokens[k];
              var t := s[..i] + token + s[i + |token|..];
              Current(u, i, k + 1) == t && Touched(u, t, i, |token|) && (s == t <==> s[i..i + |token|] == token)
  {
    if Eligible(u, i, k) {
      var token := u.tokens[k];
      WritesOver(u, s, s[..i] + token + s[i + |token|..], i, n, token);
    }
  }

  lemma WritesOver(u: Setup, s: seq<byte>, t: seq<byte>, i: nat, n: nat, token: seq<byte>)
    requires Touched(u, s, i, n) && n <= |token| && i + |token| <= |s|
    requires t == s[..i] + token + s[i + |token|..]
    ensures t == Write(u.input, i, token) && Touched(u, t, i, |token|)
    ensures s == t <==> s[i..i + |token|] == token
  {
    assert t[i..i + |token|] == token;
    assert s[i + |token|..] == u.input[i + |token|..];
  }

  /** The buffer is the input, except for `n` bytes from `i` on. */
  ghost predicate Touched(u: Setup, s: seq<byte>, i: nat, n: nat) {
    i + n <= |u.input| == |s| && s == u.input[..i] + s[i..i + n] + u.input[i + n..]
  }

  /** The runs made, as the stage's own bookkeeping of them says. */
  method OverwriteAt(u: Setup, out: array<byte>, i: nat, target: Target)
    requires Proper(u) && i < |u.input| && out[..] == u.input
    modifies out, target
    ensures out[..] == u.input
    ensures Ran(target.runs, old(target.runs), RunsAt(u, i, |u.tokens|))
  {
    ghost var before := target.runs;
    var lastLen: nat := 0;
    RanNothing(before);
    for k := 0 to |u.tokens|
      invariant out[..] == Current(u, i, k) && Touched(u, out[..], i, lastLen)
      invariant lastLen == 0 || (k > 0 && lastLen <= |u.tokens[k - 1]|)
      invariant Ran(target.runs, before, RunsAt(u, i, k))
    {
      ghost var runs := target.runs;
      lastLen := OverwriteToken(u, out, i, k, lastLen, target);
      RunsGoOn(u, i, k, before, runs, target.runs);
    }
    Restore(u, out, i, lastLen);
  }

  lemma RunsGoOn(u: Setup, i: nat, k: nat, before: seq<seq<byte>>, runs: seq<seq<byte>>, after: seq<seq<byte>>)
    requires k < |u.tokens| && Ran(runs, before, RunsAt(u, i, k))
    requires after == runs + if Current(u, i, k + 1) == Current(u, i, k) then [] else [Current(u, i, k + 1)]
    ensures Ran(after, before, RunsAt(u, i, k + 1))
  {
    if Current(u, i, k + 1) != Current(u, i, k) {
      RanMore(runs, before, RunsAt(u, i, k), [Current(u, i, k + 1)]);
    }
  }

  method Restore(u: Setup, out: array<byte>, i: nat, n: nat)
    requires Touched(u, out[..], i, n)
    modifies out
    ensures out[..] == u.input
  {
    ghost var s := out[..];
    PutBytes(out, i, u.input[i..i + n]);
    assert s[..i] == u.input[..i] && s[i + n..] == u.input[i + n..];
    assert out[..] == s[..i] + u.input[i..i + n] + s[i + n..];
  }

  /** The whole stage: after each offset the input is back. */
  method Overwrite(u: Setup, out: array<byte>, target: Target)
    requires Proper(u) && out[..] == u.input
    modifies out, target
    ensures out[..] == u.input
    ensures target.runs == old(target.runs) + OverwriteRuns(u, |u.input|)
  {
    ghost var before := target.runs;
    RanNothing(before);
    for i := 0 to out.Length
      invariant out[..] == u.input
      invariant Ran(target.runs, before, OverwriteRuns(u, i))
    {
      ghost var runs := target.runs;
      OverwriteAt(u, out, i, target);
      RanThen(before, OverwriteRuns(u, i), runs, RunsAt(u, i, |u.tokens|), target.runs);
    }
    RanAll(target.runs, before, OverwriteRuns(u, |u.input|));
  }

  // ---- Insertion ----

  function Insert(s: seq<byte>, i: nat, token: seq<byte>): seq<byte>
    requires i <= |s|
  {
    s[..i] + token + s[i..]
  }

  function InsertsAt(s: seq<byte>, tokens: seq<seq<byte>>, maxFile: nat, i: nat, k: nat): seq<seq<byte>>
    requires i <= |s| && k <= |tokens|
  {
    if k == 0 then []
    else InsertsAt(s, tokens, maxFile, i, k - 1)
         + if |s| + |tokens[k - 1]| > maxFile then [] else [Insert(s, i, tokens[k - 1])]
  }

  function InsertRuns(s: seq<byte>, tokens: seq<seq<byte>>, maxFile: nat, i: nat): seq<seq<byte>>
    requires i <= |s| + 1
  {
    if i == 0 then [] else InsertRuns(s, tokens, maxFile, i - 1) + InsertsAt(s, tokens, maxFile, i - 1, |tokens|)
  }

  /** Exactly the buffers with one token put in at one offset are run, as long as they fit. */
  lemma InsertExactly(s: seq<byte>, tokens: seq<seq<byte>>, maxFile: nat, r: seq<byte>)
    ensures r in InsertRuns(s, tokens, maxFile, |s| + 1) <==>
              exists i: nat, k: nat :: i <= |s| && InsertsToken(s, tokens, maxFile, i, k, r)
  {
    InsertRunsHave(s, tokens, maxFile, |s| + 1, r);
  }

  ghost predicate InsertsToken(s: seq<byte>, tokens: seq<seq<byte>>, maxFile: nat, i: nat, k: nat, r: seq<byte>) {
    i <= |s| && k < |tokens| && |s| + |tokens[k]| <= maxFile && r == s[..i] + tokens[k] + s[i..]
  }

  lemma {:induction false} InsertsHave(s: seq<byte>, tokens: seq<seq<byte>>, maxFile: nat, i: nat, n: nat, r: seq<byte>)
    requires i <= |s| && n <= |tokens|
    ensures r in InsertsAt(s, tokens, maxFile, i, n) <==>
              exists k: nat :: k < n && InsertsToken(s, tokens, maxFile, i, k, r)
  {
    if n > 0 {
      InsertsHave(s, tokens, maxFile, i, n - 1, r);
      assert InsertsToken(s, tokens, maxFile, i, n - 1, r) <==>
               |s| + |tokens[n - 1]| <= maxFile && r == Insert(s, i, tokens[n - 1]);
    }
  }

  lemma {:induction false} InsertRunsHave(s: seq<byte>, tokens: seq<seq<byte>>, maxFile: nat, n: nat, r: seq<byte>)
    requires n <= |s| + 1
    ensures r in InsertRuns(s, tokens, maxFile, n) <==>
              exists i: nat, k: nat :: i < n && InsertsToken(s, tokens, maxFile, i, k, r)
  {
    if n > 0 {
      var m := n - 1;
      InsertRunsHave(s, tokens, maxFile, m, r);
      InsertsHave(s, tokens, maxFile, m, |tokens|, r);
    }
  }

  /** One token put in at `i`: the head of the buffer is in place, the rest is rewritten. */
  method InsertToken(out: array<byte>, tmp: array<byte>, i: nat, token: seq<byte>, target: Target)
    requires out != tmp && i <= out.Length && |token| <= MAX_DICT_FILE && tmp.Length == out.Length + MAX_DICT_FILE
    requires tmp[..i] == out[..i]
    modifies tmp, target
    ensures tmp[..i] == out[..i]
    ensures target.runs == old(target.runs) + [Insert(out[..], i, token)]
  {
    var n := |token|;
    forall j | 0 <= j < n { tmp[i + j] := token[j]; }
    forall j | i <= j < out.Length { tmp[n + j] := out[j]; }
    assert tmp[..out.Length + n] == out[..i] + token + out[i..];
    target.RunPrefix(tmp, out.Length + n);
  }

  method InsertAt(out: array<byte>, tmp: array<byte>, i: nat, tokens: seq<seq<byte>>, maxFile: nat, target: Target)
    requires out != tmp && i <= out.Length && tmp.Length == out.Length + MAX_DICT_FILE
    requires forall t <- tokens :: |t| <= MAX_DICT_FILE
    requires tmp[..i] == out[..i]
    modifies tmp, target
    ensures tmp[..i] == out[..i]
    ensures Ran(target.runs, old(target.runs), InsertsAt(out[..], tokens, maxFile, i, |tokens|))
  {
    ghost var before, s := target.runs, out[..];
    RanNothing(before);
    for k := 0 to |tokens|
      invariant tmp[..i] == out[..i] && out[..] == s
      invariant Ran(target.runs, before, InsertsAt(s, tokens, maxFile, i, k))
    {
      if out.Length + |tokens[k]| <= maxFile {
        RanMore(target.runs, before, InsertsAt(s, tokens, maxFile, i, k), [Insert(s, i, tokens[k])]);
        InsertToken(out, tmp, i, tokens[k], target);
      } else {
        assert InsertsAt(s, tokens, maxFile, i, k + 1) == InsertsAt(s, tokens, maxFile, i, k);
      }
    }
  }

  /** Every token inserted at every offset, unless the result is too long. The input is only read. */
  method InsertAll(out: array<byte>, tokens: seq<seq<byte>>, maxFile: nat, target: Target)
    requires forall t <- tokens :: |t| <= MAX_DICT_FILE
    modifies target
    ensures target.runs == old(target.runs) + InsertRuns(out[..], tokens, maxFile, out.Length + 1)
  {
    ghost var before := target.runs;
    var tmp := new byte[out.Length + MAX_DICT_FILE];
    RanNothing(before);
    for i := 0 to out.Length + 1
      invariant i <= out.Length ==> tmp[..i] == out[..i]
      invariant fresh(tmp)
      invariant Ran(target.runs, before, InsertRuns(out[..], tokens, maxFile, i))
    {
      ghost var runs := target.runs;
      InsertAt(out, tmp, i, tokens, maxFile, target);
      RanThen(before, InsertRuns(out[..], tokens, maxFile, i), runs,
              InsertsAt(out[..], tokens, maxFile, i, |tokens|), target.runs);
      if i < out.Length {
        tmp[i] := out[i];
      }
    }
    RanAll(target.runs, before, InsertRuns(out[..], tokens, maxFile, out.Length + 1));
  }
}
