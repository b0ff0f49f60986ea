/** The loop of persistent mode: how many inputs one child may serve. */
module Loops {
  const U32 := 0x1_0000_0000

  /** The statics of one child, and, for the record: how often it was told to end, whether it
      asked again although it had been told so, and the number of inputs it was let into the loop
      body with. */
  datatype Progress = Progress(firstPass: bool, cycleCnt: nat, ends: nat, again: bool, served: nat)

  function Fresh(): Progress { Progress(true, 0, 0, false, 0) }

  /** The counter is 32 bits wide, so a limit of zero is reached only after wrapping. */
  function Limit(maxCnt: nat): nat {
    var m := maxCnt % U32;
    if m == 0 then U32 else m
  }

  function Decremented(n: nat): nat {
    if n == 0 then U32 - 1 else n - 1
  }

  /** One call: the new statics, and whether the child stops itself before it goes on. */
  function Called(p: Progress, persistent: bool, maxCnt: nat): (Progress, bool) {
    var again := p.again || p.ends > 0;
    if p.firstPass then
      (Progress(false, maxCnt % U32, 0, false, 1), false)
    else if !persistent then
      (p.(ends := p.ends + 1, again := again), false)
    else
      var n := Decremented(p.cycleCnt);
      if n != 0 then (p.(cycleCnt := n, again := again, served := p.served + 1), true)
      else (p.(cycleCnt := 0, ends := p.ends + 1, again := again), false)
  }

  /** The calls after the first one. */
  function Calls(p: Progress): int {
    p.served + p.ends - 1
  }

  /** What holds between two calls, in every child: the counter goes round, and the child is told
      to end each time it passes zero. */
  predicate Ok(p: Progress, persistent: bool, maxCnt: nat) {
    if p.firstPass then p == Fresh()
    else if !persistent then p.served == 1 && (p.again <==> p.ends > 1)
    else
      && p.served >= 1
      && p.cycleCnt == (Limit(maxCnt) - Calls(p)) % U32
      && p.ends == (if Calls(p) < Limit(maxCnt) then 0 else 1 + (Calls(p) - Limit(maxCnt)) / U32)
      && (p.again <==> Calls(p) > Limit(maxCnt))
  }

  /** Counting down from `m`, the number of times zero was passed goes up exactly at zero. */
  lemma RoundTheCounter(m: nat, k: nat)
    requires m >= 1
    ensures Decremented((m - k) % U32) == (m - (k + 1)) % U32
    ensures k + 1 == m ==> (m - (k + 1)) % U32 == 0
    ensures k + 1 > m ==>
              (k + 1 - m) / U32 == (if (m - (k + 1)) % U32 == 0 then (k - m) / U32 + 1 else (k - m) / U32)
    ensures k + 1 < m <= U32 ==> (m - (k + 1)) % U32 != 0
  {
  }

  lemma CalledKeepsOk(p: Progress, persistent: bool, maxCnt: nat)
    requires Ok(p, persistent, maxCnt)
    ensures Ok(Called(p, persistent, maxCnt).0, persistent, maxCnt)
  {
    if !p.firstPass && persistent {
      RoundTheCounter(Limit(maxCnt), Calls(p));
    }
  }

  /** The limit holds exactly as long as the child does not ask once more after it was told to
      end; without persistent mode it always serves one input. */
  lemma LimitExact(p: Progress, persistent: bool, maxCnt: nat)
    requires Ok(p, persistent, maxCnt)
    ensures persistent ==> (p.served <= Limit(maxCnt) <==> !p.again)
    ensures persistent && p.ends > 0 && !p.again ==> p.served == Limit(maxCnt) && p.ends == 1
    ensures !persistent ==> p.served <= 1
  {
  }

  /** Asking once more, it is let in past the limit, and stops itself as if nothing had happened. */
  lemma AskingAgain(p: Progress, maxCnt: nat)
    requires Ok(p, true, maxCnt) && p.ends > 0 && !p.again
    ensures Called(p, true, maxCnt).1 && Called(p, true, maxCnt).0.served == Limit(maxCnt) + 1
  {
    LimitExact(p, true, maxCnt);
  }

  /** The child's life if it asks until it is told to end: the statics then. */
  function Finished(p: Progress, persistent: bool, maxCnt: nat): (r: Progress)
    requires Ok(p, persistent, maxCnt) && !p.again
    ensures r.ends == 1 && !r.again
    ensures r.served == if !persistent then 1
                        else if maxCnt % 0x1_0000_0000 == 0 then 0x1_0000_0000 else maxCnt % 0x1_0000_0000
    decreases if p.ends > 0 then 0 else 1 + Limit(maxCnt) - p.served
  {
    LimitExact(p, persistent, maxCnt);
    if p.ends > 0 then p
    else
      CalledKeepsOk(p, persistent, maxCnt);
      LimitExact(Called(p, persistent, maxCnt).0, persistent, maxCnt);
      Finished(Called(p, persistent, maxCnt).0, persistent, maxCnt)
  }

  /** The statics of the target and the loop function that works on them. */
  class PersistentLoop {
    const persistent: bool
    var firstPass: bool
    var cycleCnt: nat
    ghost var ends: nat
    ghost var again: bool
    ghost var served: nat

    ghost function State(): Progress
      reads this
    {
      Progress(firstPass, cycleCnt, ends, again, served)
    }

    constructor (persistent: bool)
      ensures State() == Fresh() && this.persistent == persistent
    {
      this.persistent := persistent;
      firstPass, cycleCnt, ends, again, served := true, 0, 0, false, 0;
    }

    /** `stopped`: the child stopped itself before it went on with the next input. */
    method Again(maxCnt: nat) returns (more: bool, stopped: bool)
      requires Ok(State(), persistent, maxCnt)
      modifies this
      ensures (State(), stopped) == Called(old(State()), persistent, maxCnt)
      ensures Ok(State(), persistent, maxCnt)
      ensures served == old(served) + (if more then 1 else 0) && ends == old(ends) + (if more then 0 else 1)
      ensures stopped <==> more && persistent && !old(firstPass)
    {
      CalledKeepsOk(State(), persistent, maxCnt);
      stopped := false;
      if firstPass {
        cycleCnt := maxCnt % U32;
        firstPass := false;
        served := served + 1;
        return true, false;
      }
      again := again || ends > 0;
      if persistent {
        cycleCnt := if cycleCnt == 0 then U32 - 1 else cycleCnt - 1;
        if cycleCnt != 0 {
          served := served + 1;
          return true, true;
        }
      }
      ends := ends + 1;
      more := false;
    }
  }

  /** With a limit of one: in, told to end, and in again. */
  method PastTheLimit() returns (l: PersistentLoop)
    ensures fresh(l) && Ok(l.State(), true, 1) && l.served == 2 > Limit(1) && l.again
  {
    l := new PersistentLoop(true);
    var more, stopped := l.Again(1);
    more, stopped := l.Again(1);
    more, stopped := l.Again(1);
  }
}
