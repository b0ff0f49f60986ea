/** The random stage: stacked changes to a buffer that grows and shrinks, and its restoration. */
module Havoc {
  import opened Bytes
  import opened Extras

  const MAX_FILE := 1048576
  const BLK_SMALL := 32
  const BLK_MEDIUM := 128
  const BLK_LARGE := 1500
  const BLK_XL := 32768
  const ARITH_MAX := 35
  const STACK_POW2 := 7

  /** Some number below `limit`. */
  method UR(limit: nat) returns (r: nat)
    requires limit > 0
    ensures r < limit
  {
    r :| 0 <= r < limit;
  }

  /** The four ranges a block length is drawn from. */
  ghost predicate InRange(n: nat, range: nat, limit: nat) {
    match range
    case 0 => 1 <= n <= 32
    case 1 => (32 <= n || limit <= 32) && 1 <= n <= 128
    case 2 => (128 <= n || limit <= 128) && 1 <= n <= 1500
    case 3 => (1500 <= n || limit <= 1500) && 1 <= n <= 32768
    case _ => false
  }

  /** A block length that may be drawn: from the first range alone during the first ten minutes or the
      first cycle, and from the last two from the third cycle on. */
  ghost predicate IsBlockLen(n: nat, limit: nat, queueCycle: nat, over10m: bool) {
    n <= limit && exists range: nat :: Drawn(n, range, limit, queueCycle, over10m)
  }

  ghost predicate Drawn(n: nat, range: nat, limit: nat, queueCycle: nat, over10m: bool) {
    InRange(n, range, limit) && (range > 0 ==> over10m && queueCycle >= Min(range, 2) + 1)
  }

  method ChooseBlockLen(limit: nat, queueCycle: nat, over10m: bool) returns (n: nat)
    requires limit >= 1 && (over10m ==> queueCycle >= 1)
    ensures 1 <= n <= limit && n <= BLK_XL && IsBlockLen(n, limit, queueCycle, over10m)
  {
    var rlim := Min(queueCycle, 3);
    if !over10m {
      rlim := 1;
    }
    var lo, hi;
    ghost var range;
    var kind := UR(rlim);
    if kind == 0 {
      lo, hi, range := 1, BLK_SMALL, 0;
    } else if kind == 1 {
      lo, hi, range := BLK_SMALL, BLK_MEDIUM, 1;
    } else {
      var often := UR(10);
      if often != 0 {
        lo, hi, range := BLK_MEDIUM, BLK_LARGE, 2;
      } else {
        lo, hi, range := BLK_LARGE, BLK_XL, 3;
      }
    }
    if lo >= limit {
      lo := 1;
    }
    var d := UR(Min(hi, limit) - lo + 1);
    n := lo + d;
    assert Drawn(n, range, limit, queueCycle, over10m);
  }

  // ---- The changes, as functions ----

  datatype Op =
    | Keep
    | SetByte(pos: nat, value: byte)
    | Put(pos: nat, block: seq<byte>)
    | Delete(start: nat, count: nat)
    | InsertBlock(at: nat, block: seq<byte>)

  predicate Allowed(s: seq<byte>, op: Op) {
    match op
    case Keep => true
    case SetByte(pos, value) => pos < |s|
    case Put(pos, block) => pos + |block| <= |s|
    case Delete(start, count) => 1 <= count < |s| && start + count <= |s|
    case InsertBlock(at, block) => at <= |s| && |s| + |block| < MAX_FILE
  }

  function Apply(s: seq<byte>, op: Op): seq<byte>
    requires Allowed(s, op)
  {
    match op
    case Keep => s
    case SetByte(pos, value) => s[pos := value]
    case Put(pos, block) => Write(s, pos, block)
    case Delete(start, count) => s[..start] + s[start + count..]
    case InsertBlock(at, block) => Insert(s, at, block)
  }

  predicate AllAllowed(s: seq<byte>, ops: seq<Op>)
    decreases |ops|
  {
    ops == [] || (Allowed(s, ops[0]) && AllAllowed(Apply(s, ops[0]), ops[1..]))
  }

  function ApplyAll(s: seq<byte>, ops: seq<Op>): seq<byte>
    requires AllAllowed(s, ops)
    decreases |ops|
  {
    if ops == [] then s else ApplyAll(Apply(s, ops[0]), ops[1..])
  }

  /** However the changes are stacked, the buffer never becomes empty or too long. */
  lemma {:induction false} StackKeepsSize(s: seq<byte>, ops: seq<Op>)
    requires 1 <= |s| <= MAX_FILE && AllAllowed(s, ops)
    ensures 1 <= |ApplyAll(s, ops)| <= MAX_FILE
    decreases |ops|
  {
    if ops != [] {
      StackKeepsSize(Apply(s, ops[0]), ops[1..]);
    }
  }

  lemma {:induction false} StackOneMore(s: seq<byte>, ops: seq<Op>, op: Op)
    requires AllAllowed(s, ops) && Allowed(ApplyAll(s, ops), op)
    ensures AllAllowed(s, ops + [op]) && ApplyAll(s, ops + [op]) == Apply(ApplyAll(s, ops), op)
    decreases |ops|
  {
    if ops == [] {
      assert ops + [op] == [op];
    } else {
      StackOneMore(Apply(s, ops[0]), ops[1..], op);
      assert (ops + [op])[1..] == ops[1..] + [op];
    }
  }
}
