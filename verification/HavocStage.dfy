/** The random stage on its buffer. Each change is made in place or into a new, larger
    buffer, and is one of the changes of the pure description, with its block spelled out. */
module HavocStage {
  import opened Bytes
  import opened Bits
  import opened Constants
  import opened Flips
  import opened WalkingFlips
  import opened Extras
  import opened Stages
  import opened Havoc
  import opened Words

  lemma WritesPrefix(s: seq<byte>, len: nat, pos: nat, block: seq<byte>)
    requires pos + |block| <= len <= |s|
    ensures (s[..pos] + block + s[pos + |block|..])[..len] == Write(s[..len], pos, block)
  {
  }

  /** memmove of what follows the `n` bytes from `start` on. */
  method MoveDown(buf: array<byte>, start: nat, n: nat, len: nat)
    requires start + n <= len <= buf.Length
    modifies buf
    ensures buf[..len - n] == old(buf[..start]) + old(buf[start + n..len])
  {
    forall k | start <= k < len - n {
      buf[k] := buf[k + n];
    }
  }

  method Grown(buf: array<byte>, len: nat, at: nat, block: seq<byte>) returns (bigger: array<byte>)
    requires at <= len <= buf.Length
    ensures fresh(bigger) && bigger[..] == Insert(buf[..len], at, block)
  {
    bigger := new byte[len + |block|];
    ghost var s := buf[..len];
    CopyBytes(bigger, 0, buf, 0, at);
    ghost var first := bigger[..];
    assert first[..at] == s[..at];
    PutBytes(bigger, at, block);
    ghost var second := bigger[..];
    assert second[..at + |block|] == s[..at] + block;
    CopyBytes(bigger, at + |block|, buf, at, len - at);
    assert s[at..] == buf[at..at + (len - at)];
    assert second[at + |block| + (len - at)..] == [];
  }

  class Mutator {
    var out: array<byte>
    var tempLen: nat
    const input: seq<byte>
    const ints8: seq<byte>
    const words: seq<seq<byte>>
    const dwords: seq<seq<byte>>
    const extras: seq<seq<byte>>
    const autos: seq<seq<byte>>
    const queueCycle: nat
    const over10m: bool

    ghost predicate Valid()
      reads this
    {
      && 1 <= tempLen <= out.Length && tempLen <= MAX_FILE
      && 1 <= |input| <= MAX_FILE
      && ints8 != [] && words != [] && dwords != []
      && (forall w <- words :: |w| == 2) && (forall w <- dwords :: |w| == 4)
      && (over10m ==> queueCycle >= 1)
    }

    ghost function Content(): seq<byte>
      requires Valid()
      reads this, out
    {
      out[..tempLen]
    }

    method SetTo(pos: nat, v: byte)
      requires Valid() && pos < tempLen
      modifies out
      ensures Content() == old(Content())[pos := v]
    {
      out[pos] := v;
    }

    method PutBlock(pos: nat, block: seq<byte>)
      requires Valid() && pos + |block| <= tempLen
      modifies out
      ensures Content() == Write(old(Content()), pos, block)
    {
      ghost var was := out[..];
      PutBytes(out, pos, block);
      WritesPrefix(was, tempLen, pos, block);
    }

    ghost predicate OneBit(s: seq<byte>, op: Op) {
      op.SetByte? && op.pos < |s| && exists b :: BitAt(s, op, b)
    }

    ghost predicate BitAt(s: seq<byte>, op: Op, b: nat)
      requires op.SetByte? && op.pos < |s|
    {
      b < 8 * |s| && op.pos == b / 8 && s[op.pos := op.value] == FlipAt(s, b)
    }

    method Flip() returns (ghost op: Op)
      requires Valid()
      modifies out
      ensures Allowed(old(Content()), op) && Content() == Apply(old(Content()), op)
      ensures OneBit(old(Content()), op)
    {
      var b := UR(8 * tempLen);
      ghost var s := Content();
      ghost var whole := out[..];
      FlipBit(out, b);
      op := SetByte(b / 8, out[b / 8]);
      assert out[..] == whole[b / 8 := out[b / 8]];
      assert Content() == s[b / 8 := out[b / 8]] == FlipAt(s, b);
      assert BitAt(s, op, b);
    }

    method Interesting8() returns (ghost op: Op)
      requires Valid()
      modifies out
      ensures Allowed(old(Content()), op) && Content() == Apply(old(Content()), op)
      ensures op.SetByte? && op.pos < tempLen && op.value in ints8
    {
      var pos := UR(tempLen);
      var k := UR(|ints8|);
      SetTo(pos, ints8[k]);
      op := SetByte(pos, ints8[k]);
    }

    ghost predicate OneOf(choices: seq<seq<byte>>, block: seq<byte>) {
      exists w, big :: w in choices && block == Oriented(w, big)
    }

    /** An interesting word or double word, in either byte order. */
    method InterestingWord(choices: seq<seq<byte>>, size: nat) returns (ghost op: Op)
      requires Valid() && choices != [] && size > 0 && forall w <- choices :: |w| == size
      modifies out
      ensures Allowed(old(Content()), op) && Content() == Apply(old(Content()), op)
      ensures if tempLen < size then op == Keep else op.Put? && OneOf(choices, op.block)
    {
      if tempLen < size {
        return Keep;
      }
      var little := UR(2);
      var pos := UR(tempLen - size + 1);
      var k := UR(|choices|);
      PutBlock(pos, Oriented(choices[k], little == 0));
      op := Put(pos, Oriented(choices[k], little == 0));
    }

    ghost predicate Moved(was: byte, now: byte, up: bool, j: nat) {
      1 <= j <= 35 && now == (if up then was + j else was - j) % 256
    }

    ghost predicate MovesByte(s: seq<byte>, op: Op, up: bool) {
      op.SetByte? && op.pos < |s| && exists j :: Moved(s[op.pos], op.value, up, j)
    }

    ghost predicate MovedWord(was: seq<byte>, now: seq<byte>, up: bool, j: nat, big: bool) {
      1 <= j <= 35 && forall k | SeeRuns(k) :: now == Adjusted(was, if up then j else 0 - j, big)
    }

    ghost predicate AdjustsWord(s: seq<byte>, op: Op, size: nat, up: bool) {
      && op.Put? && |op.block| == size && op.pos + size <= |s|
      && Moves(s[op.pos..op.pos + size], op.block, up)
    }

    ghost predicate Moves(was: seq<byte>, now: seq<byte>, up: bool) {
      exists j, big :: MovedWord(was, now, up, j, big)
    }

    method AdjustByte(up: bool) returns (ghost op: Op)
      requires Valid()
      modifies out
      ensures Allowed(old(Content()), op) && Content() == Apply(old(Content()), op)
      ensures MovesByte(old(Content()), op, up)
    {
      var pos := UR(tempLen);
      var j := UR(ARITH_MAX);
      var delta: int := 1 + j;
      if !up {
        delta := -delta;
      }
      op := SetByte(pos, (out[pos] + delta) % 256);
      assert Moved(out[pos], op.value, up, 1 + j);
      SetTo(pos, (out[pos] + delta) % 256);
    }

    method AdjustWord(size: nat, up: bool) returns (ghost op: Op)
      requires Valid() && size > 0
      modifies out
      ensures Allowed(old(Content()), op) && Content() == Apply(old(Content()), op)
      ensures if tempLen < size then op == Keep else AdjustsWord(old(Content()), op, size, up)
    {
      if tempLen < size {
        return Keep;
      }
      var pos := UR(tempLen - size + 1);
      ghost var s := Content();
      var block := AdjustBlock(out[..tempLen][pos..pos + size], up);
      op := Put(pos, block);
      assert AdjustsWord(s, op, size, up);
      PutBlock(pos, block);
    }

    method AdjustBlock(was: seq<byte>, up: bool) returns (block: seq<byte>)
      ensures |block| == |was| && Moves(was, block, up)
    {
      var little := UR(2);
      var j := UR(ARITH_MAX);
      var delta: int := 1 + j;
      if !up {
        delta := -delta;
      }
      block := Adjusted(was, delta, little == 0);
      assert MovedWord(was, block, up, 1 + j, little == 0);
    }

    ghost predicate Differs(s: seq<byte>, op: Op) {
      op.SetByte? && op.pos < |s| && op.value != s[op.pos]
    }

    method RandomByte() returns (ghost op: Op)
      requires Valid()
      modifies out
      ensures Allowed(old(Content()), op) && Content() == Apply(old(Content()), op)
      ensures Differs(old(Content()), op)
    {
      var pos := UR(tempLen);
      var x := UR(255);
      var m: byte := 1 + x;
      XorBound(out[pos], m, 8);
      XorByteIs(out[pos], m);
      ByteSolves(out[pos], m, out[pos]);
      ByteSame(out[pos]);
      var v := Xor(out[pos], m);
      op := SetByte(pos, v);
      SetTo(pos, v);
    }

    method DeleteBlock() returns (ghost op: Op)
      requires Valid()
      modifies this`tempLen, out
      ensures Valid()
      ensures Allowed(old(Content()), op) && Content() == Apply(old(Content()), op)
      ensures if old(tempLen) < 2 then op == Keep
              else op.Delete? && IsBlockLen(op.count, old(tempLen) - 1, queueCycle, over10m)
    {
      if tempLen < 2 {
        return Keep;
      }
      var n := ChooseBlockLen(tempLen - 1, queueCycle, over10m);
      var start := UR(tempLen - n + 1);
      CloseGap(start, n);
      op := Delete(start, n);
    }

    method CloseGap(start: nat, n: nat)
      requires Valid() && start + n <= tempLen && n < tempLen
      modifies this`tempLen, out
      ensures Valid() && Content() == old(Content())[..start] + old(Content())[start + n..]
    {
      ghost var s := Content();
      MoveDown(out, start, n, tempLen);
      tempLen := tempLen - n;
      assert s[..start] == old(out[..start]) && s[start + n..] == old(out[start + n..tempLen]);
    }

    /** A block put in at `at`: head, block and tail are copied into a new buffer. */
    method Grow(at: nat, block: seq<byte>)
      requires Valid() && at <= tempLen && tempLen + |block| < MAX_FILE
      modifies this`tempLen, this`out
      ensures Valid() && fresh(out) && Content() == Insert(old(Content()), at, block)
    {
      var bigger := Grown(out, tempLen, at, block);
      out := bigger;
      tempLen := tempLen + |block|;
      assert Content() == bigger[..];
    }

    method SomeByte() returns (b: byte)
      requires Valid()
    {
      var any := UR(2);
      if any != 0 {
        b := UR(256);
      } else {
        var k := UR(tempLen);
        b := out[k];
      }
    }

    method CloneBlock() returns (ghost op: Op)
      requires Valid()
      modifies this`tempLen, this`out
      ensures Valid() && (out == old(out) || fresh(out))
      ensures Allowed(old(Content()), op) && Content() == Apply(old(Content()), op)
      ensures if old(tempLen) + 32768 >= MAX_FILE then op == Keep
              else op.InsertBlock? && op.at < old(tempLen) && IsBlock(old(Content()), op.block, old(tempLen), 32768)
    {
      if tempLen + BLK_XL >= MAX_FILE {
        return Keep;
      }
      var clone := UR(4);
      var block := Block(clone != 0, tempLen, BLK_XL);
      var to := UR(tempLen);
      op := InsertBlock(to, block);
      Grow(to, block);
    }

    /** A piece of the buffer, or one byte over and over, with the limits of its length. */
    ghost predicate IsBlock(s: seq<byte>, block: seq<byte>, copyLimit: nat, fillLimit: nat) {
      || (IsBlockLen(|block|, copyLimit, queueCycle, over10m) && exists start: nat :: PieceAt(s, block, start))
      || (IsBlockLen(|block|, fillLimit, queueCycle, over10m) && exists b: byte :: Filled(block, b))
    }

    ghost predicate PieceAt(s: seq<byte>, block: seq<byte>, start: nat) {
      start + |block| <= |s| && block == s[start..start + |block|]
    }

    ghost predicate Filled(block: seq<byte>, b: byte) {
      forall i | 0 <= i < |block| :: block[i] == b
    }

    method Block(copied: bool, copyLimit: nat, fillLimit: nat) returns (block: seq<byte>)
      requires Valid() && 1 <= copyLimit <= tempLen && 1 <= fillLimit
      ensures 1 <= |block| <= (if copied then copyLimit else fillLimit) && |block| <= BLK_XL
              && IsBlock(Content(), block, copyLimit, fillLimit)
    {
      var n := ChooseBlockLen(if copied then copyLimit else fillLimit, queueCycle, over10m);
      if copied {
        var start := UR(tempLen - n + 1);
        block := out[..tempLen][start..start + n];
        assert PieceAt(Content(), block, start);
      } else {
        var b := SomeByte();
        block := seq(n, _ => b);
        assert Filled(block, b);
      }
    }

    method OverwriteBlock() returns (ghost op: Op)
      requires Valid()
      modifies out
      ensures Allowed(old(Content()), op) && Content() == Apply(old(Content()), op)
      ensures if tempLen < 2 then op == Keep
              else op.Put? && IsBlock(old(Content()), op.block, tempLen - 1, tempLen - 1)
    {
      if tempLen < 2 {
        return Keep;
      }
      var copied := UR(4);
      var block := Block(copied != 0, tempLen - 1, tempLen - 1);
      var to := UR(tempLen - |block| + 1);
      op := Put(to, block);
      PutBlock(to, block);
    }

    /** A token of one of the dictionaries; one of them is not empty. */
    method SomeExtra() returns (token: seq<byte>)
      requires extras != [] || autos != []
      ensures IsToken(token)
    {
      var auto := extras == [];
      if !auto && autos != [] {
        var coin := UR(2);
        auto := coin != 0;
      }
      if auto {
        var k := UR(|autos|);
        token := autos[k];
      } else {
        var k := UR(|extras|);
        token := extras[k];
      }
    }

    ghost predicate IsToken(token: seq<byte>) {
      token in extras || token in autos
    }

    method OverwriteExtra() returns (ghost op: Op)
      requires Valid() && (extras != [] || autos != [])
      modifies out
      ensures Allowed(old(Content()), op) && Content() == Apply(old(Content()), op)
      ensures WritesToken(old(Content()), op)
    {
      var token := SomeExtra();
      if |token| > tempLen {
        return Keep;
      }
      var at := UR(tempLen - |token| + 1);
      op := Put(at, token);
      PutBlock(at, token);
    }

    method InsertExtra() returns (ghost op: Op)
      requires Valid() && (extras != [] || autos != [])
      modifies this`tempLen, this`out
      ensures Valid() && (out == old(out) || fresh(out))
      ensures Allowed(old(Content()), op) && Content() == Apply(old(Content()), op)
      ensures InsertsToken(old(Content()), op)
    {
      var at := UR(tempLen + 1);
      var token := SomeExtra();
      if tempLen + |token| >= MAX_FILE {
        return Keep;
      }
      op := InsertBlock(at, token);
      Grow(at, token);
    }

    // ---- Stacks of changes ----

    /** What each of the seventeen kinds of change does to a buffer. */
    ghost predicate Makes(s: seq<byte>, kind: nat, op: Op) {
      match kind
      case 0 => OneBit(s, op)
      case 1 => op.SetByte? && op.pos < |s| && op.value in ints8
      case 2 => if |s| < 2 then op == Keep else op.Put? && OneOf(words, op.block)
      case 3 => if |s| < 4 then op == Keep else op.Put? && OneOf(dwords, op.block)
      case 4 => MovesByte(s, op, false)
      case 5 => MovesByte(s, op, true)
      case 6 => if |s| < 2 then op == Keep else AdjustsWord(s, op, 2, false)
      case 7 => if |s| < 2 then op == Keep else AdjustsWord(s, op, 2, true)
      case 8 => if |s| < 4 then op == Keep else AdjustsWord(s, op, 4, false)
      case 9 => if |s| < 4 then op == Keep else AdjustsWord(s, op, 4, true)
      case 10 => Differs(s, op)
      case 13 =>
        if |s| + 32768 >= 1048576 then op == Keep
        else op.InsertBlock? && op.at < |s| && IsBlock(s, op.block, |s|, 32768)
      case 14 => if |s| < 2 then op == Keep else op.Put? && IsBlock(s, op.block, |s| - 1, |s| - 1)
      case 15 => WritesToken(s, op)
      case 16 => InsertsToken(s, op)
      case _ =>
        && kind in {11, 12}
        && if |s| < 2 then op == Keep else op.Delete? && IsBlockLen(op.count, |s| - 1, queueCycle, over10m)
    }

    ghost predicate WritesToken(s: seq<byte>, op: Op) {
      exists token | IsToken(token) :: if |token| > |s| then op == Keep else op.Put? && op.block == token
    }

    ghost predicate InsertsToken(s: seq<byte>, op: Op) {
      exists token | IsToken(token) ::
        if |s| + |token| >= 1048576 then op == Keep else op.InsertBlock? && op.block == token
    }

    /** One random change of one of the kinds; the last two need a token. */
    method Tweak() returns (ghost kind: nat, ghost op: Op)
      requires Valid()
      modifies this`tempLen, this`out, out
      ensures Valid() && (out == old(out) || fresh(out))
      ensures Allowed(old(Content()), op) && Content() == Apply(old(Content()), op)
      ensures Makes(old(Content()), kind, op)
    {
      var drawn := UR(if extras != [] || autos != [] then 17 else 15);
      kind := drawn;
      op := TweakAs(drawn);
    }

    method TweakAs(kind: nat) returns (ghost op: Op)
      requires Valid() && kind < 17 && (kind >= 15 ==> extras != [] || autos != [])
      modifies this`tempLen, this`out, out
      ensures Valid() && (out == old(out) || fresh(out))
      ensures Allowed(old(Content()), op) && Content() == Apply(old(Content()), op)
      ensures Makes(old(Content()), kind, op)
    {
      if kind <= 10 {
        op := TweakInPlace(kind);
      } else if kind <= 12 {
        op := DeleteBlock();
      } else if kind == 13 {
        op := CloneBlock();
      } else if kind == 14 {
        op := OverwriteBlock();
      } else if kind == 15 {
        op := OverwriteExtra();
      } else {
        op := InsertExtra();
      }
    }

    method TweakInPlace(kind: nat) returns (ghost op: Op)
      requires Valid() && kind <= 10
      modifies out
      ensures Allowed(old(Content()), op) && Content() == Apply(old(Content()), op)
      ensures Makes(old(Content()), kind, op)
    {
      match kind
      case 0 => op := Flip();
      case 1 => op := Interesting8();
      case 2 => op := InterestingWord(words, 2);
      case 3 => op := InterestingWord(dwords, 4);
      case 4 => op := AdjustByte(false);
      case 5 => op := AdjustByte(true);
      case 6 => op := AdjustWord(2, false);
      case 7 => op := AdjustWord(2, true);
      case 8 => op := AdjustWord(4, false);
      case 9 => op := AdjustWord(4, true);
      case _ => op := RandomByte();
    }

    /** Each of the changes is one of its kind to what the changes before it leave. */
    ghost predicate Stacked(s: seq<byte>, kinds: seq<nat>, ops: seq<Op>)
      requires AllAllowed(s, ops)
    {
      |kinds| == |ops| && forall i: nat | i < |ops| :: StackedAt(s, kinds, ops, i)
    }

    ghost predicate StackedAt(s: seq<byte>, kinds: seq<nat>, ops: seq<Op>, i: nat)
      requires i < |ops| == |kinds|
    {
      AllAllowed(s, ops[..i]) && Makes(ApplyAll(s, ops[..i]), kinds[i], ops[i])
    }

    lemma StackedMore(s: seq<byte>, kinds: seq<nat>, ops: seq<Op>, kind: nat, op: Op)
      requires AllAllowed(s, ops) && Stacked(s, kinds, ops) && Allowed(ApplyAll(s, ops), op)
      requires Makes(ApplyAll(s, ops), kind, op)
      ensures AllAllowed(s, ops + [op]) && Stacked(s, kinds + [kind], ops + [op])
    {
      StackOneMore(s, ops, op);
      var ks, os := kinds + [kind], ops + [op];
      forall i: nat | i < |os| ensures StackedAt(s, ks, os, i) {
        if i < |ops| {
          assert os[..i] == ops[..i];
          assert StackedAt(s, kinds, ops, i);
        } else {
          assert os[..i] == ops;
        }
      }
    }

    method Stack(n: nat) returns (ghost kinds: seq<nat>, ghost ops: seq<Op>)
      requires Valid()
      modifies this`tempLen, this`out, out
      ensures Valid() && (out == old(out) || fresh(out))
      ensures |ops| == n && AllAllowed(old(Content()), ops) && Content() == ApplyAll(old(Content()), ops)
      ensures Stacked(old(Content()), kinds, ops)
    {
      ghost var s := Content();
      kinds, ops := [], [];
      for i := 0 to n
        invariant Valid() && (out == old(out) || fresh(out))
        invariant |ops| == i && AllAllowed(s, ops) && Content() == ApplyAll(s, ops)
        invariant Stacked(s, kinds, ops)
      {
        ghost var kind, op := Tweak();
        StackOneMore(s, ops, op);
        StackedMore(s, kinds, ops, kind, op);
        kinds, ops := kinds + [kind], ops + [op];
      }
    }

    /** The buffer gets its room back if it shrank, and its bytes in any case. */
    method Restore()
      requires Valid()
      modifies this`tempLen, this`out, out
      ensures Valid() && (out == old(out) || fresh(out))
      ensures tempLen == |input| && Content() == input
    {
      if tempLen < |input| {
        var kept := out;
        out := new byte[|input|];
        forall k | 0 <= k < |input| && k < kept.Length { out[k] := kept[k]; }
      }
      tempLen := |input|;
      forall k | 0 <= k < |input| { out[k] := input[k]; }
    }

    /** One run of the stage: a stack of 2 to 128 changes, the run, and the input back. */
    method Round(target: Target) returns (ghost kinds: seq<nat>, ghost ops: seq<Op>)
      requires Valid() && Content() == input
      modifies this`tempLen, this`out, out, target
      ensures Valid() && (out == old(out) || fresh(out))
      ensures tempLen == |input| && Content() == input
      ensures |ops| in {2, 4, 8, 16, 32, 64, 128} && AllAllowed(input, ops) && Stacked(input, kinds, ops)
      ensures target.runs == old(target.runs) + [ApplyAll(input, ops)]
    {
      var p := UR(STACK_POW2);
      var stacking := Power(1 + p);
      kinds, ops := Stack(stacking);
      target.RunPrefix(out, tempLen);
      Restore();
    }

    method Power(n: nat) returns (r: nat)
      requires 1 <= n <= STACK_POW2
      ensures r in {2, 4, 8, 16, 32, 64, 128}
    {
      r := 1;
      for i := 0 to n
        invariant r <= 128 && (i > 0 ==> r >= 2)
        invariant r == [1, 2, 4, 8, 16, 32, 64, 128][i]
      {
        r := 2 * r;
      }
    }

    /** The whole stage: every buffer run is a stack of allowed changes to the input, and so
        neither empty nor too long. `news` says which of the runs find something, the first one
        being number 0; from `quiet` on none does. */
    method Stage(stageMax: nat, score: nat, news: nat -> bool, ghost quiet: nat, target: Target)
        returns (found: nat, runs: nat)
      requires Valid() && Content() == input && stageMax < S32 && Quiet(news, quiet)
      modifies this`tempLen, this`out, out, target
      ensures Valid() && Content() == input
      ensures |target.runs| == |old(target.runs)| + runs
      ensures forall r | |old(target.runs)| <= r < |target.runs| :: IsTweaked(target.runs[r])
      ensures runs == StageRuns(0, stageMax, score, news, quiet) && found == Finds(news, runs)
    {
      var max: int, perf := stageMax, score;
      found, runs := 0, 0;
      ghost var total := StageRuns(0, stageMax, score, news, quiet);
      while runs < max
        invariant Valid() && Content() == input && (out == old(out) || fresh(out))
        invariant Tweaked(target.runs, |old(target.runs)|, runs)
        invariant found == Finds(news, runs)
        invariant Leads(runs, max, perf, news, quiet, total)
        decreases if runs < quiet then quiet - runs else 0, max - runs
      {
        RunOnce(target, |old(target.runs)|, runs);
        max, perf, found := Notice(runs, max, perf, news, found, quiet, total);
        runs := runs + 1;
      }
      LeadsToEnd(runs, max, perf, news, quiet, total);
    }

    /** A buffer that a stack of 2 to 128 changes makes of the input. */
    ghost predicate IsTweaked(run: seq<byte>) {
      1 <= |run| <= 1048576 && exists kinds, ops :: TweakedBy(run, kinds, ops)
    }

    ghost predicate TweakedBy(run: seq<byte>, kinds: seq<nat>, ops: seq<Op>) {
      && |ops| in {2, 4, 8, 16, 32, 64, 128} && AllAllowed(input, ops) && Stacked(input, kinds, ops)
      && run == ApplyAll(input, ops)
    }

    ghost predicate Tweaked(runs: seq<seq<byte>>, first: nat, n: nat) {
      |runs| == first + n && forall r | first <= r < |runs| :: IsTweaked(runs[r])
    }

    method RunOnce(target: Target, ghost first: nat, ghost runs: nat)
      requires Valid() && Content() == input && Tweaked(target.runs, first, runs)
      modifies this`tempLen, this`out, out, target
      ensures Valid() && Content() == input && (out == old(out) || fresh(out))
      ensures Tweaked(target.runs, first, runs + 1)
    {
      ghost var kinds, ops := Round(target);
      StackKeepsSize(input, ops);
      assert TweakedBy(ApplyAll(input, ops), kinds, ops);
    }
  }

  // ---- The length of a stage ----

  const SCORE_CAP := HAVOC_MAX_MULT * 100
  const S32 := 0x8000_0000

  ghost predicate Quiet(news: nat -> bool, quiet: nat) {
    forall k: nat | k >= quiet :: !news(k)
  }

  function Finds(news: nat -> bool, n: nat): nat {
    if n == 0 then 0 else Finds(news, n - 1) + if news(n - 1) then 1 else 0
  }

  /** Twice the length, in 32 bits with a sign. */
  function Doubled(max: nat): int {
    if 2 * max < S32 then 2 * max else 2 * max - 2 * S32
  }

  /** The runs a stage makes in all, once `i` of `max` are made: a run that finds something doubles
      the length, and the score with it, until the score is past its cap. A length that does not
      fit in 32 bits becomes negative, and the stage is over. */
  ghost function StageRuns(i: nat, max: nat, perf: nat, news: nat -> bool, quiet: nat): nat
    requires i <= max < S32 && Quiet(news, quiet)
    decreases if i < quiet then quiet - i else 0, max - i
  {
    if i == max then i
    else if !news(i) || perf > SCORE_CAP then StageRuns(i + 1, max, perf, news, quiet)
    else if 2 * max >= S32 then i + 1
    else StageRuns(i + 1, 2 * max, 2 * perf, news, quiet)
  }

  /** From here the stage makes `total` runs; kept folded. */
  ghost predicate Leads(i: nat, max: int, perf: nat, news: nat -> bool, quiet: nat, total: nat) {
    forall k | SeeLength(k) ::
      && max < S32
      && (if max < 0 then total == i
          else i <= max && Quiet(news, quiet) && total == StageRuns(i, max, perf, news, quiet))
  }

  predicate SeeLength(k: int) { k == 0 }

  method Notice(i: nat, max: int, perf: nat, news: nat -> bool, found: nat, ghost quiet: nat, ghost total: nat)
      returns (longer: int, more: nat, finds: nat)
    requires i < max && Leads(i, max, perf, news, quiet, total) && found == Finds(news, i)
    ensures Leads(i + 1, longer, more, news, quiet, total) && finds == Finds(news, i + 1)
    ensures i < quiet || longer == max
  {
    assert SeeLength(0);
    longer, more, finds := max, perf, found;
    if news(i) {
      finds := finds + 1;
      if perf <= SCORE_CAP {
        longer, more := Doubled(max), 2 * perf;
      }
    }
  }

  lemma LeadsToEnd(i: nat, max: int, perf: nat, news: nat -> bool, quiet: nat, total: nat)
    requires i >= max && Leads(i, max, perf, news, quiet, total)
    ensures i == total
  {
    assert SeeLength(0);
  }

  /** With a score, a stage is at most twice as long for each point of it as the cap allows, however
      many of its runs find something. */
  lemma {:induction false} LengthWithScore(i: nat, max: nat, perf: nat, news: nat -> bool, quiet: nat, stageMax: nat,
                                           score: nat)
    requires i <= max < S32 && Quiet(news, quiet)
    requires score <= SCORE_CAP && perf <= 2 * SCORE_CAP && max * score == stageMax * perf
    ensures StageRuns(i, max, perf, news, quiet) * score <= 3200 * stageMax
    decreases if i < quiet then quiet - i else 0, max - i
  {
    AtMost(stageMax, perf, 2 * SCORE_CAP);
    if i < max {
      if !news(i) || perf > SCORE_CAP {
        LengthWithScore(i + 1, max, perf, news, quiet, stageMax, score);
      } else if 2 * max >= S32 {
        AtMost(score, i + 1, max);
      } else {
        Twice(max, score);
        Twice(perf, stageMax);
        LengthWithScore(i + 1, 2 * max, 2 * perf, news, quiet, stageMax, score);
      }
    }
  }

  /** A stage without finds is as long as planned. */
  lemma {:induction false} LengthWithoutFinds(i: nat, max: nat, perf: nat, news: nat -> bool, quiet: nat)
    requires i <= max < S32 && Quiet(news, quiet) && forall k: nat | i <= k < max :: !news(k)
    ensures StageRuns(i, max, perf, news, quiet) == max
    decreases max - i
  {
    if i < max {
      LengthWithoutFinds(i + 1, max, perf, news, quiet);
    }
  }

  lemma Twice(a: nat, b: nat)
    ensures 2 * a * b == 2 * (a * b) && b * (2 * a) == 2 * (b * a)
  {
  }

  lemma AtMost(a: nat, b: nat, c: nat)
    requires b <= c
    ensures a * b <= c * a && b * a <= c * a
  {
  }

  /** The first `n` runs find something, and none after them. */
  function First(n: nat): nat -> bool {
    k => k < n
  }

  /** With no score at all every find doubles the stage: from the `i`-th of these finds on. */
  lemma {:induction false} LengthWithoutScore(i: nat, stageMax: nat, n: nat)
    requires i <= n && 1 <= stageMax && stageMax * Pow2(n) < S32
    ensures Quiet(First(n), n) && i < stageMax * Pow2(i) <= stageMax * Pow2(n)
    ensures StageRuns(i, stageMax * Pow2(i), 0, First(n), n) == stageMax * Pow2(n)
    decreases n - i
  {
    Growing(stageMax, i);
    PowGrows(i, n);
    AtMost(stageMax, Pow2(i), Pow2(n));
    if i == n {
      LengthWithoutFinds(n, stageMax * Pow2(n), 0, First(n), n);
    } else {
      Twice(Pow2(i), stageMax);
      LengthWithoutScore(i + 1, stageMax, n);
    }
  }

  lemma {:induction false} Growing(stageMax: nat, i: nat)
    requires stageMax >= 1
    ensures i < stageMax * Pow2(i)
  {
    if i > 0 {
      Growing(stageMax, i - 1);
      Twice(Pow2(i - 1), stageMax);
    }
  }

  /** So for every number of finds there is a stage that they make longer so many times, as long as
      its length fits. */
  lemma NoScoreDoubles(stageMax: nat, n: nat) returns (news: nat -> bool)
    requires 1 <= stageMax && stageMax * Pow2(n) < 0x8000_0000
    ensures Quiet(news, n) && StageRuns(0, stageMax, 0, news, n) == stageMax * Pow2(n)
    ensures Finds(news, stageMax * Pow2(n)) == n
  {
    news := First(n);
    LengthWithoutScore(0, stageMax, n);
    Growing(stageMax, n);
    AllFinds(n, stageMax * Pow2(n));
  }

  lemma {:induction false} AllFinds(n: nat, k: nat)
    ensures Finds(First(n), k) == if k <= n then k else n
  {
    if k > 0 {
      AllFinds(n, k - 1);
    }
  }

  /** One find more, and the stage is over long before: the first length that does not fit ends it. */
  lemma {:induction false} TooLongEnds(i: nat, stageMax: nat, n: nat)
    requires i < n && 1 <= stageMax && stageMax * Pow2(n - 1) < 0x8000_0000 <= stageMax * Pow2(n)
    ensures Quiet(First(n), n) && i < stageMax * Pow2(i) < S32
    ensures StageRuns(i, stageMax * Pow2(i), 0, First(n), n) == n
    decreases n - i
  {
    Growing(stageMax, i);
    PowGrows(i, n - 1);
    AtMost(stageMax, Pow2(i), Pow2(n - 1));
    Twice(Pow2(i), stageMax);
    if i < n - 1 {
      TooLongEnds(i + 1, stageMax, n);
    }
  }

  /** The least planned length is 16: 26 finds in a row make it a billion runs, and 27 end it. */
  lemma SixteenRuns() returns (news: nat -> bool, more: nat -> bool)
    ensures Quiet(news, 26) && StageRuns(0, 16, 0, news, 26) == 0x4000_0000
    ensures Quiet(more, 27) && StageRuns(0, 16, 0, more, 27) == 27
  {
    SmallPowers();
    PowSum(8, 8);
    PowSum(16, 8);
    PowSum(24, 2);
    PowSum(24, 3);
    news := NoScoreDoubles(16, 26);
    more := First(27);
    TooLongEnds(0, 16, 27);
  }

  // ---- Splicing ----

  ghost predicate Located(a: seq<byte>, b: seq<byte>, len: nat, first: int, last: int)
    requires len <= |a| && len <= |b|
  {
    if a[..len] == b[..len] then first == -1 && last == -1
    else
      && 0 <= first <= last < len && a[first] != b[first] && a[last] != b[last]
      && a[..first] == b[..first] && a[last + 1..len] == b[last + 1..len]
  }

  /** The first and the last place where two buffers differ, or -1. */
  method LocateDiffs(a: seq<byte>, b: seq<byte>, len: nat) returns (first: int, last: int)
    requires len <= |a| && len <= |b|
    ensures Located(a, b, len, first, last)
  {
    first, last := -1, -1;
    for pos := 0 to len
      invariant first == -1 <==> last == -1
      invariant first == -1 ==> a[..pos] == b[..pos]
      invariant first != -1 ==> 0 <= first <= last < pos && a[first] != b[first] && a[last] != b[last]
      invariant first != -1 ==> a[..first] == b[..first]
      invariant forall k | last < k < pos :: a[k] == b[k]
    {
      if a[pos] != b[pos] {
        if first == -1 {
          first := pos;
        }
        last := pos;
      }
    }
  }

  function Spliced(a: seq<byte>, b: seq<byte>, at: nat): seq<byte>
    requires at <= |a| && at <= |b|
  {
    a[..at] + b[at..]
  }

  ghost predicate DifferAt(a: seq<byte>, b: seq<byte>, i: nat) {
    i < |a| && i < |b| && a[i] != b[i]
  }

  /** Two differences, the later one beyond the first two bytes. */
  ghost predicate CanSplice(a: seq<byte>, b: seq<byte>) {
    exists i: nat, j: nat :: i < j && j >= 2 && DifferAt(a, b, i) && DifferAt(a, b, j)
  }

  /** The head of one input and the tail of another, cut between their first and last
      difference; nothing exactly if they hardly differ. */
  method Splice(a: seq<byte>, b: seq<byte>) returns (r: seq<byte>, at: nat)
    ensures r != [] <==> CanSplice(a, b)
    ensures r != [] ==> at <= |a| && at <= |b| && r == Spliced(a, b, at) && |r| == |b|
    ensures r != [] ==> exists i: nat :: i <= at && DifferAt(a, b, i)
    ensures r != [] ==> exists j: nat :: j > at && DifferAt(a, b, j)
    ensures r != [] ==> at < |a| && a[..Min(|a|, |b|)] != r[..Min(|a|, |b|)]
    ensures r != [] ==> (r == b <==> a[..at] == b[..at])
  {
    var len := Min(|a|, |b|);
    var first, last := LocateDiffs(a, b, len);
    if first < 0 || last < 2 || first == last {
      HardlyDiffer(a, b, len, first, last);
      return [], 0;
    }
    assert DifferAt(a, b, first) && DifferAt(a, b, last);
    var d := UR(last - first);
    at := first + d;
    r := a[..at] + b[at..];
    assert a[..len][last] != r[..len][last];
    if r == b {
      assert r[..at] == a[..at];
    }
  }

  lemma HardlyDiffer(a: seq<byte>, b: seq<byte>, len: nat, first: int, last: int)
    requires len == Min(|a|, |b|) && Located(a, b, len, first, last) && (first < 0 || last < 2 || first == last)
    ensures !CanSplice(a, b)
  {
    forall i: nat, j: nat | DifferAt(a, b, i) && DifferAt(a, b, j) ensures first <= i <= last && first <= j <= last {
      LocatesAll(a, b, len, first, last, i);
      LocatesAll(a, b, len, first, last, j);
    }
  }

  lemma LocatesAll(a: seq<byte>, b: seq<byte>, len: nat, first: int, last: int, i: nat)
    requires len == Min(|a|, |b|) && Located(a, b, len, first, last) && DifferAt(a, b, i)
    ensures 0 <= first <= i <= last
  {
    assert a[..len][i] != b[..len][i];
    SamePart(a, b, 0, first);
    SamePart(a, b, last + 1, len);
  }

  lemma SamePart(a: seq<byte>, b: seq<byte>, from: nat, to: nat)
    requires from <= to <= |a| && to <= |b| && a[from..to] == b[from..to]
    ensures forall k: nat | from <= k < to :: !DifferAt(a, b, k)
  {
    forall k: nat | from <= k < to ensures a[k] == b[k] {
      assert a[from..to][k - from] == b[from..to][k - from];
    }
  }

  /** The result is the second input exactly when the cut is at the first difference. */
  lemma SpliceIsNew(a: seq<byte>, b: seq<byte>, first: nat, at: nat)
    requires first <= at <= |a| && at <= |b| && a[..first] == b[..first]
    requires first < |a| && first < |b| && a[first] != b[first]
    ensures Spliced(a, b, at) == b <==> at == first
  {
    if at == first {
      assert Spliced(a, b, at) == b[..first] + b[first..] == b;
    } else {
      assert Spliced(a, b, at)[first] == a[first];
    }
  }

  /** Two inputs whose splice, cut where they first differ, is the second one again. */
  lemma SpliceIsOld(a: seq<byte>, b: seq<byte>)
    requires a == [1, 2, 3, 4] && b == [1, 9, 9, 9]
    ensures Spliced(a, b, 1) == b && Spliced(a, b, 2) != b
  {
    SpliceIsNew(a, b, 1, 1);
    SpliceIsNew(a, b, 1, 2);
  }
}
