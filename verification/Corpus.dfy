/** The corpus of afl-fuzz: the queue, the best entry for every tuple, and the favored entries.

    An entry's trace is taken to be the same each time it is scored; see update_bitmap_score(). */
module Corpus {
  import opened Bytes
  import opened Options
  import opened PackedBits
  import Trimming

  class QueueEntry {
    const depth: nat
    var len: nat
    var execUs: nat
    var tcRef: nat
    var traceMini: Option<seq<byte>>
    var favored: bool
    var wasFuzzed: bool
    var fsRedundant: bool
    var calFailed: nat
    ghost var scored: bool     // update_bitmap_score() has been called for this entry
    ghost var hits: set<nat>   // the tuples it hits, once scored

    constructor (len: nat, depth: nat)
      ensures this.len == len && this.depth == depth && execUs == 0 && tcRef == 0 && traceMini == None
      ensures !favored && !wasFuzzed && !fsRedundant && calFailed == 0 && !scored && hits == {}
    {
      this.len, this.depth := len, depth;
      execUs, tcRef, traceMini, calFailed := 0, 0, None, 0;
      favored, wasFuzzed, fsRedundant := false, false, false;
      scored, hits := false, {};
    }

    // Speed times size: the lower the better.
    function Factor(): nat
      reads this`execUs, this`len
    {
      execUs * len
    }

    // The bookkeeping of an entry that holds n slots: the packed trace is kept exactly while n > 0.
    ghost predicate Refs(mapSize: nat, n: nat)
      reads this`tcRef, this`traceMini, this`hits
    {
      && tcRef == n
      && (traceMini.Some? <==> n > 0)
      && (traceMini.Some? ==> Packs(traceMini.value, mapSize, hits))
    }

    // Lose a slot: drop the packed trace with the last one.
    method Release(ghost mapSize: nat, ghost n: nat)
      requires Refs(mapSize, n) && n > 0
      modifies this`tcRef, this`traceMini
      ensures Refs(mapSize, n - 1)
    {
      tcRef := tcRef - 1;
      if tcRef == 0 {
        traceMini := None;
      }
    }

    // Win a slot: pack the current trace unless a packed one is kept.
    method Hold(mapSize: nat, trace: array<byte>, ghost n: nat)
      requires Refs(mapSize, n) && mapSize % 8 == 0 && mapSize <= trace.Length
      requires HitSet(trace[..mapSize]) == hits
      modifies this`tcRef, this`traceMini
      ensures Refs(mapSize, n + 1)
    {
      tcRef := tcRef + 1;
      if traceMini.None? {
        var mini := MinimizeBits(trace, mapSize);
        traceMini := Some(mini[..]);
      }
    }
  }

  // The parts of the invariant are stated under these guards, so that a proof sees only the parts
  // that it asks for, and carries the others along unread.
  ghost predicate SeeValid(k: int) { true }
  ghost predicate SeeSlots(k: int) { true }
  ghost predicate SeeRefs(k: int) { true }
  ghost predicate SeeBest(k: int) { true }
  ghost predicate SeeFlags(k: int) { true }
  ghost predicate SeeCover(k: int) { true }
  ghost predicate SeeDepth(k: int) { true }
  ghost predicate SeeHits(k: int) { true }
  ghost predicate SeeGreedy(k: int) { true }
  ghost predicate SeePick(k: int) { true }

  // The slots that e holds.
  ghost function Held(top: seq<QueueEntry?>, e: QueueEntry): set<nat> {
    set i: nat | i < |top| && top[i] == e
  }

  class Corpus {
    const mapSize: nat
    const topRated: array<QueueEntry?>
    const dumbMode: bool
    var queue: seq<QueueEntry>
    var maxDepth: nat
    var scoreChanged: bool
    var queuedPaths: nat
    var queuedFavored: nat
    var pendingFavored: nat
    var pendingNotFuzzed: nat
    ghost var favored: set<QueueEntry>
    ghost var unfuzzed: set<QueueEntry>

    constructor (mapSize: nat, dumbMode: bool)
      requires mapSize % 8 == 0
      ensures this.mapSize == mapSize && this.dumbMode == dumbMode && queue == [] && Inv() && fresh(topRated)
    {
      this.mapSize, this.dumbMode := mapSize, dumbMode;
      topRated := new QueueEntry?[mapSize](_ => null);
      queue, maxDepth, scoreChanged := [], 0, false;
      queuedPaths, queuedFavored, pendingFavored, pendingNotFuzzed := 0, 0, 0, 0;
      favored, unfuzzed := {}, {};
    }

    // The invariant of every run, between steps.
    ghost predicate Inv()
      reads this, topRated, queue, favored
    {
      Valid(null) && CountsOk() && CoverOk() && DepthOk()
    }

    // The greatest depth of the entries.
    ghost predicate DepthOk()
      reads this`queue, this`maxDepth
    {
      forall k | SeeDepth(k) ::
        && (forall e | e in queue :: e.depth <= maxDepth)
        && (maxDepth > 0 ==> exists e | e in queue :: e.depth == maxDepth)
    }

    // The favored and the unfuzzed entries of the queue.
    ghost predicate FlagsOk()
      reads this`queue, this`favored, this`unfuzzed, queue`favored, queue`wasFuzzed
    {
      forall k | SeeFlags(k) ::
        && (forall e | e in queue :: (e.favored <==> e in favored) && (e.wasFuzzed <==> e !in unfuzzed))
        && (forall e | e in favored :: e in queue)
        && (forall e | e in unfuzzed :: e in queue)
    }

    ghost predicate Distinct()
      reads this`queue
    {
      forall k | SeeFlags(k) :: forall i, j :: 0 <= i < j < |queue| ==> queue[i] != queue[j]
    }

    // The counters are what their names say.
    ghost predicate CountsOk()
      reads this, queue`favored, queue`wasFuzzed
    {
      && FlagsOk() && Distinct()
      && queuedPaths == |queue|
      && queuedFavored == |favored|
      && pendingFavored == |favored * unfuzzed|
      && pendingNotFuzzed == |unfuzzed|
    }

    // Unless a slot has changed hands since, some favored entry hits each tuple that has a holder.
    ghost predicate CoverOk()
      requires Shape()
      reads this`scoreChanged, this`favored, topRated, favored`hits
    {
      !scoreChanged ==> Covers()
    }

    ghost predicate Covers()
      requires Shape()
      reads this`favored, topRated, favored`hits
    {
      forall k | SeeCover(k) :: forall i: nat | i < mapSize && topRated[i] != null :: CoveredBy(favored, i)
    }

    ghost predicate Shape() {
      mapSize % 8 == 0 && topRated.Length == mapSize
    }

    // Whoever holds a slot is a scored entry of the queue that hits its tuple.
    ghost predicate SlotsOk()
      requires Shape()
      reads this`queue, topRated, queue`scored, queue`hits
    {
      forall k | SeeSlots(k) ::
        && (forall i: nat | i < mapSize && topRated[i] != null ::
              topRated[i] in queue && topRated[i].scored && i in topRated[i].hits)
        && (forall e | e in queue && !e.scored :: e.hits == {})
    }

    // tc_ref is the number of slots held, for every entry.
    ghost predicate RefsOk(top: seq<QueueEntry?>)
      reads this`queue, queue`tcRef, queue`traceMini, queue`hits
    {
      forall k | SeeRefs(k) :: forall e | e in queue :: e.Refs(mapSize, |Held(top, e)|)
    }

    // Every tuple that a scored entry hits has a holder at least as good as that entry.
    ghost predicate BestOk(except: QueueEntry?)
      requires Shape()
      reads this`queue, topRated, queue`scored, queue`hits, queue`execUs, queue`len
    {
      BestIn(except, topRated[..])
    }
    // All of it, for every entry but one whose factor is being changed.
    ghost predicate Valid(except: QueueEntry?)
      reads this`queue, topRated
      reads queue`scored, queue`hits, queue`execUs, queue`len, queue`tcRef, queue`traceMini
    {
      Shape() && forall k | SeeValid(k) :: SlotsOk() && RefsOk(topRated[..]) && BestOk(except)
    }

    // q becomes the holder of slot i.
    method TakeSlot(q: QueueEntry, i: nat, trace: array<byte>)
      requires Shape() && SlotsOk() && RefsOk(topRated[..])
      requires q in queue && q.scored && i < mapSize && i in q.hits
      requires trace.Length >= mapSize && HitSet(trace[..mapSize]) == q.hits
      modifies topRated, queue`tcRef, queue`traceMini
      ensures SlotsOk() && RefsOk(topRated[..])
      ensures topRated[..] == old(topRated[..])[i := q]
    {
      ghost var top := topRated[..];
      ghost var after := top[i := q];
      assert SeeSlots(0) && SeeRefs(0);
      HeldCounts(top, i, q, queue);
      assert SlotsLeft(top, i, q, q);
      var prev := topRated[i];
      if prev != null {
        prev.Release(mapSize, |Held(top, prev)|);
      }
      q.Hold(mapSize, trace, |Held(after, q)| - 1);
      topRated[i] := q;
      assert topRated[..] == after;
    }

    // Score q, whose trace is in the buffer: it takes every slot that it hits whose holder is no
    // better, its own included.
    method UpdateBitmapScore(q: QueueEntry, trace: array<byte>)
      requires Valid(q) && q in queue && mapSize <= trace.Length
      requires q.scored ==> HitSet(trace[..mapSize]) == q.hits
      modifies this`scoreChanged, topRated, queue`tcRef, queue`traceMini, q`scored, q`hits
      ensures Valid(null)
      ensures q.scored && q.hits == HitSet(trace[..mapSize])
      ensures forall i: nat | i < mapSize :: i in q.hits <==> trace[i] != 0
      ensures forall i: nat | i < mapSize ::
                var p := old(topRated[..])[i];
                topRated[i] == if i in q.hits && (p == null || q.execUs * q.len <= p.execUs * p.len) then q else p
      ensures scoreChanged == (old(scoreChanged) || exists i: nat | i < mapSize :: Takes(old(topRated[..])[i], q, i))
    {
      StartScoring(q, trace);
      assert SeeValid(0);
      ghost var top, taken := topRated[..], TakenBy(q);
      ScoreSlots(q, trace, taken);
      assert forall i: nat | i < mapSize :: Takes(top[i], q, i) <==> i in taken;
      BestAfter(q, top);
    }

    method ScoreSlots(q: QueueEntry, trace: array<byte>, ghost taken: set<nat>)
      requires Shape() && SlotsOk() && RefsOk(topRated[..])
      requires q in queue && q.scored && mapSize <= trace.Length && q.hits == HitSet(trace[..mapSize])
      requires taken == TakenBy(q)
      modifies this`scoreChanged, topRated, queue`tcRef, queue`traceMini
      ensures SlotsOk() && RefsOk(topRated[..])
      ensures topRated[..] == Retaken(old(topRated[..]), taken, q, mapSize)
      ensures scoreChanged == (old(scoreChanged) || taken != {})
    {
      ghost var top := topRated[..];
      for i := 0 to mapSize
        invariant SlotsOk() && RefsOk(topRated[..])
        invariant topRated[..] == Retaken(top, taken, q, i)
        invariant scoreChanged == (old(scoreChanged) || exists k: nat | k < i :: k in taken)
      {
        assert topRated[i] == topRated[..][i] == top[i];
        ScoreSlot(q, i, trace, i in taken);
      }
      assert forall k | k in taken :: k < mapSize;
    }

    // The slots that q would take.
    ghost function TakenBy(q: QueueEntry): set<nat>
      requires Shape()
      reads this, topRated, q, set i: nat | i < mapSize && topRated[i] != null :: topRated[i]
    {
      set i: nat | i < mapSize && i in q.hits && (topRated[i] == null || q.Factor() <= topRated[i].Factor())
    }

    method ScoreSlot(q: QueueEntry, i: nat, trace: array<byte>, ghost take: bool)
      requires Shape() && SlotsOk() && RefsOk(topRated[..]) && i < mapSize
      requires q in queue && q.scored && mapSize <= trace.Length && q.hits == HitSet(trace[..mapSize])
      requires take <==> i in q.hits && (topRated[i] == null || q.Factor() <= topRated[i].Factor())
      modifies this`scoreChanged, topRated, queue`tcRef, queue`traceMini
      ensures SlotsOk() && RefsOk(topRated[..])
      ensures topRated[..] == if take then old(topRated[..])[i := q] else old(topRated[..])
      ensures scoreChanged == (old(scoreChanged) || take)
    {
      assert trace[..mapSize][i] == trace[i];
      assert SeeSlots(0);
      if trace[i] != 0 {
        var prev := topRated[i];
        if prev == null || q.Factor() <= prev.Factor() {
          TakeSlot(q, i, trace);
          scoreChanged := true;
        }
      }
    }

    // Fix the trace of q at its first scoring.
    ghost method StartScoring(q: QueueEntry, trace: array<byte>)
      requires Valid(q) && q in queue && mapSize <= trace.Length
      requires q.scored ==> HitSet(trace[..mapSize]) == q.hits
      modifies q`scored, q`hits
      ensures Valid(q) && q.scored && q.hits == HitSet(trace[..mapSize])
    {
      assert SeeValid(0) && SeeSlots(0) && SeeRefs(0) && SeeBest(0);
      if !q.scored {
        assert Held(topRated[..], q) == {};
      }
      q.scored, q.hits := true, HitSet(trace[..mapSize]);
    }

    // calibrate_case(): the run was aborted, or it gives the entry its speed and its score.
    method Calibrate(q: QueueEntry, ok: bool, execUs: nat, trace: array<byte>)
      requires Inv() && q in queue && !q.scored && mapSize <= trace.Length
      modifies this`scoreChanged, topRated, queue`tcRef, queue`traceMini
      modifies q`scored, q`hits, q`calFailed, q`execUs, q`len
      ensures Inv() && q.scored == ok
      ensures q.len == old(q.len)
      ensures if ok then q.calFailed == 0 && q.execUs == execUs && q.hits == HitSet(trace[..mapSize])
              else q.calFailed == old(q.calFailed) + 1 && topRated[..] == old(topRated[..])
    {
      q.calFailed := q.calFailed + 1;
      if ok {
        GiveSpeed(q, execUs, trace);
      }
    }

    method GiveSpeed(q: QueueEntry, execUs: nat, trace: array<byte>)
      requires Inv() && q in queue && !q.scored && mapSize <= trace.Length
      modifies this`scoreChanged, topRated, queue`tcRef, queue`traceMini
      modifies q`scored, q`hits, q`calFailed, q`execUs, q`len
      ensures Inv() && q.scored && q.len == old(q.len)
      ensures q.calFailed == 0 && q.execUs == execUs && q.hits == HitSet(trace[..mapSize])
    {
      ChangeFactor(q, execUs, q.len);
      q.calFailed := 0;
      Rescore(q, trace);
    }

    // Give q another speed or size. Until it is scored again, only its own claims are in doubt.
    method ChangeFactor(q: QueueEntry, execUs: nat, len: nat)
      requires Valid(null) && q in queue && (q.scored ==> execUs * len <= q.Factor())
      modifies q`execUs, q`len
      ensures Valid(q) && q.execUs == execUs && q.len == len
    {
      assert SeeValid(0) && SeeSlots(0) && SeeBest(0);
      q.execUs, q.len := execUs, len;
    }

    // update_bitmap_score(), keeping the rest of the invariant.
    method Rescore(q: QueueEntry, trace: array<byte>)
      requires Valid(q) && CountsOk() && CoverOk() && DepthOk() && q in queue && mapSize <= trace.Length
      requires q.scored ==> HitSet(trace[..mapSize]) == q.hits
      modifies this`scoreChanged, topRated, queue`tcRef, queue`traceMini, q`scored, q`hits
      ensures Inv() && q.scored && q.hits == HitSet(trace[..mapSize])
    {
      assert !q.scored ==> q.hits == {} by {
        assert SeeValid(0) && SeeSlots(0);
      }
      label before:
      UpdateBitmapScore(q, trace);
      if !scoreChanged {
        StillCovered@before(q);
      }
    }

    // With no slot taken and no hit lost, whatever was covered still is.
    twostate lemma StillCovered(q: QueueEntry)
      requires Shape() && queue == old(queue) && favored == old(favored) && topRated[..] == old(topRated[..])
      requires old(Covers()) && forall e | e in favored :: old(allocated(e)) && old(e.hits) <= e.hits
      ensures Covers()
    {
      assert SeeCover(0);
      forall i: nat | i < mapSize && topRated[i] != null
        ensures CoveredBy(favored, i)
      {
        assert old(topRated[i]) != null;
        var e :| e in favored && i in old(e.hits);
        assert i in e.hits;
      }
    }

    // add_to_queue().
    method AddToQueue(len: nat, curDepth: nat) returns (q: QueueEntry)
      requires Inv()
      modifies this`queue, this`maxDepth, this`queuedPaths, this`pendingNotFuzzed, this`unfuzzed
      ensures Inv() && fresh(q) && queue == old(queue) + [q] && q.len == len && !q.scored && !q.wasFuzzed
      ensures q.depth == curDepth + 1 && maxDepth == Max(old(maxDepth), q.depth)
      ensures pendingNotFuzzed == old(pendingNotFuzzed) + 1 && scoreChanged == old(scoreChanged)
    {
      q := new QueueEntry(len, curDepth + 1);
      Enqueue(q);
    }

    method Enqueue(q: QueueEntry)
      requires Inv() && q !in queue
      requires !q.favored && !q.wasFuzzed && !q.scored && q.hits == {} && q.tcRef == 0 && q.traceMini == None
      modifies this`queue, this`maxDepth, this`queuedPaths, this`pendingNotFuzzed, this`unfuzzed
      ensures Inv() && queue == old(queue) + [q] && pendingNotFuzzed == old(pendingNotFuzzed) + 1
      ensures maxDepth == Max(old(maxDepth), q.depth)
    {
      NewcomerIsNew(q);
      label added:
      if q.depth > maxDepth {
        maxDepth := q.depth;
      }
      AppendEntry(q);
      ValidWithNewcomer@added(q);
      DepthWithNewcomer@added(q);
    }

    method AppendEntry(q: QueueEntry)
      requires CountsOk() && q !in queue && q !in favored && q !in unfuzzed && !q.favored && !q.wasFuzzed
      modifies this`queue, this`queuedPaths, this`pendingNotFuzzed, this`unfuzzed
      ensures CountsOk() && queue == old(queue) + [q] && pendingNotFuzzed == old(pendingNotFuzzed) + 1
    {
      label added:
      queue := queue + [q];
      queuedPaths := queuedPaths + 1;
      pendingNotFuzzed := pendingNotFuzzed + 1;
      unfuzzed := unfuzzed + {q};
      FlagsWithNewcomer@added(q);
      assert favored * unfuzzed == old(favored * unfuzzed);
    }

    twostate lemma DepthWithNewcomer(q: QueueEntry)
      requires old(DepthOk()) && queue == old(queue) + [q] && maxDepth == Max(old(maxDepth), q.depth)
      ensures DepthOk()
    {
      assert SeeDepth(0);
      assert q in queue && forall e | e in old(queue) :: e in queue;
    }

    lemma NewcomerIsNew(q: QueueEntry)
      requires Inv() && q !in queue
      ensures q !in favored && q !in unfuzzed && forall i: nat | i < mapSize :: topRated[i] != q
    {
      assert SeeValid(0) && SeeSlots(0) && SeeFlags(0);
    }

    twostate lemma ValidWithNewcomer(q: QueueEntry)
      requires old(Valid(null)) && queue == old(queue) + [q] && q !in old(queue)
      requires unchanged(old(queue)) && unchanged(q) && unchanged(topRated)
      requires !q.scored && q.hits == {} && q.tcRef == 0 && q.traceMini == None
      requires forall i: nat | i < mapSize :: topRated[i] != q
      ensures Valid(null)
    {
      assert SeeValid(0) && SeeSlots(0) && SeeRefs(0) && SeeBest(0);
      assert Held(topRated[..], q) == {};
      assert topRated[..] == old(topRated[..]);
    }

    twostate lemma FlagsWithNewcomer(q: QueueEntry)
      requires old(FlagsOk() && Distinct()) && queue == old(queue) + [q] && q !in old(queue)
      requires unchanged(old(queue)) && unchanged(q) && !q.favored && !q.wasFuzzed
      requires favored == old(favored) && unfuzzed == old(unfuzzed) + {q} && q !in favored
      ensures FlagsOk() && Distinct()
    {
      assert SeeFlags(0);
    }

    // trim_case() on a scored entry; exec is the target, traced and classified, and execCksum the
    // trace that the entry's calibration recorded.
    method TrimCase(q: QueueEntry, inBuf: array<byte>, exec: seq<byte> -> seq<byte>, execCksum: seq<byte>,
                    trace: array<byte>)
      requires Inv() && q in queue && q.scored && q.len == inBuf.Length
      requires trace.Length == mapSize == |execCksum| && trace != inBuf && HitSet(execCksum) == q.hits
      modifies inBuf, trace, this`scoreChanged, topRated, queue`tcRef, queue`traceMini
      modifies q`len, q`execUs, q`scored, q`hits
      ensures Inv() && q.scored && q.hits == old(q.hits) && q.execUs == old(q.execUs) && q.len <= inBuf.Length
      ensures inBuf[..q.len] == Trimming.Trimmed(s => exec(s) == execCksum, old(inBuf[..]))
    {
      var samePath := (s: seq<byte>) => exec(s) == execCksum;
      assert inBuf[..inBuf.Length] == inBuf[..];
      var len := Trimming.Trim(samePath, inBuf, q.len);
      if len != q.len {
        RecordTrace(trace, execCksum);
        Shrink(q, len, trace);
      }
    }

    method RecordTrace(trace: array<byte>, recorded: seq<byte>)
      requires trace.Length == |recorded| == mapSize
      modifies trace
      ensures trace[..mapSize] == recorded
    {
      forall i | 0 <= i < mapSize {
        trace[i] := recorded[i];
      }
    }

    method Shrink(q: QueueEntry, len: nat, trace: array<byte>)
      requires Inv() && q in queue && q.scored && len <= q.len
      requires mapSize <= trace.Length && HitSet(trace[..mapSize]) == q.hits
      modifies this`scoreChanged, topRated, queue`tcRef, queue`traceMini
      modifies q`len, q`execUs, q`scored, q`hits
      ensures Inv() && q.scored && q.hits == old(q.hits) && q.execUs == old(q.execUs) && q.len == len
    {
      Shorter(q.execUs, len, q.len);
      ChangeFactor(q, q.execUs, len);
      Rescore(q, trace);
    }

    // The end of fuzz_one(): count an entry as fuzzed the first time.
    method FinishFuzzing(q: QueueEntry)
      requires Inv() && q in queue
      modifies this`pendingNotFuzzed, this`pendingFavored, this`unfuzzed, q`wasFuzzed
      ensures Inv() && q.wasFuzzed == (old(q.wasFuzzed) || q.calFailed == 0)
    {
      if q.calFailed == 0 && !q.wasFuzzed {
        CountFuzzed(q);
      }
    }

    method CountFuzzed(q: QueueEntry)
      requires CountsOk() && q in queue && !q.wasFuzzed
      modifies this`pendingNotFuzzed, this`pendingFavored, this`unfuzzed, q`wasFuzzed
      ensures CountsOk() && q.wasFuzzed
    {
      FuzzedCounts(q);
      MarkFuzzed(q);
      pendingNotFuzzed := pendingNotFuzzed - 1;
      if q.favored {
        pendingFavored := pendingFavored - 1;
      }
    }

    method MarkFuzzed(q: QueueEntry)
      requires FlagsOk() && q in queue
      modifies this`unfuzzed, q`wasFuzzed
      ensures FlagsOk() && q.wasFuzzed && unfuzzed == old(unfuzzed) - {q}
    {
      assert SeeFlags(0);
      q.wasFuzzed := true;
      unfuzzed := unfuzzed - {q};
    }

    lemma FuzzedCounts(q: QueueEntry)
      requires CountsOk() && q in queue && !q.wasFuzzed
      ensures q.favored <==> q in favored
      ensures pendingNotFuzzed > 0 && |unfuzzed - {q}| == pendingNotFuzzed - 1
      ensures q.favored ==> pendingFavored > 0
      ensures |favored * (unfuzzed - {q})| == if q.favored then pendingFavored - 1 else pendingFavored
    {
      assert SeeFlags(0);
      assert q in unfuzzed;
      if q.favored {
        assert q in favored * unfuzzed;
        assert favored * (unfuzzed - {q}) == favored * unfuzzed - {q};
      } else {
        assert favored * (unfuzzed - {q}) == favored * unfuzzed;
      }
    }

    /** What a reader of the invariant gets: with no slot changed since the last culling, every tuple
        that any scored entry hits is hit by some favored entry. */
    lemma FavoredCoverAll(e: QueueEntry, i: nat)
      requires Inv() && !scoreChanged && e in queue && e.scored && i in e.hits
      ensures exists f :: f in queue && f.favored && i in f.hits
    {
      assert SeeValid(0) && SeeBest(0) && SeeCover(0) && SeeFlags(0);
      assert CoveredBy(favored, i);
    }

    /** And of the slots: the holder is the best of the scored entries that hit the tuple, counts
        exactly its slots, and keeps a packed trace in which the tuple is marked. */
    lemma HolderIsBest(i: nat)
      requires Inv() && i < mapSize && topRated[i] != null
      ensures var q := topRated[i];
                && q in queue && q.scored && i in q.hits
                && (forall e | e in queue && e.scored && i in e.hits :: q.execUs * q.len <= e.execUs * e.len)
                && q.tcRef == |Held(topRated[..], q)|
                && q.traceMini.Some? && Marked(q.traceMini.value, i)
    {
      assert SeeValid(0) && SeeSlots(0) && SeeRefs(0) && SeeBest(0);
      assert i in Held(topRated[..], topRated[i]);
    }

    // Every slot kept or taken is held by someone no worse than before, and q is no better than
    // any holder of a slot that it hits.
    lemma BestAfter(q: QueueEntry, top: seq<QueueEntry?>)
      requires Shape() && SlotsOk() && q.scored && q in queue && |top| == mapSize
      requires forall i: nat | i < mapSize :: topRated[i] == if Takes(top[i], q, i) then q else top[i]
      requires BestIn(q, top) && forall i | i in q.hits :: i < mapSize
      ensures BestOk(null)
    {
      assert SeeSlots(0) && SeeBest(0);
    }

    ghost predicate BestIn(except: QueueEntry?, top: seq<QueueEntry?>)
      requires |top| == mapSize
      reads this`queue, queue`scored, queue`hits, queue`execUs, queue`len
    {
      forall k | SeeBest(k) :: forall e, i | e in queue && e != except && e.scored && i in e.hits ::
        i < mapSize && top[i] != null && top[i] in queue && top[i].Factor() <= e.Factor()
    }

    // ---------------------------------------------------------- cull_queue()

    ghost predicate HitsAre(hitsOf: map<QueueEntry, set<nat>>)
      reads this`queue, queue`hits
    {
      forall k | SeeHits(k) :: forall e | e in queue :: e in hitsOf && e.hits == hitsOf[e]
    }

    method CullQueue(ghost hitsOf: map<QueueEntry, set<nat>>)
      requires Inv() && HitsAre(hitsOf)
      modifies this`scoreChanged, this`queuedFavored, this`pendingFavored, this`favored
      modifies queue`favored, queue`fsRedundant
      ensures Inv() && (dumbMode || !scoreChanged)
      ensures if dumbMode || !old(scoreChanged) then favored == old(favored)
              else favored == Greedy(topRated[..], hitsOf, 0, {})
      ensures !dumbMode && old(scoreChanged) ==> forall e | e in queue :: e.fsRedundant == !e.favored
    {
      if dumbMode || !scoreChanged {
        return;
      }
      CullChanged(hitsOf);
    }

    method CullChanged(ghost hitsOf: map<QueueEntry, set<nat>>)
      requires Valid(null) && CountsOk() && HitsAre(hitsOf)
      modifies this`scoreChanged, this`queuedFavored, this`pendingFavored, this`favored
      modifies queue`favored, queue`fsRedundant
      ensures CountsOk() && CoverOk() && !scoreChanged && favored == Greedy(topRated[..], hitsOf, 0, {})
      ensures forall e | e in queue :: e.fsRedundant == !e.favored
    {
      scoreChanged := false;
      HoldersAreOk(hitsOf);
      Recull(hitsOf);
    }

    method Recull(ghost hitsOf: map<QueueEntry, set<nat>>)
      requires Shape() && HoldersOk(hitsOf) && HitsAre(hitsOf) && FlagsOk()
      modifies this`queuedFavored, this`pendingFavored, this`favored, queue`favored, queue`fsRedundant
      ensures FlagsOk() && favored == Greedy(topRated[..], hitsOf, 0, {})
      ensures queuedFavored == |favored| && pendingFavored == |favored * unfuzzed|
      ensures Covers()
      ensures forall e | e in queue :: e.fsRedundant == !e.favored
    {
      queuedFavored, pendingFavored := 0, 0;
      ClearFavored();
      PickFavored(hitsOf);
      MarkRedundant();
    }

    method ClearFavored()
      requires FlagsOk()
      modifies this`favored, queue`favored
      ensures FlagsOk() && favored == {}
    {
      assert SeeFlags(0);
      for n := 0 to |queue|
        invariant forall j :: 0 <= j < n ==> !queue[j].favored
      {
        queue[n].favored := false;
      }
      favored := {};
    }

    method MarkRedundant()
      requires Shape() && FlagsOk() && Covers()
      modifies queue`fsRedundant
      ensures FlagsOk() && Covers()
      ensures forall e | e in queue :: e.fsRedundant == !e.favored
    {
      for n := 0 to |queue|
        invariant forall j :: 0 <= j < n ==> queue[j].fsRedundant == !queue[j].favored
      {
        queue[n].fsRedundant := !queue[n].favored;
      }
    }

    // What the pass needs to know of the holders.
    ghost predicate HoldersOk(hitsOf: map<QueueEntry, set<nat>>)
      requires Shape()
      reads this`queue, topRated, queue`hits, queue`traceMini
    {
      forall k | SeeSlots(k) :: forall i: nat | i < mapSize && topRated[i] != null ::
        var q := topRated[i];
        && q in queue && q in hitsOf && i in q.hits && q.hits == hitsOf[q]
        && q.traceMini.Some? && Packs(q.traceMini.value, mapSize, q.hits)
    }

    lemma HoldersAreOk(hitsOf: map<QueueEntry, set<nat>>)
      requires Valid(null) && HitsAre(hitsOf)
      ensures HoldersOk(hitsOf)
    {
      assert SeeValid(0) && SeeSlots(0) && SeeRefs(0) && SeeHits(0);
      forall i: nat | i < mapSize && topRated[i] != null
        ensures topRated[i].traceMini.Some?
      {
        assert i in Held(topRated[..], topRated[i]);
      }
    }

    // The pass over the slots: whoever holds one that is not covered yet becomes favored, and
    // covers all that it hits.
    method PickFavored(ghost hitsOf: map<QueueEntry, set<nat>>)
      requires Shape() && HoldersOk(hitsOf) && HitsAre(hitsOf)
      requires FlagsOk() && favored == {} && queuedFavored == 0 && pendingFavored == 0
      modifies this`queuedFavored, this`pendingFavored, this`favored, queue`favored
      ensures FlagsOk() && favored == Greedy(topRated[..], hitsOf, 0, {})
      ensures queuedFavored == |favored| && pendingFavored == |favored * unfuzzed|
      ensures Covers()
    {
      var temp := new byte[mapSize / 8](_ => 255);
      AllMarked(temp[..], mapSize);
      assert Below(mapSize) - {} == Below(mapSize);
      StartPicking(hitsOf);
      ghost var all := Greedy(topRated[..], hitsOf, 0, {});
      ghost var covered := PickAll(temp, hitsOf, all);
      EndPicking(covered, hitsOf, all);
    }

    method PickAll(temp: array<byte>, ghost hitsOf: map<QueueEntry, set<nat>>, ghost all: set<QueueEntry>)
        returns (ghost covered: set<nat>)
      requires Shape() && HoldersOk(hitsOf) && Packs(temp[..], mapSize, Below(mapSize) - {})
      requires Picking(0, {}, hitsOf) && PicksTo(topRated[..], hitsOf, 0, {}, favored, all)
      modifies temp, this`queuedFavored, this`pendingFavored, this`favored, queue`favored
      ensures Picking(mapSize, covered, hitsOf) && PicksTo(topRated[..], hitsOf, mapSize, covered, favored, all)
    {
      covered := {};
      ghost var top := topRated[..];
      for i := 0 to mapSize
        invariant HoldersOk(hitsOf) && topRated[..] == top && Packs(temp[..], mapSize, Below(mapSize) - covered)
        invariant Picking(i, covered, hitsOf) && PicksTo(top, hitsOf, i, covered, favored, all)
      {
        covered := PickSlot(i, temp, covered, hitsOf, all);
      }
    }

    lemma StartPicking(hitsOf: map<QueueEntry, set<nat>>)
      requires Shape() && HitsAre(hitsOf)
      requires FlagsOk() && favored == {} && queuedFavored == 0 && pendingFavored == 0
      ensures Picking(0, {}, hitsOf)
      ensures PicksTo(topRated[..], hitsOf, 0, {}, favored, Greedy(topRated[..], hitsOf, 0, {}))
    {
      assert SeeHits(0) && SeeCover(0) && SeeGreedy(0);
    }

    lemma EndPicking(covered: set<nat>, hitsOf: map<QueueEntry, set<nat>>, all: set<QueueEntry>)
      requires Shape() && Picking(mapSize, covered, hitsOf)
      requires PicksTo(topRated[..], hitsOf, mapSize, covered, favored, all)
      ensures FlagsOk() && favored == all && Covers()
      ensures queuedFavored == |favored| && pendingFavored == |favored * unfuzzed|
    {
      assert SeeGreedy(0) && SeePick(0);
      AllCovered(covered, hitsOf);
    }

    lemma AllCovered(covered: set<nat>, hitsOf: map<QueueEntry, set<nat>>)
      requires Shape() && Picking(mapSize, covered, hitsOf)
      ensures Covers()
    {
      assert SeePick(0) && SeeHits(0) && SeeFlags(0) && SeeCover(0);
      forall i: nat | i < mapSize && topRated[i] != null
        ensures CoveredBy(favored, i)
      {
        assert topRated[..][i] != null;
      }
    }

    method PickSlot(i: nat, temp: array<byte>, ghost covered: set<nat>, ghost hitsOf: map<QueueEntry, set<nat>>,
                    ghost all: set<QueueEntry>) returns (ghost after: set<nat>)
      requires Shape() && HoldersOk(hitsOf) && i < mapSize && Packs(temp[..], mapSize, Below(mapSize) - covered)
      requires Picking(i, covered, hitsOf) && PicksTo(topRated[..], hitsOf, i, covered, favored, all)
      modifies temp, this`queuedFavored, this`pendingFavored, this`favored, queue`favored
      ensures HoldersOk(hitsOf) && Packs(temp[..], mapSize, Below(mapSize) - after)
      ensures Picking(i + 1, after, hitsOf) && PicksTo(topRated[..], hitsOf, i + 1, after, favored, all)
    {
      after := covered;
      var q := topRated[i];
      ghost var top, before := topRated[..], favored;
      PickStep(top, hitsOf, i, covered, before, all);
      assert Marked(temp[..], i) <==> i in Below(mapSize) - covered;
      assert q != null ==> q in queue && q in hitsOf && i in q.hits && q.hits == hitsOf[q]
                           && q.traceMini.Some? && Packs(q.traceMini.value, mapSize, q.hits) by {
        assert SeeSlots(0);
      }
      if q != null && TestBit(temp[i / 8], i % 8) {
        RemoveBits(temp, q.traceMini.value, mapSize, Below(mapSize) - covered, q.hits);
        after := covered + q.hits;
        assert Below(mapSize) - after == Below(mapSize) - covered - q.hits;
        Pick(q, i, covered, hitsOf);
      } else {
        assert SeePick(0);
        CoveringNoMore(top, i, before, covered, hitsOf);
      }
    }

    method Pick(q: QueueEntry, i: nat, ghost covered: set<nat>, ghost hitsOf: map<QueueEntry, set<nat>>)
      requires Shape() && i < mapSize && topRated[i] == q && q in queue && i !in covered
      requires Picking(i, covered, hitsOf) && q in hitsOf && i in hitsOf[q]
      modifies this`queuedFavored, this`pendingFavored, this`favored, q`favored
      ensures Picking(i + 1, covered + hitsOf[q], hitsOf) && favored == old(favored) + {q}
    {
      assert SeePick(0);
      CoveringMore(topRated[..], i, favored, covered, hitsOf);
      OneMore(favored, unfuzzed, q);
      Favor(q);
    }

    // The state of the pass at slot i.
    ghost predicate Picking(i: nat, covered: set<nat>, hitsOf: map<QueueEntry, set<nat>>)
      requires Shape() && i <= mapSize
      reads this, topRated, queue`favored, queue`wasFuzzed, queue`hits
    {
      forall k | SeePick(k) ::
        && FlagsOk() && HitsAre(hitsOf)
        && Covering(topRated[..], i, favored, covered, hitsOf)
        && queuedFavored == |favored| && pendingFavored == |favored * unfuzzed|
    }

    method Favor(q: QueueEntry)
      requires q in queue && FlagsOk()
      modifies this`queuedFavored, this`pendingFavored, this`favored, q`favored
      ensures FlagsOk() && favored == old(favored) + {q}
      ensures queuedFavored == old(queuedFavored) + 1
      ensures pendingFavored == old(pendingFavored) + if q in unfuzzed then 1 else 0
    {
      assert SeeFlags(0);
      q.favored := true;
      favored := favored + {q};
      queuedFavored := queuedFavored + 1;
      if !q.wasFuzzed {
        pendingFavored := pendingFavored + 1;
      }
    }
  }

  lemma OneMore(s: set<QueueEntry>, t: set<QueueEntry>, q: QueueEntry)
    requires q !in s
    ensures |s + {q}| == |s| + 1
    ensures |(s + {q}) * t| == |s * t| + if q in t then 1 else 0
  {
    if q in t {
      assert (s + {q}) * t == s * t + {q};
    } else {
      assert (s + {q}) * t == s * t;
    }
  }

  // covered is what the entries picked so far hit, and includes every slot passed so far.
  ghost predicate Covering(top: seq<QueueEntry?>, i: nat, picked: set<QueueEntry>, covered: set<nat>,
                           hitsOf: map<QueueEntry, set<nat>>)
    requires i <= |top|
  {
    forall k | SeeCover(k) ::
      && (forall e | e in picked :: e in hitsOf && hitsOf[e] <= covered)
      && (forall x | x in covered :: exists e :: e in picked && e in hitsOf && x in hitsOf[e])
      && (forall j: nat | j < i && top[j] != null :: j in covered)
  }

  lemma CoveringMore(top: seq<QueueEntry?>, i: nat, picked: set<QueueEntry>, covered: set<nat>,
                     hitsOf: map<QueueEntry, set<nat>>)
    requires i < |top| && Covering(top, i, picked, covered, hitsOf)
    requires top[i] != null && top[i] in hitsOf && i in hitsOf[top[i]]
    ensures Covering(top, i + 1, picked + {top[i]}, covered + hitsOf[top[i]], hitsOf)
    ensures i !in covered ==> top[i] !in picked
  {
    assert SeeCover(0);
  }

  lemma CoveringNoMore(top: seq<QueueEntry?>, i: nat, picked: set<QueueEntry>, covered: set<nat>,
                       hitsOf: map<QueueEntry, set<nat>>)
    requires i < |top| && Covering(top, i, picked, covered, hitsOf) && (top[i] == null || i in covered)
    ensures Covering(top, i + 1, picked, covered, hitsOf)
  {
    assert SeeCover(0);
  }

  // A greedy cover: walking the tuples upwards, the holder of each one that is not covered yet.
  ghost function Greedy(top: seq<QueueEntry?>, hitsOf: map<QueueEntry, set<nat>>, i: nat,
                        covered: set<nat>): set<QueueEntry>
    requires i <= |top|
    decreases |top| - i
  {
    if i == |top| then {}
    else if top[i] != null && top[i] in hitsOf && i !in covered then
      {top[i]} + Greedy(top, hitsOf, i + 1, covered + hitsOf[top[i]])
    else Greedy(top, hitsOf, i + 1, covered)
  }

  /** The greedy choice without the walk: a slot is chosen exactly if it has a holder and no holder
      of a chosen slot below it hits its tuple; and the favored entries are the holders of these. */
  lemma GreedyExactly(top: seq<QueueEntry?>, hitsOf: map<QueueEntry, set<nat>>) returns (g: set<nat>)
    requires forall i: nat | i < |top| && top[i] != null :: top[i] in hitsOf
    ensures forall i | i in g :: i < |top| && top[i] != null
    ensures forall i: nat | i < |top| :: i in g <==> top[i] != null && !HitBelow(top, hitsOf, g, i)
    ensures forall e :: e in Greedy(top, hitsOf, 0, {}) <==> exists i | i in g :: top[i] == e
  {
    g := GreedyFrom(top, hitsOf, 0, {});
  }

  // A chosen slot below i has a holder that hits i.
  ghost predicate HitBelow(top: seq<QueueEntry?>, hitsOf: map<QueueEntry, set<nat>>, g: set<nat>, i: nat) {
    exists j | j in g :: j < i && j < |top| && top[j] != null && top[j] in hitsOf && i in hitsOf[top[j]]
  }

  lemma {:induction false} GreedyFrom(top: seq<QueueEntry?>, hitsOf: map<QueueEntry, set<nat>>, n: nat,
                                      covered: set<nat>) returns (g: set<nat>)
    requires n <= |top| && forall i: nat | i < |top| && top[i] != null :: top[i] in hitsOf
    ensures forall i | i in g :: n <= i < |top| && top[i] != null
    ensures forall i: nat | n <= i < |top| ::
              i in g <==> top[i] != null && i !in covered && !HitBelow(top, hitsOf, g, i)
    ensures forall e :: e in Greedy(top, hitsOf, n, covered) <==> exists i | i in g :: top[i] == e
    decreases |top| - n
  {
    if n == |top| {
      g := {};
    } else if top[n] != null && n !in covered {
      var r := GreedyFrom(top, hitsOf, n + 1, covered + hitsOf[top[n]]);
      g := {n} + r;
      assert !HitBelow(top, hitsOf, g, n);
      forall i: nat | n < i < |top|
        ensures HitBelow(top, hitsOf, g, i) <==> i in hitsOf[top[n]] || HitBelow(top, hitsOf, r, i)
      {
        assert n in g;
      }
    } else {
      g := GreedyFrom(top, hitsOf, n + 1, covered);
      assert !HitBelow(top, hitsOf, g, n);
    }
  }

  // What is picked, with what is still to be picked from slot i on, is all. (Under SeeGreedy, so that
  // only PickStep unfolds the recursion.)
  ghost predicate PicksTo(top: seq<QueueEntry?>, hitsOf: map<QueueEntry, set<nat>>, i: nat, covered: set<nat>,
                          picked: set<QueueEntry>, all: set<QueueEntry>)
  {
    i <= |top| && forall k | SeeGreedy(k) :: all == picked + Greedy(top, hitsOf, i, covered)
  }

  lemma PickStep(top: seq<QueueEntry?>, hitsOf: map<QueueEntry, set<nat>>, i: nat, covered: set<nat>,
                 picked: set<QueueEntry>, all: set<QueueEntry>)
    requires i < |top| && PicksTo(top, hitsOf, i, covered, picked, all)
    ensures if top[i] != null && top[i] in hitsOf && i !in covered
            then PicksTo(top, hitsOf, i + 1, covered + hitsOf[top[i]], picked + {top[i]}, all)
            else PicksTo(top, hitsOf, i + 1, covered, picked, all)
  {
    assert SeeGreedy(0);
    if top[i] != null && top[i] in hitsOf && i !in covered {
      assert picked + ({top[i]} + Greedy(top, hitsOf, i + 1, covered + hitsOf[top[i]]))
          == (picked + {top[i]}) + Greedy(top, hitsOf, i + 1, covered + hitsOf[top[i]]);
    }
  }

  ghost predicate CoveredBy(es: set<QueueEntry>, i: nat)
    reads es`hits
  {
    exists e | e in es :: i in e.hits
  }

  // Whether q takes slot i from its holder.
  ghost predicate Takes(holder: QueueEntry?, q: QueueEntry, i: nat)
    reads q, if holder == null then {} else {holder}
  {
    i in q.hits && (holder == null || q.execUs * q.len <= holder.execUs * holder.len)
  }

  // The first n slots given to q where they are taken.
  ghost function Retaken(top: seq<QueueEntry?>, taken: set<nat>, q: QueueEntry, n: nat): (r: seq<QueueEntry?>)
    requires n <= |top|
    ensures |r| == |top|
  {
    seq(|top|, i requires 0 <= i < |top| => if i < n && i in taken then q else top[i])
  }

  lemma HeldCounts(top: seq<QueueEntry?>, i: nat, q: QueueEntry, es: seq<QueueEntry>)
    requires i < |top|
    ensures forall e | e in es :: SlotsLeft(top, i, q, e)
  {
    forall e | e in es
      ensures SlotsLeft(top, i, q, e)
    {
      HeldCount(top, i, q, e);
    }
  }

  lemma HeldCount(top: seq<QueueEntry?>, i: nat, q: QueueEntry, e: QueueEntry)
    requires i < |top|
    ensures SlotsLeft(top, i, q, e)
  {
    var a, b := Held(top, e), Held(top[i := q], e);
    assert i in a <==> top[i] == e;
    if e == q {
      assert b == a + {i};
    } else {
      assert b == a - {i};
    }
  }

  lemma Shorter(us: nat, a: nat, b: nat)
    requires a <= b
    ensures us * a <= us * b
  {
  }

  // What giving slot i to q does to the number of slots that e holds.
  ghost predicate SlotsLeft(top: seq<QueueEntry?>, i: nat, q: QueueEntry, e: QueueEntry)
    requires i < |top|
  {
    && |Held(top[i := q], e)| == |Held(top, e)| + (if e == q then 1 else 0) - (if e == top[i] then 1 else 0)
    && (e == top[i] ==> |Held(top, e)| > 0)
  }
}
