/** The abusive allocator: each block ends where an unreadable page begins. */
module Dislocator {
  import opened Bytes
  import opened Options

  const PAGE := 4096
  const CANARY := 0xAACC_AACC
  const CLOBBER: byte := 0xCC
  const U32 := 0x1_0000_0000
  const U64 := 0x1_0000_0000_0000_0000
  const MEGABYTE := 0x10_0000

  type Size = x: int | 0 <= x < U64

  datatype Prot = ReadWrite | NoAccess

  datatype Result = Null | Pointer(p: nat) | Abort | Fault

  /** What one call mapped: `pages` pages from number `first` on and the guard page behind them. */
  datatype Block = Block(first: nat, pages: nat, len: nat, live: bool)

  /** Page protections, the two header words below each block, and the blocks' bytes. */
  datatype Memory = Memory(
    prot: map<nat, Prot>,
    lens: map<nat, nat>,
    canaries: map<nat, nat>,
    data: map<nat, seq<byte>>)

  function PgCount(l: nat): nat {
    (l + (PAGE - 1)) / PAGE
  }

  lemma PagesFit(l: nat)
    ensures PAGE * PgCount(l) >= l && PAGE * PgCount(l) < l + PAGE
  {
  }

  // ---- The tests on sizes ----

  /** The limit test, in wrapping arithmetic, is the test on the true sum. */
  lemma LimitTestExact(total: nat, len: Size, max: nat)
    requires total <= max < U32
    ensures (total + len) % 0x1_0000_0000_0000_0000 > max || (total + len) % 0x1_0000_0000_0000_0000 < total
        <==> total + len > max
  {
    if total + len >= U64 {
      assert (total + len) % U64 == total + len - U64;
    } else {
      assert (total + len) % U64 == total + len;
    }
  }

  /** The division test of calloc fires exactly when the product does not fit. */
  lemma CallocTestExact(elemLen: Size, elemCnt: Size)
    ensures elemCnt != 0 && (elemLen * elemCnt % 0x1_0000_0000_0000_0000) / elemCnt != elemLen
        <==> elemLen * elemCnt >= 0x1_0000_0000_0000_0000
  {
    var p := elemLen * elemCnt;
    if elemCnt != 0 {
      if p < U64 {
        assert p % U64 == p;
        DivExact(elemLen, elemCnt);
      } else {
        assert p % U64 <= p - U64;
        DivBelow(p % U64, elemLen, elemCnt);
      }
    }
  }

  lemma TimesMonotone(b: nat, x: nat, y: nat)
    ensures x <= y ==> b * x <= b * y
  {
  }

  lemma DivExact(a: nat, b: nat)
    requires b > 0
    ensures a * b / b == a
  {
    var q := a * b / b;
    assert a * b == b * q + a * b % b;
    TimesMonotone(b, q + 1, a);
    TimesMonotone(b, a + 1, q);
  }

  lemma DivBelow(w: nat, a: nat, b: nat)
    requires b > 0 && w < a * b
    ensures w / b < a
  {
    var q := w / b;
    assert w == b * q + w % b;
    TimesMonotone(b, a, q);
  }

  /** The page count is taken from a 32-bit length when the block is freed: it is the count
      the block was made with exactly when rounding up does not leave 32 bits. */
  function FreedPages(len: nat): nat
    requires len < U32
  {
    ((len + 8) % U32 + (PAGE - 1)) % U32 / PAGE
  }

  lemma FreedPagesExact(len: nat)
    requires len < U32
    ensures FreedPages(len) == PgCount(len + 8) <==> len + 8 + 4095 < 0x1_0000_0000
  {
    if len + 8 + (PAGE - 1) >= U32 {
      assert PgCount(len + 8) >= U32 / PAGE;
    }
  }

  // ---- What the live blocks amount to ----

  ghost function Live(order: seq<nat>, blocks: map<nat, Block>): nat
    requires forall p <- order :: p in blocks
  {
    if order == [] then 0
    else
      var b := blocks[order[|order| - 1]];
      Live(order[..|order| - 1], blocks) + if b.live then b.len else 0
  }

  lemma {:induction false} LiveElsewhere(order: seq<nat>, blocks: map<nat, Block>, p: nat, b: Block)
    requires (forall q <- order :: q in blocks) && p !in order
    ensures Live(order, blocks[p := b]) == Live(order, blocks)
  {
    if order != [] {
      LiveElsewhere(order[..|order| - 1], blocks, p, b);
    }
  }

  ghost predicate NoRepeats(order: seq<nat>) {
    forall i, j | 0 <= i < j < |order| :: order[i] != order[j]
  }

  lemma {:induction false} LiveWithout(order: seq<nat>, blocks: map<nat, Block>, p: nat)
    requires (forall q <- order :: q in blocks) && NoRepeats(order) && p in order && blocks[p].live
    ensures Live(order, blocks[p := blocks[p].(live := false)]) == Live(order, blocks) - blocks[p].len
  {
    var n := |order| - 1;
    var dead := blocks[p].(live := false);
    if order[n] == p {
      LiveElsewhere(order[..n], blocks, p, dead);
    } else {
      LiveWithout(order[..n], blocks, p);
    }
  }

  // ---- Blocks in memory ----

  function SetProt(prot: map<nat, Prot>, first: nat, n: nat, v: Prot): (r: map<nat, Prot>)
    ensures forall k: nat :: k in r <==> k in prot || first <= k < first + n
    ensures forall k: nat | k in r :: r[k] == if first <= k < first + n then v else prot[k]
  {
    if n == 0 then prot else SetProt(prot, first, n - 1, v)[first + n - 1 := v]
  }

  /** The block's own pages can be used as long as it lives; its guard page never. */
  ghost predicate Guarded(prot: map<nat, Prot>, b: Block) {
    && (forall k: nat | b.first <= k <= b.first + b.pages :: k in prot)
    && (forall k: nat | b.first <= k < b.first + b.pages :: prot[k] == if b.live then ReadWrite else NoAccess)
    && prot[b.first + b.pages] == NoAccess
  }

  /** Kept folded; the parts are looked at one block at a time. */
  ghost predicate Placed(m: Memory, p: nat, b: Block) {
    forall k | SeeBlock(k) :: PlacedParts(m, p, b)
  }

  predicate SeeBlock(k: int) { k == 0 }

  /** A block ends where its guard page begins, and its header lies in its own pages. */
  ghost predicate PlacedParts(m: Memory, p: nat, b: Block) {
    && b.first > 0 && b.pages == PgCount(b.len + 8)
    && p + b.len == PAGE * (b.first + b.pages)
    && PAGE * b.first <= p - 8
    && Guarded(m.prot, b)
    && p in m.lens && m.lens[p] == b.len && p in m.canaries && m.canaries[p] == CANARY
    && p in m.data && |m.data[p]| == b.len
  }

  predicate Apart(a: Block, b: Block) {
    a.first + a.pages + 1 <= b.first || b.first + b.pages + 1 <= a.first
  }

  function AddressIn(b: Block): nat {
    PAGE * (b.first + b.pages) - Min(b.len, PAGE * (b.first + b.pages))
  }

  /** The memory once a new block of zeros was laid out. */
  function WithBlock(m: Memory, first: nat, len: nat): Memory {
    var pages := PgCount(len + 8);
    var p := AddressIn(Block(first, pages, len, true));
    Memory(SetProt(SetProt(m.prot, first, pages, ReadWrite), first + pages, 1, NoAccess),
           m.lens[p := len], m.canaries[p := CANARY], m.data[p := seq(len, _ => 0)])
  }

  lemma NewIsPlaced(m: Memory, first: nat, len: nat)
    requires first > 0
    ensures var b := Block(first, PgCount(len + 8), len, true); Placed(WithBlock(m, first, len), AddressIn(b), b)
  {
    assert SeeBlock(0);
    PagesFit(len + 8);
  }

  lemma OthersStayPlaced(m: Memory, first: nat, len: nat, q: nat, c: Block)
    requires first > 0 && Placed(m, q, c) && Apart(Block(first, PgCount(len + 8), len, true), c)
    ensures Placed(WithBlock(m, first, len), q, c)
    ensures q != AddressIn(Block(first, PgCount(len + 8), len, true))
  {
    assert SeeBlock(0);
    PagesFit(len + 8);
    PagesFit(c.len + 8);
  }

  ghost predicate Layout(m: Memory, blocks: map<nat, Block>, maxMem: nat) {
    && m.canaries.Keys == blocks.Keys
    && (forall p <- blocks :: Placed(m, p, blocks[p]) && blocks[p].len <= maxMem)
    && (forall p, q | p in blocks && q in blocks && p != q :: Apart(blocks[p], blocks[q]))
  }

  ghost predicate Accounts(order: seq<nat>, blocks: map<nat, Block>, total: nat, maxMem: nat) {
    && NoRepeats(order) && (forall p :: p in order <==> p in blocks)
    && total == Live(order, blocks) && total <= maxMem
  }

  /** What the system promises of a mapping: pages that nothing else uses. */
  ghost predicate Unused(blocks: map<nat, Block>, b: Block) {
    b.first > 0 && forall p <- blocks :: Apart(b, blocks[p])
  }

  lemma AllStayPlaced(m: Memory, blocks: map<nat, Block>, maxMem: nat, b: Block)
    requires Layout(m, blocks, maxMem) && Unused(blocks, b) && b == Block(b.first, PgCount(b.len + 8), b.len, true)
    ensures AddressIn(b) !in blocks && forall q <- blocks :: Placed(WithBlock(m, b.first, b.len), q, blocks[q])
  {
    forall q <- blocks ensures Placed(WithBlock(m, b.first, b.len), q, blocks[q]) && q != AddressIn(b) {
      OthersStayPlaced(m, b.first, b.len, q, blocks[q]);
    }
  }

  lemma LayoutGrows(m: Memory, blocks: map<nat, Block>, maxMem: nat, b: Block)
    requires Layout(m, blocks, maxMem) && Unused(blocks, b)
    requires b.pages == PgCount(b.len + 8) && b.len <= maxMem && b.live
    ensures AddressIn(b) !in blocks && Layout(WithBlock(m, b.first, b.len), blocks[AddressIn(b) := b], maxMem)
  {
    var n, p, more := WithBlock(m, b.first, b.len), AddressIn(b), blocks[AddressIn(b) := b];
    AllStayPlaced(m, blocks, maxMem, b);
    NewIsPlaced(m, b.first, b.len);
    assert n.canaries.Keys == more.Keys;
    forall q <- more ensures Placed(n, q, more[q]) && more[q].len <= maxMem {
      assert q == p || q in blocks;
    }
    forall q, r | q in more && r in more && q != r ensures Apart(more[q], more[r]) {
      assert q == p || q in blocks;
      assert r == p || r in blocks;
    }
  }

  lemma AccountsGrow(order: seq<nat>, blocks: map<nat, Block>, total: nat, maxMem: nat, p: nat, b: Block)
    requires Accounts(order, blocks, total, maxMem) && p !in blocks && b.live && total + b.len <= maxMem
    ensures Accounts(order + [p], blocks[p := b], total + b.len, maxMem)
  {
    LiveElsewhere(order, blocks, p, b);
    assert (order + [p])[..|order|] == order;
  }

  /** The memory once a block's own pages were made unusable. */
  function Closed(m: Memory, first: nat, pages: nat): Memory {
    m.(prot := SetProt(m.prot, first, pages, NoAccess))
  }

  lemma OthersStayOpen(m: Memory, b: Block, q: nat, c: Block)
    requires Placed(m, q, c) && Apart(b, c)
    ensures Placed(Closed(m, b.first, b.pages), q, c)
  {
    assert SeeBlock(0);
  }

  lemma ClosedIsPlaced(m: Memory, p: nat, b: Block)
    requires Placed(m, p, b)
    ensures Placed(Closed(m, b.first, b.pages), p, b.(live := false))
  {
    assert SeeBlock(0);
  }

  lemma LayoutFrees(m: Memory, blocks: map<nat, Block>, maxMem: nat, p: nat)
    requires Layout(m, blocks, maxMem) && p in blocks
    ensures Layout(Closed(m, blocks[p].first, blocks[p].pages), blocks[p := blocks[p].(live := false)], maxMem)
  {
    var b, less := blocks[p], blocks[p := blocks[p].(live := false)];
    var n := Closed(m, b.first, b.pages);
    ClosedIsPlaced(m, p, b);
    forall q <- less ensures Placed(n, q, less[q]) && less[q].len <= maxMem {
      if q != p {
        OthersStayOpen(m, b, q, blocks[q]);
      }
    }
  }

  lemma AccountsFree(order: seq<nat>, blocks: map<nat, Block>, total: nat, maxMem: nat, p: nat)
    requires Accounts(order, blocks, total, maxMem) && p in blocks && blocks[p].live
    ensures blocks[p].len <= total
    ensures Accounts(order, blocks[p := blocks[p].(live := false)], total - blocks[p].len, maxMem)
  {
    LiveWithout(order, blocks, p);
  }

  /** Writing into a block, and only there. */
  lemma LayoutWrites(m: Memory, blocks: map<nat, Block>, maxMem: nat, p: nat, bytes: seq<byte>)
    requires Layout(m, blocks, maxMem) && p in blocks && |bytes| == blocks[p].len
    ensures Layout(m.(data := m.data[p := bytes]), blocks, maxMem)
  {
    forall q <- blocks ensures Placed(m.(data := m.data[p := bytes]), q, blocks[q]) {
      StaysWritten(m, p, bytes, q, blocks[q]);
    }
  }

  lemma StaysWritten(m: Memory, p: nat, bytes: seq<byte>, q: nat, c: Block)
    requires Placed(m, q, c) && (p == q ==> |bytes| == c.len)
    ensures Placed(m.(data := m.data[p := bytes]), q, c)
  {
    assert SeeBlock(0);
    assert PlacedParts(m.(data := m.data[p := bytes]), q, c);
  }

  /** The words below a block can be read exactly as long as it lives. */
  lemma HeaderReadable(m: Memory, p: nat, b: Block)
    requires Placed(m, p, b)
    ensures p >= 8 && p in m.lens && m.lens[p] == b.len && p in m.canaries && m.canaries[p] == CANARY
    ensures p in m.data && |m.data[p]| == b.len
    ensures Readable(m, p - 4) == b.live && Readable(m, p - 8) == b.live
  {
    assert SeeBlock(0);
    PagesFit(b.len + 8);
    var k, l := (p - 4) / PAGE, (p - 8) / PAGE;
    assert b.first <= l <= k < b.first + b.pages;
  }

  predicate Readable(m: Memory, address: nat) {
    address / PAGE in m.prot && m.prot[address / PAGE] == ReadWrite
  }

  /** What free makes of the pointer and the length it reads: first page and page count. */
  function FreedFirst(p: nat, len: nat): int
    requires len < U32
  {
    (p - (PAGE * FreedPages(len) - len - 8) % U32 - 8) / PAGE
  }

  /** It recovers the mapping exactly. */
  lemma FreeRecovers(m: Memory, p: nat, b: Block, maxMem: nat)
    requires Placed(m, p, b) && b.len <= maxMem < U32 && maxMem % MEGABYTE == 0
    ensures FreedPages(b.len) == b.pages && FreedFirst(p, b.len) == b.first
  {
    assert SeeBlock(0);
    MegabyteRoom(maxMem);
    FreedPagesExact(b.len);
    PagesFit(b.len + 8);
    assert 0 <= PAGE * b.pages - b.len - 8 < U32;
  }

  lemma MegabyteRoom(maxMem: nat)
    requires maxMem < U32 && maxMem % MEGABYTE == 0
    ensures maxMem <= U32 - MEGABYTE
  {
  }

  // ---- The whole state ----

  /** The invariant, kept folded. */
  ghost predicate Sound(m: Memory, blocks: map<nat, Block>, order: seq<nat>, total: nat, maxMem: nat) {
    && total <= maxMem < U32 && maxMem % MEGABYTE == 0
    && forall k | SeeState(k) :: Layout(m, blocks, maxMem) && Accounts(order, blocks, total, maxMem)
  }

  predicate SeeState(k: int) { k == 0 }

  lemma SoundGrows(m: Memory, blocks: map<nat, Block>, order: seq<nat>, total: nat, maxMem: nat, b: Block)
    requires Sound(m, blocks, order, total, maxMem) && Unused(blocks, b)
    requires b.pages == PgCount(b.len + 8) && b.live && total + b.len <= maxMem
    ensures AddressIn(b) !in blocks
    ensures Sound(WithBlock(m, b.first, b.len), blocks[AddressIn(b) := b],
                  order + [AddressIn(b)], total + b.len, maxMem)
  {
    assert SeeState(0);
    LayoutGrows(m, blocks, maxMem, b);
    AccountsGrow(order, blocks, total, maxMem, AddressIn(b), b);
  }

  lemma SoundFrees(m: Memory, blocks: map<nat, Block>, order: seq<nat>, total: nat, maxMem: nat, p: nat)
    requires Sound(m, blocks, order, total, maxMem) && p in blocks && blocks[p].live
    ensures blocks[p].len <= total
    ensures Sound(Closed(m, blocks[p].first, blocks[p].pages), blocks[p := blocks[p].(live := false)],
                  order, total - blocks[p].len, maxMem)
  {
    assert SeeState(0);
    LayoutFrees(m, blocks, maxMem, p);
    AccountsFree(order, blocks, total, maxMem, p);
  }

  lemma SoundWrites(m: Memory, blocks: map<nat, Block>, order: seq<nat>, total: nat, maxMem: nat,
                    p: nat, bytes: seq<byte>)
    requires Sound(m, blocks, order, total, maxMem) && p in blocks && |bytes| == blocks[p].len
    ensures Sound(m.(data := m.data[p := bytes]), blocks, order, total, maxMem)
  {
    assert SeeState(0);
    LayoutWrites(m, blocks, maxMem, p, bytes);
  }

  lemma SoundBlock(m: Memory, blocks: map<nat, Block>, order: seq<nat>, total: nat, maxMem: nat, p: nat)
    requires Sound(m, blocks, order, total, maxMem) && p in blocks
    ensures p >= 8 && p in m.lens && m.lens[p] == blocks[p].len && p in m.canaries && m.canaries[p] == CANARY
    ensures p in m.data && |m.data[p]| == blocks[p].len <= maxMem
    ensures Readable(m, p - 4) == blocks[p].live && Readable(m, p - 8) == blocks[p].live
    ensures FreedPages(blocks[p].len) == blocks[p].pages && FreedFirst(p, blocks[p].len) == blocks[p].first
    ensures Placed(m, p, blocks[p])
  {
    assert SeeState(0);
    HeaderReadable(m, p, blocks[p]);
    FreeRecovers(m, p, blocks[p], maxMem);
  }

  lemma SoundHeaders(m: Memory, blocks: map<nat, Block>, order: seq<nat>, total: nat, maxMem: nat)
    requires Sound(m, blocks, order, total, maxMem)
    ensures m.canaries.Keys == blocks.Keys && 0 !in blocks
  {
    assert SeeState(0);
    if 0 in blocks {
      SoundBlock(m, blocks, order, total, maxMem, 0);
    }
  }

  // ---- What holds in every history ----

  /** Each block ends exactly where its guard page begins, and has no more pages than it needs. */
  lemma BlockMeetsGuard(m: Memory, blocks: map<nat, Block>, order: seq<nat>, total: nat, maxMem: nat, p: nat)
    requires Sound(m, blocks, order, total, maxMem) && p in blocks
    ensures (p + blocks[p].len) % 4096 == 0
    ensures 4096 * (blocks[p].pages - 1) < blocks[p].len + 8 <= 4096 * blocks[p].pages
    ensures !Readable(m, p + blocks[p].len)
    ensures blocks[p].live ==> forall a: nat | p - 8 <= a < p + blocks[p].len :: Readable(m, a)
    ensures !blocks[p].live ==> forall a: nat | p - 8 <= a < p + blocks[p].len :: !Readable(m, a)
  {
    assert SeeState(0);
    var b := blocks[p];
    assert Placed(m, p, b);
    FewPages(m, p, b);
    MeetsGuard(m, p, b);
    forall a: nat | p - 8 <= a < p + b.len ensures Readable(m, a) == b.live {
      WithinBlock(m, p, b, a);
    }
  }

  lemma FewPages(m: Memory, p: nat, b: Block)
    requires Placed(m, p, b)
    ensures 4096 * (b.pages - 1) < b.len + 8 <= 4096 * b.pages
  {
    assert SeeBlock(0);
    PagesFit(b.len + 8);
  }

  lemma MeetsGuard(m: Memory, p: nat, b: Block)
    requires Placed(m, p, b)
    ensures (p + b.len) % PAGE == 0 && !Readable(m, p + b.len)
  {
    assert SeeBlock(0);
    assert (p + b.len) / PAGE == b.first + b.pages;
  }

  lemma WithinBlock(m: Memory, p: nat, b: Block, a: nat)
    requires Placed(m, p, b) && p - 8 <= a < p + b.len
    ensures Readable(m, a) == b.live
  {
    assert SeeBlock(0);
    assert b.first <= a / PAGE < b.first + b.pages;
  }

  /** The total is what the live blocks amount to, and stays within the limit. */
  lemma TotalIsLive(m: Memory, blocks: map<nat, Block>, order: seq<nat>, total: nat, maxMem: nat)
    requires Sound(m, blocks, order, total, maxMem)
    ensures (forall p :: p in order <==> p in blocks) && NoRepeats(order)
    ensures total == Live(order, blocks) <= maxMem
  {
    assert SeeState(0);
  }

  // ---- The allocator ----

  class Allocator {
    const maxMem: nat
    const hardFail: bool
    const noCallocOver: bool
    var totalMem: nat
    var mem: Memory
    ghost var blocks: map<nat, Block>
    ghost var order: seq<nat>

    ghost predicate Valid()
      reads this
    {
      Sound(mem, blocks, order, totalMem, maxMem)
    }

    constructor (maxMem: nat, hardFail: bool, noCallocOver: bool)
      requires maxMem < U32 && maxMem % MEGABYTE == 0
      ensures Valid() && totalMem == 0 && blocks == map[] && this.maxMem == maxMem
      ensures this.hardFail == hardFail && this.noCallocOver == noCallocOver
    {
      this.maxMem := maxMem;
      this.hardFail := hardFail;
      this.noCallocOver := noCallocOver;
      totalMem := 0;
      mem := Memory(map[], map[], map[], map[]);
      blocks, order := map[], [];
    }

    /** Out of the limit, or the system has no room. */
    ghost predicate Refused(len: nat, place: Option<nat>)
      reads this
    {
      totalMem + len > maxMem || place.None?
    }

    /** The block a call asks the system for. */
    function NewBlock(first: nat, len: nat): Block {
      Block(first, PgCount(len + 8), len, true)
    }

    /** The system maps pages that nothing else uses, or refuses. */
    ghost predicate Mappable(place: Option<nat>, len: nat)
      reads this
    {
      place.Some? ==> Unused(blocks, NewBlock(place.value, len))
    }

    ghost predicate Unchanged(m: Memory, b: map<nat, Block>, total: nat)
      reads this
    {
      mem == m && blocks == b && totalMem == total
    }

    method Alloc(len: Size, place: Option<nat>) returns (r: Result)
      requires Valid() && Mappable(place, len)
      modifies this
      ensures Valid()
      ensures r == if old(Refused(len, place)) then (if hardFail then Abort else Null)
                   else Pointer(AddressIn(NewBlock(place.value, len)))
      ensures !r.Pointer? ==> Unchanged(old(mem), old(blocks), old(totalMem))
      ensures r.Pointer? ==>
                && r.p !in old(blocks) && blocks == old(blocks)[r.p := NewBlock(place.value, len)]
                && mem == WithBlock(old(mem), place.value, len)
                && totalMem == old(totalMem) + len
    {
      LimitTestExact(totalMem, len, maxMem);
      if (totalMem + len) % U64 > maxMem || (totalMem + len) % U64 < totalMem {
        return if hardFail then Abort else Null;
      }
      if place.None? {
        return if hardFail then Abort else Null;
      }
      var p := Lay(place.value, len);
      r := Pointer(p);
    }

    method Lay(first: nat, len: nat) returns (p: nat)
      requires Valid() && Unused(blocks, NewBlock(first, len)) && totalMem + len <= maxMem
      modifies this
      ensures Valid() && p == AddressIn(NewBlock(first, len))
      ensures p !in old(blocks) && blocks == old(blocks)[p := NewBlock(first, len)]
      ensures mem == WithBlock(old(mem), first, len) && totalMem == old(totalMem) + len
    {
      p := AddressIn(NewBlock(first, len));
      SoundGrows(mem, blocks, order, totalMem, maxMem, NewBlock(first, len));
      mem := WithBlock(mem, first, len);
      blocks := blocks[p := NewBlock(first, len)];
      order := order + [p];
      totalMem := totalMem + len;
    }

    /** What is read as the canary below a pointer, if it can be read; `stray` is what lies below
        one that no call handed out. */
    method Canary(ptr: nat, stray: Option<nat>) returns (word: Option<nat>)
      requires Valid() && ptr != 0
      ensures word == if ptr in blocks then (if blocks[ptr].live then Some(CANARY) else None) else stray
    {
      SoundHeaders(mem, blocks, order, totalMem, maxMem);
      if ptr !in mem.canaries {
        return stray;
      }
      SoundBlock(mem, blocks, order, totalMem, maxMem, ptr);
      word := if Readable(mem, ptr - 4) then Some(mem.canaries[ptr]) else None;
    }

    /** What the test of the canary makes of a pointer: freeing twice faults, freeing what was
        never handed out aborts. */
    ghost function Checked(ptr: nat, stray: Option<nat>): Result
      reads this
    {
      if ptr in blocks then (if blocks[ptr].live then Null else Fault)
      else if stray.Some? then Abort else Fault
    }

    /** Freeing nothing is fine. */
    method Free(ptr: nat, stray: Option<nat>) returns (r: Result)
      requires Valid() && stray != Some(0xAACC_AACC)
      modifies this
      ensures Valid()
      ensures r == if ptr == 0 then Null else old(Checked(ptr, stray))
      ensures ptr == 0 || ptr !in old(blocks) || !old(blocks)[ptr].live ==>
                Unchanged(old(mem), old(blocks), old(totalMem))
      ensures ptr != 0 && ptr in old(blocks) && old(blocks)[ptr].live ==>
                var b := old(blocks)[ptr];
                && blocks == old(blocks)[ptr := b.(live := false)]
                && mem == Closed(old(mem), b.first, b.pages)
                && totalMem == old(totalMem) - b.len
    {
      if ptr == 0 {
        return Null;
      }
      var word := Canary(ptr, stray);
      if word.None? {
        return Fault;
      }
      if word.value != CANARY {
        return Abort;
      }
      Release(ptr);
      r := Null;
    }

    method Release(ptr: nat)
      requires Valid() && ptr in blocks && blocks[ptr].live
      modifies this
      ensures Valid()
      ensures var b := old(blocks)[ptr];
              && blocks == old(blocks)[ptr := b.(live := false)]
              && mem == Closed(old(mem), b.first, b.pages)
              && totalMem == old(totalMem) - b.len
    {
      ghost var b := blocks[ptr];
      SoundBlock(mem, blocks, order, totalMem, maxMem, ptr);
      var len := mem.lens[ptr];
      SoundFrees(mem, blocks, order, totalMem, maxMem, ptr);
      totalMem := totalMem - len;
      mem := Closed(mem, FreedFirst(ptr, len), FreedPages(len));
      blocks := blocks[ptr := b.(live := false)];
    }

    /** Fresh memory holds zeros; this one clobbers them. */
    method Malloc(len: Size, place: Option<nat>) returns (r: Result)
      requires Valid() && Mappable(place, len)
      modifies this
      ensures Valid()
      ensures r == if old(Refused(len, place)) then (if hardFail then Abort else Null)
                   else Pointer(AddressIn(NewBlock(place.value, len)))
      ensures !r.Pointer? ==> Unchanged(old(mem), old(blocks), old(totalMem))
      ensures r.Pointer? ==>
                && r.p !in old(blocks) && blocks == old(blocks)[r.p := NewBlock(place.value, len)]
                && mem.data == old(mem.data)[r.p := seq(len, _ => 0xCC)]
                && totalMem == old(totalMem) + len
    {
      r := Alloc(len, place);
      if r.Pointer? {
        SoundWrites(mem, blocks, order, totalMem, maxMem, r.p, seq(len, _ => CLOBBER));
        mem := mem.(data := mem.data[r.p := seq(len, _ => CLOBBER)]);
      }
    }

    /** Refuses exactly the products that do not fit; otherwise zeros of the true product's length. */
    method Calloc(elemLen: Size, elemCnt: Size, place: Option<nat>) returns (r: Result)
      requires Valid() && Mappable(place, elemLen * elemCnt % U64)
      modifies this
      ensures Valid()
      ensures elemLen * elemCnt >= 0x1_0000_0000_0000_0000 ==> r == (if noCallocOver then Null else Abort)
      ensures elemLen * elemCnt < 0x1_0000_0000_0000_0000 ==>
                r == if old(Refused(elemLen * elemCnt, place)) then (if hardFail then Abort else Null)
                     else Pointer(AddressIn(NewBlock(place.value, elemLen * elemCnt)))
      ensures !r.Pointer? ==> Unchanged(old(mem), old(blocks), old(totalMem))
      ensures r.Pointer? ==>
                && elemLen * elemCnt < 0x1_0000_0000_0000_0000
                && r.p !in old(blocks) && blocks == old(blocks)[r.p := NewBlock(place.value, elemLen * elemCnt)]
                && mem.data == old(mem.data)[r.p := seq(elemLen * elemCnt, _ => 0)]
    {
      CallocTestExact(elemLen, elemCnt);
      var len := elemLen * elemCnt % U64;
      if elemCnt != 0 && len / elemCnt != elemLen {
        return if noCallocOver then Null else Abort;
      }
      assert len == elemLen * elemCnt;
      r := Alloc(len, place);
    }

    /** The common bytes, and the clobber behind them. */
    ghost predicate IsResized(now: seq<byte>, was: seq<byte>, len: nat) {
      |now| == len && forall i | 0 <= i < len :: now[i] == if i < |was| then was[i] else 0xCC
    }

    /** A new block with the old one's bytes; the old one is freed only if there is room for both.
        What is wrong with the old pointer shows only once the new block is there. */
    method Realloc(ptr: nat, len: Size, place: Option<nat>, stray: Option<nat>) returns (r: Result)
      requires Valid() && Mappable(place, len) && stray != Some(0xAACC_AACC)
      requires ptr in blocks || place.None? || ptr != AddressIn(NewBlock(place.value, len))
      modifies this
      ensures Valid()
      ensures old(Refused(len, place)) ==>
                r == (if hardFail then Abort else Null) && Unchanged(old(mem), old(blocks), old(totalMem))
      ensures !old(Refused(len, place)) ==>
                var b := NewBlock(place.value, len);
                r == if ptr == 0 || old(Checked(ptr, stray)) == Null then Pointer(AddressIn(b))
                     else old(Checked(ptr, stray))
      ensures !old(Refused(len, place)) && (ptr == 0 || old(Checked(ptr, stray)) != Null) ==>
                var b := NewBlock(place.value, len);
                && blocks == old(blocks)[AddressIn(b) := b]
                && mem.data == old(mem.data)[AddressIn(b) := seq(len, _ => 0xCC)]
                && totalMem == old(totalMem) + len
      ensures !old(Refused(len, place)) && ptr != 0 && old(Checked(ptr, stray)) == Null ==>
                ptr in old(mem.data) &&
                var was, c, b := old(mem.data)[ptr], old(blocks)[ptr], NewBlock(place.value, len);
                && blocks == old(blocks)[AddressIn(b) := b][ptr := c.(live := false)]
                && AddressIn(b) in mem.data && IsResized(mem.data[AddressIn(b)], was, len)
                && totalMem == old(totalMem) + len - c.len
    {
      if ptr in blocks {
        SoundBlock(mem, blocks, order, totalMem, maxMem, ptr);
      }
      r := Malloc(len, place);
      if r.Pointer? && ptr != 0 {
        r := MoveFrom(ptr, r.p, len, stray);
      }
    }

    method MoveFrom(ptr: nat, to: nat, len: nat, stray: Option<nat>) returns (r: Result)
      requires Valid() && ptr != 0 && ptr != to && stray != Some(0xAACC_AACC)
      requires to in blocks && to in mem.data && blocks[to].len == len
      requires ptr in blocks ==> ptr in mem.data
      modifies this
      ensures Valid()
      ensures r == if old(Checked(ptr, stray)) == Null then Pointer(to) else old(Checked(ptr, stray))
      ensures old(Checked(ptr, stray)) != Null ==> Unchanged(old(mem), old(blocks), old(totalMem))
      ensures old(Checked(ptr, stray)) == Null ==>
                var c, n := old(blocks)[ptr], Min(len, old(blocks)[ptr].len);
                && |old(mem.data)[ptr]| == c.len && |old(mem.data)[to]| == len
                && blocks == old(blocks)[ptr := c.(live := false)]
                && mem.data == old(mem.data)[to := old(mem.data)[ptr][..n] + old(mem.data)[to][n..]]
                && totalMem == old(totalMem) - c.len
    {
      var word := Canary(ptr, stray);
      if word.None? {
        return Fault;
      }
      if word.value != CANARY {
        return Abort;
      }
      CopyOver(to, ptr, len);
      var freed := Free(ptr, stray);
      r := Pointer(to);
    }

    method CopyOver(to: nat, from: nat, len: nat)
      requires Valid() && to in blocks && from in blocks && to != from && blocks[to].len == len
      requires to in mem.data && from in mem.data
      modifies this`mem
      ensures Valid()
      ensures to in mem.data && mem == old(mem).(data := old(mem.data)[to := mem.data[to]])
      ensures |old(mem.data)[from]| == blocks[from].len && |old(mem.data)[to]| == len
      ensures var n := Min(len, blocks[from].len);
              mem.data[to] == old(mem.data)[from][..n] + old(mem.data)[to][n..]
    {
      SoundBlock(mem, blocks, order, totalMem, maxMem, from);
      SoundBlock(mem, blocks, order, totalMem, maxMem, to);
      var n := Min(len, mem.lens[from]);
      var bytes := mem.data[from][..n] + mem.data[to][n..];
      SoundWrites(mem, blocks, order, totalMem, maxMem, to, bytes);
      mem := mem.(data := mem.data[to := bytes]);
    }
  }
}
