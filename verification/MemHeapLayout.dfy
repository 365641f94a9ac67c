// What the boundary-tag heap of memheap.c holds, with the pointers left out: the row of blocks,
// the free list in search order, and the two byte counters. Addresses are byte offsets from the
// start of the pool. MemHeap.dfy ties the in-place pointer code to the functions of this module.
module MemHeapLayout {
  import opened Wrappers
  import opened Rings
  import opened Blocks

  const ITEM: int := 24          // RT_MEMHEAP_SIZE: six words
  const MINIALLOC: int := 12
  const WORD: int := 0x1_0000_0000

  // RT_ALIGN(size, 4) in 32-bit arithmetic.
  function Align(size: int): (r: int)
  {
    ((size + 3) % WORD) / 4 * 4
  }

  // The payload size a request stands for.
  function Request(size: int): (r: int)
    ensures r >= MINIALLOC && r % 4 == 0
  {
    if Align(size) < MINIALLOC then MINIALLOC else Align(size)
  }

  // Every request stands for at least the asked size, except the three topmost sizes, whose
  // rounding wraps to zero.
  lemma RequestCovers(size: int)
    requires 0 <= size < WORD
    ensures Request(size) >= size <==> size <= WORD - 4
    ensures size <= WORD - 4 ==> Request(size) < size + 4 || Request(size) == MINIALLOC
  {
  }

  // No block in a caller's hands is smaller than the least request.
  ghost predicate Roomy(live: set<Blk>) {
    forall b :: b in live ==> b.size >= MINIALLOC
  }

  datatype Layout = Layout(pool: int, blocks: seq<Blk>, free: seq<int>, avail: int, peak: int)

  // The heap invariant: the blocks tile the pool up to the used, empty tail header; the free list
  // holds the unused blocks once each, no two of them neighbours; no used block is smaller than the
  // least request; the counters are exact.
  ghost predicate Inv(L: Layout) {
    && 2 * ITEM <= L.pool < WORD
    && L.pool % 4 == 0
    && Tiles(L.blocks, ITEM, 0, L.pool - ITEM)
    && Coalesced(L.blocks)
    && Roomy(Live(L.blocks))
    && Distinct(L.free)
    && (forall x :: x in L.free <==> x in FreeAddrs(L.blocks))
    && L.avail == FreeBytes(L.blocks)
    && L.pool - L.avail <= L.peak
  }

  // ----- the operations

  function Init(size: int): (L: Layout)
    requires 2 * ITEM <= size < WORD
    ensures Inv(L)
  {
    var pool := size / 4 * 4;
    Layout(pool, [Blk(0, pool - 2 * ITEM, false)], [0], pool - 2 * ITEM, 2 * ITEM)
  }

  ghost predicate FreeListed(L: Layout) {
    forall x :: x in L.free ==> x in Addrs(L.blocks)
  }

  function Payload(blocks: seq<Blk>, x: int): int
    requires x in Addrs(blocks)
  {
    blocks[Find(blocks, x)].size
  }

  function FirstFit(blocks: seq<Blk>, free: seq<int>, s: int): (r: Option<int>)
    requires forall x :: x in free ==> x in Addrs(blocks)
    ensures r.Some? ==> r.value in free && Payload(blocks, r.value) >= s
    ensures r.None? ==> forall x :: x in free ==> Payload(blocks, x) < s
  {
    if free == [] then None
    else if Payload(blocks, free[0]) >= s then Some(free[0])
    else FirstFit(blocks, free[1..], s)
  }

  function Peak(pool: int, avail: int, peak: int): int {
    if pool - avail > peak then pool - avail else peak
  }

  // A used block of s bytes followed by a free block up to address hi.
  function Cut(b: int, s: int, hi: int): seq<Blk> {
    [Blk(b, s, true), Blk(b + ITEM + s, hi - b - ITEM - s - ITEM, false)]
  }

  // Takes the front of free block i, cutting off the rest when a header and a minimal payload fit.
  function Carve(L: Layout, i: nat, s: int): (L': Layout)
    requires i < |L.blocks| && L.blocks[i].addr in L.free
  {
    var b := L.blocks[i];
    if b.size >= s + ITEM + MINIALLOC then
      var avail := L.avail - s - ITEM;
      Layout(L.pool, Replace(L.blocks, i, 1, Cut(b.addr, s, b.addr + ITEM + b.size)),
             [b.addr + ITEM + s] + Remove(L.free, b.addr), avail, Peak(L.pool, avail, L.peak))
    else
      var avail := L.avail - b.size;
      Layout(L.pool, Replace(L.blocks, i, 1, [b.(used := true)]),
             Remove(L.free, b.addr), avail, Peak(L.pool, avail, L.peak))
  }

  // rt_memheap_alloc for a request of s payload bytes; the result is the address of the block.
  function Alloc(L: Layout, s: int): (r: (Layout, Option<int>))
    requires FreeListed(L)
  {
    if s >= L.avail then (L, None)
    else match FirstFit(L.blocks, L.free, s)
      case None => (L, None)
      case Some(x) => (Carve(L, Find(L.blocks, x), s), Some(x))
  }

  predicate LeftFree(L: Layout, i: nat)
    requires i < |L.blocks|
  {
    i > 0 && !L.blocks[i - 1].used
  }

  predicate RightFree(L: Layout, i: nat)
    requires i < |L.blocks|
  {
    i + 1 < |L.blocks| && !L.blocks[i + 1].used
  }

  // rt_memheap_free of used block i: it joins its free neighbours.
  ghost function Free(L: Layout, i: nat): (L': Layout)
    requires i < |L.blocks| && Inv(L)
  {
    var bs, b := L.blocks, L.blocks[i];
    FreeAddrIs(L, i);
    if LeftFree(L, i) then
      var l := bs[i - 1];
      if RightFree(L, i) then
        var r := bs[i + 1];
        Layout(L.pool, Replace(bs, i - 1, 3, [Blk(l.addr, l.size + ITEM + b.size + ITEM + r.size, false)]),
               Remove(L.free, r.addr), L.avail + b.size + ITEM + ITEM, L.peak)
      else
        Layout(L.pool, Replace(bs, i - 1, 2, [Blk(l.addr, l.size + ITEM + b.size, false)]),
               L.free, L.avail + b.size + ITEM, L.peak)
    else if RightFree(L, i) then
      var r := bs[i + 1];
      Layout(L.pool, Replace(bs, i, 2, [Blk(b.addr, b.size + ITEM + r.size, false)]),
             [b.addr] + Remove(L.free, r.addr), L.avail + b.size + ITEM, L.peak)
    else
      Layout(L.pool, Replace(bs, i, 1, [b.(used := false)]), [b.addr] + L.free, L.avail + b.size, L.peak)
  }

  // rt_memheap_realloc moving the header between used block i and its free right neighbour: up
  // when the block grows, down when it shrinks.
  ghost function Shift(L: Layout, i: nat, s: int): (L': Layout)
    requires i < |L.blocks| && Inv(L) && RightFree(L, i)
  {
    var b, r := L.blocks[i], L.blocks[i + 1];
    FreeAddrIs(L, i);
    var avail := L.avail - (s - b.size);
    Layout(L.pool, Replace(L.blocks, i, 2, Cut(b.addr, s, r.addr + ITEM + r.size)),
           [b.addr + ITEM + s] + Remove(L.free, r.addr), avail, Peak(L.pool, avail, L.peak))
  }

  // rt_memheap_realloc giving back the end of used block i when its right neighbour is used.
  function CutOff(L: Layout, i: nat, s: int): (L': Layout)
    requires i < |L.blocks|
  {
    var b := L.blocks[i];
    Layout(L.pool, Replace(L.blocks, i, 1, Cut(b.addr, s, b.addr + ITEM + b.size)),
           [b.addr + ITEM + s] + L.free, L.avail + (b.size - s - ITEM), L.peak)
  }

  lemma FreeAddrIs(L: Layout, i: nat)
    requires Inv(L) && i < |L.blocks|
    ensures forall j :: 0 <= j < |L.blocks| ==> (L.blocks[j].addr in L.free <==> !L.blocks[j].used)
    ensures FreeListed(L)
  {
    hide FreeBytes, Coalesced;
    TilesOrder(L.blocks, ITEM, 0, L.pool - ITEM);
    forall j | 0 <= j < |L.blocks| && L.blocks[j].addr in L.free
      ensures !L.blocks[j].used
    {
      var b :| b in L.blocks && !b.used && b.addr == L.blocks[j].addr;
      var k :| 0 <= k < |L.blocks| && L.blocks[k] == b;
      assert j == k;
    }
    forall x | x in L.free
      ensures x in Addrs(L.blocks)
    {
      var b :| b in L.blocks && !b.used && b.addr == x;
      var k :| 0 <= k < |L.blocks| && L.blocks[k] == b;
      assert Addrs(L.blocks)[k] == x;
    }
  }
}
