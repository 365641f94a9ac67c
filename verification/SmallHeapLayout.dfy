// What the small heap of mem.c holds, with the header links left out: the row of blocks up to the end
// sentinel, the pointer to the lowest free block, and the two byte counters. Addresses are offsets
// from heap_ptr. SmallHeap.dfy ties the in-place code to the functions of this module.
module SmallHeapLayout {
  import opened Wrappers
  import opened Rings
  import opened Blocks
  import M = MemHeapLayout

  const HEAD: int := 12          // SIZEOF_STRUCT_MEM
  const MIN: int := 12           // MIN_SIZE_ALIGNED
  const WORD: int := 0x1_0000_0000

  // `total` is mem_size_aligned; the end sentinel lies at total + HEAD.
  datatype Heap = Heap(total: int, blocks: seq<Blk>, lfree: int, used: int, peak: int)

  function End(H: Heap): int { H.total + HEAD }

  // The heap invariant: the blocks tile the heap up to the sentinel, no two free blocks are neighbours,
  // the counter is exact, and lfree is the header of a free block or the sentinel.
  ghost predicate Inv(H: Heap) {
    && MIN <= H.total && H.total % 4 == 0 && H.total + 2 * HEAD < WORD
    && Tiles(H.blocks, HEAD, 0, End(H))
    && Coalesced(H.blocks)
    && H.used == UsedSpan(H.blocks, HEAD) && H.used <= H.peak
    && (H.lfree == End(H) || H.lfree in FreeAddrs(H.blocks))
  }

  // No free block lies below lfree.
  ghost predicate Lowest(H: Heap) {
    forall x :: x in FreeAddrs(H.blocks) ==> H.lfree <= x
  }

  // rt_system_heap_init over `bytes` bytes at aligned addresses
  function Init(bytes: int): (H: Heap)
    requires 2 * HEAD + MIN <= bytes < WORD && bytes % 4 == 0
    ensures Inv(H)
  {
    OneIs(Blk(0, bytes - 2 * HEAD, false), HEAD);
    Heap(bytes - 2 * HEAD, [Blk(0, bytes - 2 * HEAD, false)], 0, 0, 0)
  }

  // ----- rt_malloc

  // The bound of the search loop, in unsigned arithmetic.
  function Bound(total: int, size: int): int {
    (total - size) % WORD
  }

  // The index of the first block at or after index i that serves the request, if the loop comes to it.
  function Search(bs: seq<Blk>, i: nat, bound: int, size: int): (r: Option<nat>)
    ensures r.Some? ==> i <= r.value < |bs| && !bs[r.value].used && bs[r.value].size >= size && bs[r.value].addr < bound
    decreases |bs| - i
  {
    if i >= |bs| || bs[i].addr >= bound then None
    else if !bs[i].used && bs[i].size >= size then Some(i)
    else Search(bs, i + 1, bound, size)
  }

  // The index of the first free block from i on.
  function FirstFree(bs: seq<Blk>, i: nat): (j: nat)
    requires i <= |bs|
    ensures i <= j <= |bs| && (j < |bs| ==> !bs[j].used)
    ensures forall m :: i <= m < j ==> bs[m].used
    decreases |bs| - i
  {
    if i == |bs| || !bs[i].used then i else FirstFree(bs, i + 1)
  }

  // The address of the first free block from i on, or `end`.
  function NextFree(bs: seq<Blk>, i: nat, end: int): (x: int)
    requires i <= |bs|
  {
    var j := FirstFree(bs, i);
    if j < |bs| then bs[j].addr else end
  }

  function IndexAt(bs: seq<Blk>, x: int): (i: nat)
    ensures i <= |bs| && (i < |bs| ==> bs[i].addr == x)
    ensures forall j :: 0 <= j < i ==> bs[j].addr != x
  {
    if bs == [] || bs[0].addr == x then 0
    else
      assert forall j :: 0 <= j < |bs[1..]| ==> bs[1..][j] == bs[j + 1];
      1 + IndexAt(bs[1..], x)
  }

  function Most(p: int, q: int): int { if p < q then q else p }

  // Free block i serves a request, whole or cut.
  function Carve(H: Heap, i: nat, size: int): (H': Heap)
    requires i < |H.blocks|
  {
    var b := H.blocks[i];
    var cut := b.size >= size + HEAD + MIN;
    var mid := if cut then [Blk(b.addr, size, true), Blk(b.addr + HEAD + size, b.size - HEAD - size, false)]
        else [b.(used := true)];
    var bs := Replace(H.blocks, i, 1, mid);
    assert i < |bs|;
    var used := H.used + (if cut then size + HEAD else b.size + HEAD);
    Heap(H.total, bs, if b.addr == H.lfree then NextFree(bs, i, End(H)) else H.lfree, used, Most(H.peak, used))
  }

  // rt_malloc for an aligned size of at least MIN; the result is the address of the block's header.
  function Malloc(H: Heap, size: int): (r: (Heap, Option<int>))
  {
    match Search(H.blocks, IndexAt(H.blocks, H.lfree), Bound(H.total, size), size)
    case None => (H, None)
    case Some(i) => (Carve(H, i, size), Some(H.blocks[i].addr))
  }

  // rt_malloc for any size
  function MallocAny(H: Heap, size: int): (r: (Heap, Option<int>))
  {
    if size == 0 || M.Align(size) > H.total then (H, None) else Malloc(H, M.Request(size))
  }

  // ----- plug_holes

  predicate LeftFree(bs: seq<Blk>, i: nat)
    requires i < |bs|
  {
    i > 0 && !bs[i - 1].used
  }

  predicate RightFree(bs: seq<Blk>, i: nat)
    requires i < |bs|
  {
    i + 1 < |bs| && !bs[i + 1].used
  }

  // Free block i takes in its free neighbours, and lfree follows.
  function Plug(H: Heap, i: nat): (H': Heap)
    requires i < |H.blocks|
  {
    var bs := H.blocks;
    var b := bs[i];
    var lf1 := if RightFree(bs, i) && H.lfree == bs[i + 1].addr then b.addr else H.lfree;
    var size1 := if RightFree(bs, i) then b.size + HEAD + bs[i + 1].size else b.size;
    var k := if RightFree(bs, i) then 2 else 1;
    if LeftFree(bs, i) then
      var l := bs[i - 1];
      H.(blocks := Replace(bs, i - 1, k + 1, [Blk(l.addr, l.size + HEAD + size1, false)]),
         lfree := if lf1 == b.addr then l.addr else lf1)
    else H.(blocks := Replace(bs, i, k, [Blk(b.addr, size1, false)]), lfree := lf1)
  }

  // ----- rt_free and rt_realloc

  // Block i is marked unused.
  function Opened(H: Heap, i: nat): (H': Heap)
    requires i < |H.blocks|
    ensures |H'.blocks| == |H.blocks|
  {
    var b := H.blocks[i];
    H.(blocks := Replace(H.blocks, i, 1, [b.(used := false)]), lfree := if b.addr < H.lfree then b.addr else H.lfree,
       used := H.used - (b.size + HEAD))
  }

  // rt_free of used block i
  function Free(H: Heap, i: nat): (H': Heap)
    requires i < |H.blocks|
  {
    Plug(Opened(H, i), i)
  }

  // rt_realloc giving back the end of used block i
  function Shrink(H: Heap, i: nat, size: int): (H': Heap)
    requires i < |H.blocks|
  {
    var b := H.blocks[i];
    Plug(H.(blocks := Replace(H.blocks, i, 1,
        [Blk(b.addr, size, true), Blk(b.addr + HEAD + size, b.size - HEAD - size, false)]),
            used := H.used - (b.size - size)), i + 1)
  }
}
