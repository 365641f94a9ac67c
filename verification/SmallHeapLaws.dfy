// The laws of the small heap: every operation keeps the invariant and changes the live blocks as its
// caller expects; when an allocation fails; and what becomes of the lowest-free pointer.
module SmallHeapLaws {
  import opened Wrappers
  import opened Rings
  import opened Blocks
  import M = MemHeapLayout
  import opened SmallHeapLayout

  lemma InitInv(bytes: int)
    requires 2 * HEAD + MIN <= bytes < WORD && bytes % 4 == 0
    ensures Inv(Init(bytes)) && Lowest(Init(bytes)) && Live(Init(bytes).blocks) == {}
  {
    OneIs(Init(bytes).blocks[0], HEAD);
  }

  // ----- blocks and their neighbours

  lemma At(H: Heap, i: nat)
    requires Inv(H) && i < |H.blocks|
    ensures H.blocks[i].size >= 0 && H.blocks[i].size % 4 == 0 && H.blocks[i].addr >= 0 && H.blocks[i].addr % 4 == 0
    ensures H.blocks[i].addr + HEAD + H.blocks[i].size <= End(H)
    ensures i + 1 < |H.blocks| ==> H.blocks[i + 1].addr == H.blocks[i].addr + HEAD + H.blocks[i].size
    ensures i + 1 == |H.blocks| ==> H.blocks[i].addr + HEAD + H.blocks[i].size == End(H)
    ensures i + 1 < |H.blocks| ==> H.blocks[i].used || H.blocks[i + 1].used
    ensures i > 0 ==>
              H.blocks[i - 1].addr + HEAD + H.blocks[i - 1].size == H.blocks[i].addr && H.blocks[i - 1].size >= 0
    ensures i > 0 ==> (H.blocks[i - 1].used || H.blocks[i].used) && H.blocks[i - 1].size % 4 == 0
    ensures H.blocks[i].addr in FreeAddrs(H.blocks) <==> !H.blocks[i].used
    ensures i == 0 ==> H.blocks[i].addr == 0
  {
    TilesOrder(H.blocks, HEAD, 0, End(H));
    TilesAligned(H.blocks, HEAD, 0, End(H));
    if i + 1 < |H.blocks| { assert !FreePair(H.blocks, i); }
    if i > 0 { assert !FreePair(H.blocks, i - 1); }
    AddressOnce(H, i);
  }

  // A header address belongs to one block only.
  lemma AddressOnce(H: Heap, i: nat)
    requires Inv(H) && i < |H.blocks|
    ensures forall j :: 0 <= j < |H.blocks| && H.blocks[j].addr == H.blocks[i].addr ==> j == i
    ensures H.blocks[i].addr in FreeAddrs(H.blocks) <==> !H.blocks[i].used
  {
    TilesOrder(H.blocks, HEAD, 0, End(H));
    if H.blocks[i].addr in FreeAddrs(H.blocks) {
      var b :| b in H.blocks && !b.used && b.addr == H.blocks[i].addr;
      var j :| 0 <= j < |H.blocks| && H.blocks[j] == b;
    }
  }

  // Addresses grow along the row.
  lemma Ordered(H: Heap, i: nat, j: nat)
    requires Inv(H) && i < j < |H.blocks|
    ensures H.blocks[i].addr < H.blocks[j].addr
  {
    TilesOrder(H.blocks, HEAD, 0, End(H));
  }

  lemma FreeAddrIndex(H: Heap, x: int)
    requires Inv(H) && x in FreeAddrs(H.blocks)
    ensures IndexAt(H.blocks, x) < |H.blocks| && H.blocks[IndexAt(H.blocks, x)].addr == x
    ensures !H.blocks[IndexAt(H.blocks, x)].used
    ensures x < End(H)
  {
    var b :| b in H.blocks && !b.used && b.addr == x;
    var j :| 0 <= j < |H.blocks| && H.blocks[j] == b;
    AddressOnce(H, j);
    At(H, j);
  }

  // The end sentinel is no block.
  lemma EndIndex(H: Heap)
    requires Inv(H)
    ensures IndexAt(H.blocks, End(H)) == |H.blocks| && End(H) !in FreeAddrs(H.blocks)
  {
    TilesOrder(H.blocks, HEAD, 0, End(H));
  }

  // ----- rt_malloc

  lemma NextFreeIs(bs: seq<Blk>, i: nat, end: int)
    requires i <= |bs|
    ensures NextFree(bs, i, end) == end || NextFree(bs, i, end) in FreeAddrs(bs)
  {
    var j := FirstFree(bs, i);
    if j < |bs| { assert bs[j] in bs; }
  }

  lemma CarveRow(H: Heap, i: nat, size: int)
    requires Inv(H) && i < |H.blocks| && !H.blocks[i].used && 0 <= size <= H.blocks[i].size && size % 4 == 0
    ensures var b, H' := H.blocks[i], Carve(H, i, size);
            var cut := b.size >= size + HEAD + MIN;
            var n := if cut then size else b.size;
            && Tiles(H'.blocks, HEAD, 0, End(H)) && Coalesced(H'.blocks) && H'.used == UsedSpan(H'.blocks, HEAD)
            && Live(H'.blocks) == Live(H.blocks) + {Blk(b.addr, n, true)}
            && FreeAddrs(H'.blocks) == FreeAddrs(H.blocks) - {b.addr} + (if cut then {b.addr + HEAD + size} else {})
  {
    hide Tiles, Span, FreeBytes, UsedSpan, Coalesced, Live, FreeAddrs, Replace, NextFree;
    At(H, i);
    var b := H.blocks[i];
    assert H.blocks[i..i + 1] == [b];
    OneIs(b, HEAD);
    if b.size >= size + HEAD + MIN {
      var x, y := Blk(b.addr, size, true), Blk(b.addr + HEAD + size, b.size - HEAD - size, false);
      TwoIs(x, y, HEAD);
      TwoTile(x, y);
      RowReplace(H.blocks, i, 1, [x, y], HEAD, 0, End(H));
    } else {
      OneIs(b.(used := true), HEAD);
      RowReplace(H.blocks, i, 1, [b.(used := true)], HEAD, 0, End(H));
    }
  }

  lemma TwoTile(x: Blk, y: Blk)
    requires x.size >= 0 && x.size % 4 == 0 && y.size >= 0 && y.size % 4 == 0 && y.addr == x.addr + HEAD + x.size
    ensures Tiles([x, y], HEAD, x.addr, y.addr + HEAD + y.size)
    ensures x.used || y.used ==> Coalesced([x, y])
  {
    assert [x, y][1..] == [y] && [y][1..] == [];
  }

  // One more block is live, at the new address x, with room for `size` bytes.
  ghost predicate Gained(H: Heap, H': Heap, x: int, size: int) {
    && (forall c :: c in Live(H.blocks) ==> c.addr != x)
    && exists n {:trigger Blk(x, n, true)} ::
         size <= n < size + HEAD + MIN && Live(H'.blocks) == Live(H.blocks) + {Blk(x, n, true)}
  }

  lemma FreeApart(H: Heap, i: nat)
    requires Inv(H) && i < |H.blocks| && !H.blocks[i].used
    ensures forall c :: c in Live(H.blocks) ==> c.addr != H.blocks[i].addr
  {
    AddressOnce(H, i);
  }

  // Serving a request from a free block that lfree does not lie above.
  lemma CarveLaw(H: Heap, i: nat, size: int)
    requires Inv(H) && i < |H.blocks| && !H.blocks[i].used && 0 <= size <= H.blocks[i].size && size % 4 == 0
    requires H.lfree <= H.blocks[i].addr
    ensures Inv(Carve(H, i, size)) && (Lowest(H) ==> Lowest(Carve(H, i, size)))
    ensures Gained(H, Carve(H, i, size), H.blocks[i].addr, size) && Carve(H, i, size).total == H.total
  {
    hide Tiles, Coalesced, UsedSpan, Live, Replace, NextFree;
    CarveRow(H, i, size);
    At(H, i);
    FreeApart(H, i);
    var b, H' := H.blocks[i], Carve(H, i, size);
    var n := if b.size >= size + HEAD + MIN then size else b.size;
    assert Live(H'.blocks) == Live(H.blocks) + {Blk(b.addr, n, true)};
    if b.addr == H.lfree {
      CarvedLfree(H, i, size);
    } else {
      EndIndex(H);
    }
  }

  // When the lowest free block is taken, the search for the next one starts from there.
  lemma CarvedLfree(H: Heap, i: nat, size: int)
    requires Inv(H) && i < |H.blocks| && !H.blocks[i].used && 0 <= size <= H.blocks[i].size && size % 4 == 0
    requires H.lfree == H.blocks[i].addr
    requires var H' := Carve(H, i, size); Tiles(H'.blocks, HEAD, 0, End(H))
    ensures var H' := Carve(H, i, size);
            && (H'.lfree == End(H) || H'.lfree in FreeAddrs(H'.blocks))
            && (Lowest(H) ==> Lowest(H'))
  {
    hide Tiles, Coalesced, UsedSpan, FreeAddrs, Live, NextFree;
    var bs := Carve(H, i, size).blocks;
    NextFreeIs(bs, i, End(H));
    if Lowest(H) {
      forall j | 0 <= j < i
        ensures bs[j].used
      {
        Below(H, i, j);
        assert bs[j] == H.blocks[j];
      }
      AllLowest(bs, i, End(H));
    }
  }

  // Blocks before the lowest free one are used.
  lemma Below(H: Heap, i: nat, j: nat)
    requires Inv(H) && Lowest(H) && j < i < |H.blocks| && H.lfree == H.blocks[i].addr
    ensures H.blocks[j].used
  {
    hide Tiles, Coalesced, UsedSpan, FreeAddrs;
    At(H, j);
    Ordered(H, j, i);
  }

  lemma AllLowest(bs: seq<Blk>, i: nat, end: int)
    requires Tiles(bs, HEAD, 0, end) && i <= |bs| && forall j :: 0 <= j < i ==> bs[j].used
    ensures forall x :: x in FreeAddrs(bs) ==> NextFree(bs, i, end) <= x
  {
    hide Tiles, FirstFree;
    TilesOrder(bs, HEAD, 0, end);
    forall x | x in FreeAddrs(bs)
      ensures NextFree(bs, i, end) <= x
    {
      var c :| c in bs && !c.used && c.addr == x;
      var j :| 0 <= j < |bs| && bs[j] == c;
      assert i <= j;
      assert FirstFree(bs, i) <= j;
    }
  }

  // What the loop looks at: blocks from lfree on that start below the bound.
  lemma {:induction false} SearchIs(bs: seq<Blk>, i: nat, bound: int, size: int)
    requires forall j, m :: 0 <= j < m < |bs| ==> bs[j].addr < bs[m].addr
    ensures var r := Search(bs, i, bound, size);
            && (r.Some? ==> forall j :: i <= j < r.value ==> bs[j].used || bs[j].size < size)
            && (r.None? ==> forall j :: i <= j < |bs| && bs[j].addr < bound ==> bs[j].used || bs[j].size < size)
    decreases |bs| - i
  {
    if i < |bs| && bs[i].addr < bound && (bs[i].used || bs[i].size < size) { SearchIs(bs, i + 1, bound, size); }
  }

  lemma Start(H: Heap)
    requires Inv(H)
    ensures var i := IndexAt(H.blocks, H.lfree);
            && (i < |H.blocks| ==> H.lfree == H.blocks[i].addr && !H.blocks[i].used)
            && (i == |H.blocks| ==> H.lfree == End(H))
            && (forall j :: 0 <= j < |H.blocks| ==> (i <= j <==> H.lfree <= H.blocks[j].addr))
  {
    TilesOrder(H.blocks, HEAD, 0, End(H));
    if H.lfree == End(H) { EndIndex(H); } else { FreeAddrIndex(H, H.lfree); }
  }

  // A successful rt_malloc makes one new block of sufficient size live, at an aligned address, and
  // keeps all others; an unsuccessful one changes nothing.
  lemma MallocLaw(H: Heap, size: int)
    requires Inv(H) && size >= 0 && size % 4 == 0
    ensures var (H', r) := Malloc(H, size);
            && Inv(H') && (Lowest(H) ==> Lowest(H')) && H'.total == H.total
            && (r.None? ==> H' == H) && (r.Some? ==> r.value % 4 == 0 && Gained(H, H', r.value, size))
  {
    hide Inv, Lowest, Live, Carve;
    var r := Search(H.blocks, IndexAt(H.blocks, H.lfree), Bound(H.total, size), size);
    Start(H);
    if r.Some? {
      At(H, r.value);
      CarveLaw(H, r.value, size);
    }
  }

  // The new block overlaps no live one: all live blocks are apart.
  lemma LiveApart(H: Heap, b: Blk, c: Blk)
    requires Inv(H) && b in Live(H.blocks) && c in Live(H.blocks) && b != c
    ensures b.addr + HEAD + b.size <= c.addr || c.addr + HEAD + c.size <= b.addr
    ensures 0 <= b.addr && b.addr + HEAD + b.size <= End(H) && b.addr % 4 == 0
  {
    TilesOrder(H.blocks, HEAD, 0, End(H));
    TilesAligned(H.blocks, HEAD, 0, End(H));
    var i :| 0 <= i < |H.blocks| && H.blocks[i] == b;
    var j :| 0 <= j < |H.blocks| && H.blocks[j] == c;
  }

  // rt_malloc serves from the first free block that is large enough, from lfree on, with one
  // exception: a block at the very end of the heap that fits exactly is never found.
  lemma MallocRefuses(H: Heap, size: int)
    requires Inv(H) && MIN <= size <= H.total && size % 4 == 0
    ensures Malloc(H, size).1.None? <==>
              forall b :: b in H.blocks && !b.used && H.lfree <= b.addr && b.size >= size ==>
                  b.size == size && b.addr + HEAD + b.size == End(H)
  {
    var bound := Bound(H.total, size);
    assert bound == H.total - size;
    hide Bound, Coalesced;
    Start(H);
    TilesOrder(H.blocks, HEAD, 0, End(H));
    var i := IndexAt(H.blocks, H.lfree);
    SearchIs(H.blocks, i, bound, size);
    var r := Search(H.blocks, i, bound, size);
    if r.Some? {
      assert H.blocks[r.value] in H.blocks;
    } else {
      forall b | b in H.blocks && !b.used && H.lfree <= b.addr && b.size >= size
        ensures b.size == size && b.addr + HEAD + b.size == End(H)
      {
        var j :| 0 <= j < |H.blocks| && H.blocks[j] == b;
        assert b.addr >= bound;
      }
    }
  }

  // In runs of rt_malloc and rt_free lfree is the lowest free block, so that the search misses no free
  // block but an exactly fitting last one.
  lemma FirstFitOfAll(H: Heap, size: int)
    requires Inv(H) && Lowest(H) && MIN <= size <= H.total && size % 4 == 0
    ensures Malloc(H, size).1.None? <==>
              forall b :: b in H.blocks && !b.used && b.size >= size ==>
                  b.size == size && b.addr + HEAD + b.size == End(H)
  {
    MallocRefuses(H, size);
    forall b | b in H.blocks && !b.used
      ensures H.lfree <= b.addr
    {
      assert b.addr in FreeAddrs(H.blocks);
    }
  }

  // ----- rt_free

  lemma ReplaceTwice(bs: seq<Blk>, i: nat, x: Blk, lo: nat, k: nat, mid: seq<Blk>)
    requires i < |bs| && lo <= i < lo + k && lo + k <= |bs|
    ensures Replace(Replace(bs, i, 1, [x]), lo, k, mid) == Replace(bs, lo, k, mid)
  {
    var bs1 := Replace(bs, i, 1, [x]);
    assert |bs1| == |bs| && forall j :: 0 <= j < |bs| && j != i ==> bs1[j] == bs[j];
  }

  // Freeing block i replaces it and its free neighbours by one free block.
  ghost function Joined(bs: seq<Blk>, i: nat): (r: (nat, nat, Blk))
    requires i < |bs|
    ensures r.0 <= i < r.0 + r.1 && r.0 + r.1 <= |bs|
  {
    var right := if RightFree(bs, i) then HEAD + bs[i + 1].size else 0;
    var k := if RightFree(bs, i) then 2 else 1;
    if LeftFree(bs, i) then (i - 1, k + 1, Blk(bs[i - 1].addr, bs[i - 1].size + HEAD + bs[i].size + right, false))
    else (i, k, Blk(bs[i].addr, bs[i].size + right, false))
  }

  lemma ReplaceOne(bs: seq<Blk>, i: nat, x: Blk)
    requires i < |bs|
    ensures var bs1 := Replace(bs, i, 1, [x]);
            |bs1| == |bs| && bs1[i] == x && (i > 0 ==> bs1[i - 1] == bs[i - 1])
                && (i + 1 < |bs| ==> bs1[i + 1] == bs[i + 1])
  {
  }

  lemma FreeIs(H: Heap, i: nat)
    requires i < |H.blocks|
    ensures var (lo, k, m) := Joined(H.blocks, i);
            && Free(H, i).blocks == Replace(H.blocks, lo, k, [m]) && Free(H, i).total == H.total
               && Free(H, i).peak == H.peak
            && Free(H, i).used == H.used - (H.blocks[i].size + HEAD)
  {
    hide Replace;
    var (lo, k, m) := Joined(H.blocks, i);
    var b := H.blocks[i].(used := false);
    ReplaceTwice(H.blocks, i, b, lo, k, [m]);
    ReplaceOne(H.blocks, i, b);
  }

  // Block i and the two blocks on either side of it.
  lemma Near(H: Heap, i: nat)
    requires Inv(H) && i < |H.blocks| && H.blocks[i].used
    ensures var bs := H.blocks;
            && bs[i].size >= 0 && bs[i].size % 4 == 0
            && (i > 0 ==>
                  && bs[i - 1].size >= 0 && bs[i - 1].size % 4 == 0
                  && bs[i].addr == bs[i - 1].addr + HEAD + bs[i - 1].size)
            && (i + 1 < |bs| ==>
                  bs[i + 1].size >= 0 && bs[i + 1].size % 4 == 0 && bs[i + 1].addr == bs[i].addr + HEAD + bs[i].size)
            && (i > 1 ==> bs[i - 2].used || bs[i - 1].used) && (i + 2 < |bs| ==> bs[i + 1].used || bs[i + 2].used)
  {
    hide Tiles, UsedSpan, Coalesced, FreeAddrs;
    At(H, i);
    if i > 0 { At(H, i - 1); }
    if i + 1 < |H.blocks| { At(H, i + 1); }
  }

  // The joined block fills the place of the blocks it is made of, of which one was in use.
  ghost predicate JoinOk(H: Heap, i: nat)
    requires i < |H.blocks|
  {
    var (lo, k, m) := Joined(H.blocks, i);
    var mid := H.blocks[lo..lo + k];
    && Tiles([m], HEAD, mid[0].addr, mid[0].addr + Span(mid, HEAD)) && Coalesced([m])
    && (lo == 0 || H.blocks[lo - 1].used) && (lo + k == |H.blocks| || H.blocks[lo + k].used)
    && UsedSpan(mid, HEAD) == H.blocks[i].size + HEAD && UsedSpan([m], HEAD) == 0
    && Live(mid) == {H.blocks[i]} && Live([m]) == {} && FreeAddrs([m]) == {m.addr}
    && (forall x :: x in FreeAddrs(mid) ==> m.addr <= x)
  }

  lemma JoinedLaw(H: Heap, i: nat)
    requires Inv(H) && i < |H.blocks| && H.blocks[i].used
    ensures JoinOk(H, i)
  {
    if LeftFree(H.blocks, i) {
      if RightFree(H.blocks, i) { JoinBoth(H, i); } else { JoinLeft(H, i); }
    } else {
      if RightFree(H.blocks, i) { JoinRight(H, i); } else { JoinNone(H, i); }
    }
  }

  lemma JoinBoth(H: Heap, i: nat)
    requires Inv(H) && i < |H.blocks| && H.blocks[i].used && LeftFree(H.blocks, i) && RightFree(H.blocks, i)
    ensures JoinOk(H, i)
  {
    hide Inv, Tiles, Span, FreeBytes, UsedSpan, Coalesced, Live, FreeAddrs;
    Near(H, i);
    Stretch(H.blocks, i - 1);
    JoinThree(H.blocks[i - 1], H.blocks[i], H.blocks[i + 1]);
  }

  lemma JoinThree(l: Blk, b: Blk, r: Blk)
    requires !l.used && b.used && !r.used && l.size >= 0 && b.size >= 0 && r.size >= 0
    requires l.size % 4 == 0 && b.size % 4 == 0 && r.size % 4 == 0
    requires b.addr == l.addr + HEAD + l.size && r.addr == b.addr + HEAD + b.size
    ensures var m, mid := Blk(l.addr, l.size + HEAD + b.size + (HEAD + r.size), false), [l, b, r];
            && Tiles([m], HEAD, l.addr, l.addr + Span(mid, HEAD)) && Coalesced([m])
            && UsedSpan(mid, HEAD) == b.size + HEAD && UsedSpan([m], HEAD) == 0
            && Live(mid) == {b} && Live([m]) == {} && FreeAddrs([m]) == {m.addr} && FreeAddrs(mid) == {l.addr, r.addr}
  {
    hide Tiles, Span, FreeBytes, UsedSpan, Coalesced, Live, FreeAddrs;
    OneIs(Blk(l.addr, l.size + HEAD + b.size + (HEAD + r.size), false), HEAD);
    ThreeIs(l, b, r, HEAD);
  }

  lemma JoinLeft(H: Heap, i: nat)
    requires Inv(H) && i < |H.blocks| && H.blocks[i].used && LeftFree(H.blocks, i) && !RightFree(H.blocks, i)
    ensures JoinOk(H, i)
  {
    hide Inv, Tiles, Span, FreeBytes, UsedSpan, Coalesced, Live, FreeAddrs;
    Near(H, i);
    Stretch(H.blocks, i - 1);
    JoinTwo(H.blocks[i - 1], H.blocks[i]);
  }

  lemma JoinRight(H: Heap, i: nat)
    requires Inv(H) && i < |H.blocks| && H.blocks[i].used && !LeftFree(H.blocks, i) && RightFree(H.blocks, i)
    ensures JoinOk(H, i)
  {
    hide Inv, Tiles, Span, FreeBytes, UsedSpan, Coalesced, Live, FreeAddrs;
    Near(H, i);
    Stretch(H.blocks, i);
    JoinTwo(H.blocks[i], H.blocks[i + 1]);
  }

  // Two neighbours, one of them used, are joined.
  lemma JoinTwo(l: Blk, r: Blk)
    requires l.used != r.used && l.size >= 0 && r.size >= 0 && l.size % 4 == 0 && r.size % 4 == 0
    requires r.addr == l.addr + HEAD + l.size
    ensures var m, mid := Blk(l.addr, l.size + (HEAD + r.size), false), [l, r];
            var b := if l.used then l else r;
            && Tiles([m], HEAD, l.addr, l.addr + Span(mid, HEAD)) && Coalesced([m])
            && UsedSpan(mid, HEAD) == b.size + HEAD && UsedSpan([m], HEAD) == 0
            && Live(mid) == {b} && Live([m]) == {} && FreeAddrs([m]) == {m.addr}
               && FreeAddrs(mid) == {if l.used then r.addr else l.addr}
  {
    hide Tiles, Span, FreeBytes, UsedSpan, Coalesced, Live, FreeAddrs;
    OneIs(Blk(l.addr, l.size + (HEAD + r.size), false), HEAD);
    TwoIs(l, r, HEAD);
  }

  lemma JoinNone(H: Heap, i: nat)
    requires Inv(H) && i < |H.blocks| && H.blocks[i].used && !LeftFree(H.blocks, i) && !RightFree(H.blocks, i)
    ensures JoinOk(H, i)
  {
    hide Inv, Tiles, Span, FreeBytes, UsedSpan, Coalesced, Live, FreeAddrs;
    Near(H, i);
    Stretch(H.blocks, i);
    JoinOne(H.blocks[i]);
  }

  lemma JoinOne(b: Blk)
    requires b.used && b.size >= 0 && b.size % 4 == 0
    ensures var m := Blk(b.addr, b.size, false);
            && Tiles([m], HEAD, b.addr, b.addr + Span([b], HEAD)) && Coalesced([m])
            && UsedSpan([b], HEAD) == b.size + HEAD && UsedSpan([m], HEAD) == 0
            && Live([b]) == {b} && Live([m]) == {} && FreeAddrs([m]) == {m.addr} && FreeAddrs([b]) == {}
  {
    hide Tiles, Span, FreeBytes, UsedSpan, Coalesced, Live, FreeAddrs;
    OneIs(b, HEAD);
    OneIs(Blk(b.addr, b.size, false), HEAD);
  }

  // rt_free keeps the invariant and takes exactly its block from the live ones, and lfree stays the
  // lowest free block if it was.
  lemma FreeLaw(H: Heap, i: nat)
    requires Inv(H) && i < |H.blocks| && H.blocks[i].used
    ensures Inv(Free(H, i)) && (Lowest(H) ==> Lowest(Free(H, i)))
    ensures Live(Free(H, i).blocks) == Live(H.blocks) - {H.blocks[i]} && Free(H, i).total == H.total
  {
    hide Tiles, Span, FreeBytes, UsedSpan, Coalesced, Live, FreeAddrs, Replace, Joined, Free;
    var (lo, k, m) := Joined(H.blocks, i);
    FreeIs(H, i);
    JoinedLaw(H, i);
    RowReplace(H.blocks, lo, k, [m], HEAD, 0, End(H));
    FreeLfree(H, i);
    At(H, i);
  }

  // Where lfree goes: to the joined block, unless it lies below it.
  lemma FreeLfree(H: Heap, i: nat)
    requires Inv(H) && i < |H.blocks| && H.blocks[i].used
    ensures var (lo, k, m) := Joined(H.blocks, i);
            var mid := H.blocks[lo..lo + k];
            && (Free(H, i).lfree == m.addr || (Free(H, i).lfree == H.lfree && H.lfree < H.blocks[i].addr
               && H.lfree !in FreeAddrs(mid)))
            && Free(H, i).lfree <= m.addr
            && Free(H, i).lfree <= H.lfree
  {
    hide Tiles, Span, FreeBytes, UsedSpan, Coalesced, Live;
    At(H, i);
    EndIndex(H);
    var bs := H.blocks;
    if i > 0 { At(H, i - 1); LfreeApart(H, i - 1); }
    if i + 1 < |bs| { At(H, i + 1); LfreeApart(H, i + 1); }
    var b := bs[i].(used := false);
    var bs1 := Replace(bs, i, 1, [b]);
    assert |bs1| == |bs| && bs1[i] == b && (i > 0 ==> bs1[i - 1] == bs[i - 1])
        && (i + 1 < |bs1| ==> bs1[i + 1] == bs[i + 1]);
    LfreeApart(H, i);
    MidAddrs(H, i);
  }

  // lfree is no address inside a block.
  lemma LfreeApart(H: Heap, i: nat)
    requires Inv(H) && i < |H.blocks|
    ensures H.lfree <= H.blocks[i].addr || H.lfree >= H.blocks[i].addr + HEAD + H.blocks[i].size
    ensures H.blocks[i].used ==> H.lfree != H.blocks[i].addr
  {
    TilesOrder(H.blocks, HEAD, 0, End(H));
    AddressOnce(H, i);
    EndIndex(H);
    if H.lfree != End(H) {
      FreeAddrIndex(H, H.lfree);
      var j := IndexAt(H.blocks, H.lfree);
      assert j == i || j < i || i < j;
    }
  }

  // The free addresses among the joined blocks.
  lemma MidAddrs(H: Heap, i: nat)
    requires Inv(H) && i < |H.blocks| && H.blocks[i].used
    ensures var (lo, k, m) := Joined(H.blocks, i);
            var mid := H.blocks[lo..lo + k];
            forall x :: x in FreeAddrs(mid) ==>
              (LeftFree(H.blocks, i) && x == H.blocks[i - 1].addr)
                  || (RightFree(H.blocks, i) && x == H.blocks[i + 1].addr)
  {
    var (lo, k, m) := Joined(H.blocks, i);
    var mid := H.blocks[lo..lo + k];
    forall x | x in FreeAddrs(mid)
      ensures (LeftFree(H.blocks, i) && x == H.blocks[i - 1].addr)
              || (RightFree(H.blocks, i) && x == H.blocks[i + 1].addr)
    {
      var c :| c in mid && !c.used && c.addr == x;
      var j :| 0 <= j < k && mid[j] == c;
      assert H.blocks[lo + j] == c;
    }
  }

  // ----- rt_realloc

  // The free block that cutting block i down to `size` bytes leaves, with its free right neighbour.
  function Rest(bs: seq<Blk>, i: nat, size: int): Blk
    requires i < |bs|
  {
    Blk(bs[i].addr + HEAD + size, bs[i].size - HEAD - size + (if RightFree(bs, i) then HEAD + bs[i + 1].size else 0),
        false)
  }

  lemma ShrinkIs(H: Heap, i: nat, size: int)
    requires i < |H.blocks|
    ensures var H', b := Shrink(H, i, size), H.blocks[i];
            && H'.blocks == Replace(H.blocks, i, if RightFree(H.blocks, i) then 2 else 1,
               [Blk(b.addr, size, true), Rest(H.blocks, i, size)])
            && H'.lfree == (if RightFree(H.blocks, i) && H.lfree == H.blocks[i + 1].addr then b.addr + HEAD + size
               else H.lfree)
            && H'.total == H.total && H'.peak == H.peak && H'.used == H.used - (b.size - size)
  {
    var bs, b := H.blocks, H.blocks[i];
    var x, y := Blk(b.addr, size, true), Blk(b.addr + HEAD + size, b.size - HEAD - size, false);
    var bs1 := Replace(bs, i, 1, [x, y]);
    assert |bs1| == |bs| + 1 && bs1[i] == x && bs1[i + 1] == y && (i + 1 < |bs| ==> bs1[i + 2] == bs[i + 1]);
    ShrinkRow(bs, i, x, y, Rest(bs, i, size), if RightFree(bs, i) then 2 else 1);
  }

  lemma ShrinkRow(bs: seq<Blk>, i: nat, x: Blk, y: Blk, rest: Blk, k: nat)
    requires i + k <= |bs| && k > 0
    ensures Replace(Replace(bs, i, 1, [x, y]), i + 1, k, [rest]) == Replace(bs, i, k, [x, rest])
  {
    var bs1 := Replace(bs, i, 1, [x, y]);
    assert bs1[..i + 1] == bs[..i] + [x];
    assert bs1[i + 1 + k..] == bs[i + k..];
    assert bs[..i] + [x] + [rest] == bs[..i] + [x, rest];
  }

  ghost predicate Shrunk(H: Heap, i: nat, size: int)
    requires i < |H.blocks|
  {
    var H', b := Shrink(H, i, size), H.blocks[i];
    && Tiles(H'.blocks, HEAD, 0, End(H)) && Coalesced(H'.blocks) && H'.used == UsedSpan(H'.blocks, HEAD)
    && Live(H'.blocks) == Live(H.blocks) - {b} + {Blk(b.addr, size, true)}
    && FreeAddrs(H'.blocks) ==
         FreeAddrs(H.blocks) - (if RightFree(H.blocks, i) then {H.blocks[i + 1].addr} else {}) + {b.addr + HEAD + size}
  }

  lemma ShrinkRowLaw(H: Heap, i: nat, size: int)
    requires Inv(H) && i < |H.blocks| && H.blocks[i].used && 0 <= size && size % 4 == 0
    requires size + HEAD + MIN < H.blocks[i].size
    ensures Shrunk(H, i, size)
  {
    if RightFree(H.blocks, i) { ShrinkWide(H, i, size); } else { ShrinkNarrow(H, i, size); }
  }

  lemma ShrinkWide(H: Heap, i: nat, size: int)
    requires Inv(H) && i < |H.blocks| && H.blocks[i].used && 0 <= size && size % 4 == 0
    requires size + HEAD + MIN < H.blocks[i].size
    requires RightFree(H.blocks, i)
    ensures Shrunk(H, i, size)
  {
    hide Tiles, Span, FreeBytes, UsedSpan, Coalesced, Live, FreeAddrs, Replace, Shrink;
    ShrinkIs(H, i, size);
    Near(H, i);
    var bs, b := H.blocks, H.blocks[i];
    var x, rest := Blk(b.addr, size, true), Rest(H.blocks, i, size);
    TwoIs(x, rest, HEAD);
    TwoTile(x, rest);
    Stretch(bs, i);
    TwoIs(b, bs[i + 1], HEAD);
    RowReplace(bs, i, 2, [x, rest], HEAD, 0, End(H));
  }

  lemma ShrinkNarrow(H: Heap, i: nat, size: int)
    requires Inv(H) && i < |H.blocks| && H.blocks[i].used && 0 <= size && size % 4 == 0
    requires size + HEAD + MIN < H.blocks[i].size
    requires !RightFree(H.blocks, i)
    ensures Shrunk(H, i, size)
  {
    hide Tiles, Span, FreeBytes, UsedSpan, Coalesced, Live, FreeAddrs, Replace, Shrink;
    ShrinkIs(H, i, size);
    Near(H, i);
    var bs, b := H.blocks, H.blocks[i];
    var x, rest := Blk(b.addr, size, true), Rest(H.blocks, i, size);
    TwoIs(x, rest, HEAD);
    TwoTile(x, rest);
    Stretch(bs, i);
    OneIs(b, HEAD);
    RowReplace(bs, i, 1, [x, rest], HEAD, 0, End(H));
  }

  // Cutting a block down keeps the invariant, and lfree points to a free block or to the end as before.
  lemma ShrinkLaw(H: Heap, i: nat, size: int)
    requires Inv(H) && i < |H.blocks| && H.blocks[i].used && 0 <= size && size % 4 == 0
    requires size + HEAD + MIN < H.blocks[i].size
    ensures Inv(Shrink(H, i, size)) && Shrink(H, i, size).total == H.total
    ensures Live(Shrink(H, i, size).blocks) == Live(H.blocks) - {H.blocks[i]} + {Blk(H.blocks[i].addr, size, true)}
  {
    hide Tiles, UsedSpan, Coalesced, Live, FreeAddrs, Shrink;
    ShrinkRowLaw(H, i, size);
    ShrinkIs(H, i, size);
    At(H, i);
    EndIndex(H);
  }

  // But lfree is not lowered: it stays the lowest free block exactly if it lay below the cut, or was
  // the neighbour that the rest is joined with.
  lemma ShrinkLowest(H: Heap, i: nat, size: int)
    requires Inv(H) && Lowest(H) && i < |H.blocks| && H.blocks[i].used && 0 <= size && size % 4 == 0
    requires size + HEAD + MIN < H.blocks[i].size
    ensures Lowest(Shrink(H, i, size)) <==>
              H.lfree < H.blocks[i].addr || (RightFree(H.blocks, i) && H.lfree == H.blocks[i + 1].addr)
  {
    hide Tiles, UsedSpan, Coalesced, Live, FreeAddrs, Shrink;
    ShrinkRowLaw(H, i, size);
    ShrinkIs(H, i, size);
    At(H, i);
    LfreeApart(H, i);
    var x := H.blocks[i].addr + HEAD + size;
    assert x in FreeAddrs(Shrink(H, i, size).blocks);
    if RightFree(H.blocks, i) && H.lfree == H.blocks[i + 1].addr {
      At(H, i + 1);
    }
  }

  // rt_realloc of the block with header x, or of no block.
  ghost function Realloc(H: Heap, p: Option<int>, newsize: int): (r: (Heap, Option<int>))
    requires p.Some? ==> IndexAt(H.blocks, p.value) < |H.blocks|
  {
    var n := M.Align(newsize);
    if n > H.total then (H, None)
    else if n == 0 then (if p.None? then H else Free(H, IndexAt(H.blocks, p.value)), None)
    else if p.None? then MallocAny(H, n)
    else
      var i := IndexAt(H.blocks, p.value);
      var size := H.blocks[i].size;
      if size == n then (H, p)
      else if n + HEAD + MIN < size then (Shrink(H, i, n), p)
      else
        var (H1, q) := MallocAny(H, n);
        if q.None? then (H, None)
        else if IndexAt(H1.blocks, p.value) < |H1.blocks| then (Free(H1, IndexAt(H1.blocks, p.value)), q)
        else (H1, q)
  }

  lemma LiveIndex(H: Heap, b: Blk)
    requires Inv(H) && b in Live(H.blocks)
    ensures IndexAt(H.blocks, b.addr) < |H.blocks| && H.blocks[IndexAt(H.blocks, b.addr)] == b && b.used
  {
    var j :| 0 <= j < |H.blocks| && H.blocks[j] == b;
    AddressOnce(H, j);
  }

  lemma MallocAnyLaw(H: Heap, size: int)
    requires Inv(H) && 0 <= size < WORD
    ensures var (H', r) := MallocAny(H, size);
            && Inv(H') && (Lowest(H) ==> Lowest(H')) && H'.total == H.total && (r.None? ==> H' == H)
            && (r.Some? ==> size > 0 && r.value % 4 == 0 && Gained(H, H', r.value, M.Request(size)))
  {
    hide Inv, Malloc, M.Align, M.Request;
    if !(size == 0 || M.Align(size) > H.total) { MallocLaw(H, M.Request(size)); }
  }

  // What rt_realloc of live block b does: the block is freed, or stays as it is, or is cut in place,
  // or gives way to a new block of sufficient size at another address; all other live blocks stay.
  lemma ReallocLaw(H: Heap, b: Blk, newsize: int)
    requires Inv(H) && b in Live(H.blocks) && 0 <= newsize < WORD
    ensures IndexAt(H.blocks, b.addr) < |H.blocks|
    ensures var (H', q) := Realloc(H, Some(b.addr), newsize);
            var n := M.Align(newsize);
            && Inv(H') && H'.total == H.total
            && (n == 0 ==> q == None && Live(H'.blocks) == Live(H.blocks) - {b})
            && (n > 0 && q.None? ==> H' == H)
            && (n == b.size > 0 && n <= H.total ==> q == Some(b.addr) && H' == H)
            && (q.Some? && H' != H ==> exists s {:trigger Blk(q.value, s, true)} ::
                  && Live(H'.blocks) == Live(H.blocks) - {b} + {Blk(q.value, s, true)}
                  && s >= n && (q.value == b.addr <==> n + HEAD + MIN < b.size) && (q.value == b.addr ==> s == n))
  {
    hide Inv, Live, Free, Shrink, MallocAny, M.Align, Lowest;
    LiveIndex(H, b);
    var n := M.Align(newsize);
    AlignIs(newsize);
    Room(H);
    if n > H.total {
    } else if n == 0 {
      FreeLaw(H, IndexAt(H.blocks, b.addr));
    } else if b.size == n {
    } else if n + HEAD + MIN < b.size {
      ShrinkLaw(H, IndexAt(H.blocks, b.addr), n);
      assert Blk(b.addr, n, true) == Blk(b.addr, n, true);
    } else {
      MallocAnyLaw(H, n);
      var (H1, q) := MallocAny(H, n);
      if q.Some? { ReallocMoves(H, b, n, H1, q.value); }
    }
  }

  lemma Room(H: Heap)
    requires Inv(H)
    ensures H.total >= MIN
  {
  }

  lemma AlignIs(size: int)
    requires 0 <= size < WORD
    ensures 0 <= M.Align(size) < WORD && M.Align(size) % 4 == 0 && M.Align(M.Align(size)) == M.Align(size)
    ensures M.Align(size) > 0 ==> M.Request(M.Align(size)) >= M.Align(size)
  {
  }

  lemma ReallocMoves(H: Heap, b: Blk, n: int, H1: Heap, x: int)
    requires Inv(H) && b in Live(H.blocks) && Inv(H1) && H1.total == H.total && Gained(H, H1, x, M.Request(n))
    requires M.Request(n) >= n
    ensures IndexAt(H1.blocks, b.addr) < |H1.blocks| && x != b.addr
    ensures var H2 := Free(H1, IndexAt(H1.blocks, b.addr));
            Inv(H2) && H2.total == H.total && exists s {:trigger Blk(x, s, true)} ::
                s >= n && Live(H2.blocks) == Live(H.blocks) - {b} + {Blk(x, s, true)}
  {
    hide Inv, Live, Free, M.Request, Lowest, IndexAt;
    var s :| M.Request(n) <= s < M.Request(n) + HEAD + MIN && Live(H1.blocks) == Live(H.blocks) + {Blk(x, s, true)};
    assert b in Live(H1.blocks);
    LiveIndex(H1, b);
    FreeLaw(H1, IndexAt(H1.blocks, b.addr));
    assert Live(H1.blocks) - {b} == Live(H.blocks) - {b} + {Blk(x, s, true)};
  }
}
