// Exactly when the calls of the small heap fail, which block serves a request, and where lfree goes.
module SmallHeapExact {
  import opened Wrappers
  import opened Blocks
  import M = MemHeapLayout
  import opened SmallHeapLayout
  import opened SmallHeapLaws

  // A free block of that size at that address could serve a request of s bytes, and the search comes to it:
  // an exactly fitting block at the very end of the heap is never found.
  predicate Fits(H: Heap, b: Blk, s: int) {
    !b.used && H.lfree <= b.addr && b.size >= s && !(b.size == s && b.addr + HEAD + b.size == End(H))
  }

  // Block i is the first one that does.
  ghost predicate FirstFitting(H: Heap, i: nat, s: int) {
    i < |H.blocks| && Fits(H, H.blocks[i], s) && forall j :: 0 <= j < i ==> !Fits(H, H.blocks[j], s)
  }

  ghost predicate Refuses(H: Heap, s: int) {
    forall b :: b in H.blocks ==> !Fits(H, b, s)
  }

  // What a block of that size is cut down to when it serves a request of s bytes.
  function CutTo(size: int, s: int): int {
    if size >= s + HEAD + MIN then s else size
  }

  // Free block i of heap H has served a request of s bytes. lfree stays, or, if it was the header of that
  // block, moves to the next free block, or to the end if there is none.
  ghost predicate Served(H: Heap, H': Heap, i: nat, s: int)
    requires i < |H.blocks|
  {
    var b := H.blocks[i];
    && Inv(H') && H'.total == H.total
    && Live(H'.blocks) == Live(H.blocks) + {Blk(b.addr, CutTo(b.size, s), true)}
    && (if H.lfree != b.addr then H'.lfree == H.lfree
        else H'.lfree > b.addr && forall x :: x in FreeAddrs(H'.blocks) && x > b.addr ==> H'.lfree <= x)
  }

  lemma CarveExact(H: Heap, i: nat, s: int)
    requires Inv(H) && i < |H.blocks| && !H.blocks[i].used && 0 <= s <= H.blocks[i].size && s % 4 == 0
    requires H.lfree <= H.blocks[i].addr
    ensures Served(H, Carve(H, i, s), i, s)
  {
    hide Inv, Lowest, Tiles, Coalesced, UsedSpan, Live, FreeAddrs, NextFree, Replace, Gained;
    CarveRow(H, i, s);
    CarveLaw(H, i, s);
    At(H, i);
    if H.lfree == H.blocks[i].addr {
      var bs := Carve(H, i, s).blocks;
      CarvedAt(H, i, s);
      NextUp(bs, i, End(H));
    }
  }

  // The block served keeps its place in the row.
  lemma CarvedAt(H: Heap, i: nat, s: int)
    requires i < |H.blocks|
    ensures var bs := Carve(H, i, s).blocks; i < |bs| && bs[i].used && bs[i].addr == H.blocks[i].addr
  {
  }

  lemma NextUp(bs: seq<Blk>, i: nat, end: int)
    requires Tiles(bs, HEAD, 0, end) && i < |bs| && bs[i].used
    ensures var x := NextFree(bs, i, end);
            x > bs[i].addr && forall y :: y in FreeAddrs(bs) && y > bs[i].addr ==> x <= y
  {
    TilesOrder(bs, HEAD, 0, end);
    var x, j := NextFree(bs, i, end), FirstFree(bs, i);
    forall y | y in FreeAddrs(bs) && y > bs[i].addr
      ensures x <= y
    {
      var c :| c in bs && !c.used && c.addr == y;
      var m :| 0 <= m < |bs| && bs[m] == c;
      assert m > i;
      assert m >= j;
    }
  }

  // rt_malloc of an aligned size: it fails exactly if no block fits, and else the first one that fits, from
  // lfree on, serves the request.
  lemma MallocExact(H: Heap, s: int)
    requires Inv(H) && MIN <= s <= H.total && s % 4 == 0
    ensures var (H', r) := Malloc(H, s);
            && (r.None? <==> Refuses(H, s)) && (r.None? ==> H' == H)
            && (r.Some? ==> exists i: nat :: FirstFitting(H, i, s) && r.value == H.blocks[i].addr && Served(H, H', i,
               s))
  {
    hide Inv, Carve, Served;
    SearchExact(H, s);
    var r := Search(H.blocks, IndexAt(H.blocks, H.lfree), Bound(H.total, s), s);
    if r.Some? {
      CarveExact(H, r.value, s);
      assert FirstFitting(H, r.value, s);
    }
  }

  // The loop finds exactly the blocks that fit.
  lemma SearchExact(H: Heap, s: int)
    requires Inv(H) && MIN <= s <= H.total && s % 4 == 0
    ensures var r := Search(H.blocks, IndexAt(H.blocks, H.lfree), Bound(H.total, s), s);
            if r.Some? then FirstFitting(H, r.value, s) && H.lfree <= H.blocks[r.value].addr else Refuses(H, s)
  {
    hide Coalesced, UsedSpan, Bound;
    Start(H);
    BoundIs(H, s);
    TilesOrder(H.blocks, HEAD, 0, End(H));
    SearchIs(H.blocks, IndexAt(H.blocks, H.lfree), Bound(H.total, s), s);
    assert forall b :: b in H.blocks && Fits(H, b, s) ==> b.addr < Bound(H.total, s);
  }

  lemma BoundIs(H: Heap, s: int)
    requires Inv(H) && MIN <= s <= H.total
    ensures Bound(H.total, s) == H.total - s
  {
  }

  // The sizes rt_malloc itself refuses: zero, more than the heap, and those no block fits. The three topmost
  // sizes round to zero and are served like the least request.
  lemma MallocAnyExact(H: Heap, size: int)
    requires Inv(H) && 0 <= size < WORD
    ensures var (H', r) := MallocAny(H, size);
            && (r.None? <==> size == 0 || (H.total < size <= WORD - 4) || Refuses(H, M.Request(size)))
            && (r.None? ==> H' == H)
            && (r.Some? ==> exists i: nat ::
                  FirstFitting(H, i, M.Request(size)) && r.value == H.blocks[i].addr
                  && Served(H, H', i, M.Request(size)))
  {
    hide Inv, Malloc, Served, FirstFitting, Refuses;
    Rounds(H, size);
    if size != 0 && M.Align(size) <= H.total { MallocExact(H, M.Request(size)); }
  }

  lemma Rounds(H: Heap, size: int)
    requires Inv(H) && 0 <= size < WORD
    ensures MIN <= M.Request(size) && M.Request(size) % 4 == 0
    ensures M.Align(size) <= H.total ==> M.Request(size) <= H.total
    ensures M.Align(size) > H.total <==> H.total < size <= WORD - 4
  {
  }

  // rt_realloc of no block is rt_malloc, except that it refuses what rounds to zero.
  lemma ReallocOfNone(H: Heap, newsize: int)
    requires Inv(H) && 0 <= newsize < WORD
    ensures Realloc(H, None, newsize) ==
            if newsize == 0 || newsize > WORD - 4 then (H, None) else MallocAny(H, newsize)
  {
    hide Inv, Malloc;
    AlignedRequest(newsize);
  }

  lemma AlignedRequest(newsize: int)
    requires 0 <= newsize < WORD
    ensures M.Align(newsize) == 0 <==> newsize == 0 || newsize > WORD - 4
    ensures M.Align(M.Align(newsize)) == M.Align(newsize) && M.Request(M.Align(newsize)) == M.Request(newsize)
  {
  }

  // Block b has given way to one at address x that serves a request of s bytes.
  ghost predicate MovedTo(H: Heap, H': Heap, b: Blk, x: int, s: int) {
    exists i: nat ::
      && FirstFitting(H, i, s) && x == H.blocks[i].addr
      && Live(H'.blocks) == Live(H.blocks) - {b} + {Blk(x, CutTo(H.blocks[i].size, s), true)}
  }

  // Exactly when rt_realloc fails, and what it does otherwise: a block that keeps its size stays, one that
  // can give back a header and a least payload is cut in place, and any other one, smaller or larger, moves into
  // the block that rt_malloc finds.
  lemma ReallocExact(H: Heap, b: Blk, newsize: int)
    requires Inv(H) && b in Live(H.blocks) && 0 < newsize <= WORD - 4
    ensures IndexAt(H.blocks, b.addr) < |H.blocks|
    ensures var (H', q) := Realloc(H, Some(b.addr), newsize);
            var n, s := M.Align(newsize), M.Request(newsize);
            && Inv(H')
            && (q.None? <==> n > H.total || (n != b.size && n + HEAD + MIN >= b.size && Refuses(H, s)))
            && (q.None? || n == b.size ==> H' == H)
            && (n == b.size && n <= H.total ==> q == Some(b.addr))
            && (q.Some? && n != b.size ==>
                  if n + HEAD + MIN < b.size then
                    q == Some(b.addr) && Live(H'.blocks) == Live(H.blocks) - {b} + {Blk(b.addr, n, true)}
                  else MovedTo(H, H', b, q.value, s))
  {
    hide Inv, Live, Free, Shrink, MallocAny, M.Align, M.Request, Lowest, Served, Refuses, CutTo, IndexAt;
    LiveIndex(H, b);
    AlignedRequest(newsize);
    var n := M.Align(newsize);
    RoundsUp(newsize);
    if n <= H.total && n != b.size {
      if n + HEAD + MIN < b.size {
        ShrinkLaw(H, IndexAt(H.blocks, b.addr), n);
      } else {
        MallocAnyExact(H, n);
        NotOver(H, n);
        var (H1, q) := MallocAny(H, n);
        if q.Some? {
          var i: nat :| FirstFitting(H, i, M.Request(n)) && q.value == H.blocks[i].addr
                        && Served(H, H1, i, M.Request(n));
          MovesInto(H, b, H1, i, M.Request(n));
        }
      }
    }
  }

  lemma RoundsUp(newsize: int)
    requires 0 < newsize <= WORD - 4
    ensures 0 < M.Align(newsize) < WORD && M.Align(newsize) % 4 == 0
  {
  }

  lemma NotOver(H: Heap, n: int)
    requires Inv(H) && 0 < n <= H.total
    ensures n != 0 && !(H.total < n <= WORD - 4)
  {
  }

  lemma MovesInto(H: Heap, b: Blk, H1: Heap, i: nat, s: int)
    requires Inv(H) && b in Live(H.blocks) && FirstFitting(H, i, s) && Served(H, H1, i, s)
    ensures IndexAt(H1.blocks, b.addr) < |H1.blocks|
    ensures var H2 := Free(H1, IndexAt(H1.blocks, b.addr));
            && Inv(H2)
            && Live(H2.blocks) == Live(H.blocks) - {b} + {Blk(H.blocks[i].addr, CutTo(H.blocks[i].size, s), true)}
  {
    hide Inv, Free, Lowest, IndexAt, CutTo, Live;
    var moved := Blk(H.blocks[i].addr, CutTo(H.blocks[i].size, s), true);
    FreeApart(H, i);
    assert b in Live(H1.blocks) && b != moved;
    LiveIndex(H1, b);
    FreeLaw(H1, IndexAt(H1.blocks, b.addr));
    assert Live(H1.blocks) - {b} == Live(H.blocks) - {b} + {moved};
  }

  // Where lfree goes when a block is freed: it stays if it lies below, and else moves to the header of the
  // free block that the freed one has become part of.
  lemma FreeLfreeExact(H: Heap, i: nat)
    requires Inv(H) && i < |H.blocks| && H.blocks[i].used
    ensures Free(H, i).lfree == if H.lfree < H.blocks[i].addr then H.lfree
            else if LeftFree(H.blocks, i) then H.blocks[i - 1].addr else H.blocks[i].addr
  {
    hide Tiles, Span, FreeBytes, UsedSpan, Coalesced, Live;
    At(H, i);
    LfreeApart(H, i);
    var bs := H.blocks;
    if i > 0 { At(H, i - 1); }
    if i + 1 < |bs| { At(H, i + 1); LfreeApart(H, i + 1); }
    ReplaceOne(bs, i, bs[i].(used := false));
  }

  // And when a block is cut: it stays, unless it was the right neighbour, which the rest is joined with.
  lemma ShrinkLfreeExact(H: Heap, i: nat, size: int)
    requires Inv(H) && i < |H.blocks| && H.blocks[i].used && 0 <= size && size % 4 == 0
    requires size + HEAD + MIN < H.blocks[i].size
    ensures Shrink(H, i, size).lfree ==
            if RightFree(H.blocks, i) && H.lfree == H.blocks[i + 1].addr then H.blocks[i].addr + HEAD + size
                else H.lfree
  {
    ShrinkIs(H, i, size);
  }
}
