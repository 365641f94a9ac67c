// rt-thread/src/mem.c: the small heap. Every block starts with a header whose `next` and `prev` are the
// offsets of the neighbouring headers; the last header, heap_end, is a sentinel that is marked used and
// is its own next. A header field is a map from header offsets to values, rewritten in place.
module SmallHeap {
  import opened Wrappers
  import opened Rings
  import opened Blocks
  import opened Payloads
  import M = MemHeapLayout
  import opened SmallHeapLayout
  import opened SmallHeapLaws

  // The links of the headers `a`: next leads from each to the following one and from the last to
  // itself; prev leads back, except that the first one's prev is itself and the sentinel's is not kept.
  ghost predicate Chain(next: map<int, int>, prev: map<int, int>, a: seq<int>) {
    && |a| > 1 && Distinct(a)
    && (forall i :: 0 <= i < |a| ==> a[i] in next && a[i] in prev)
    && (forall i :: 0 <= i < |a| - 1 ==> next[a[i]] == a[i + 1])
    && next[a[|a| - 1]] == a[|a| - 1]
    && prev[a[0]] == a[0]
    && (forall i :: 0 < i < |a| - 1 ==> prev[a[i]] == a[i - 1])
  }

  lemma ChainInsert(next: map<int, int>, prev: map<int, int>, a: seq<int>, i: nat, x: int, next': map<int, int>,
                    prev': map<int, int>)
    requires Chain(next, prev, a) && i + 1 < |a| && x !in a
    requires next' == next[x := a[i + 1]][a[i] := x]
    requires prev' == if i + 2 < |a| then prev[x := a[i]][a[i + 1] := x] else prev[x := a[i]]
    ensures Chain(next', prev', Insert(a, i + 1, x))
  {
    hide Distinct, Insert;
    InsertIs(a, i + 1, x);
    InsertDistinct(a, i + 1, x);
    Apart(a, i);
    Apart(a, i + 1);
    var c := Insert(a, i + 1, x);
    forall j | 0 <= j < |c|
      ensures c[j] in next' && c[j] in prev'
      ensures j < |c| - 1 ==> next'[c[j]] == c[j + 1]
      ensures 0 < j < |c| - 1 ==> prev'[c[j]] == c[j - 1]
    {
      if j > i + 1 { assert c[j] == a[j - 1]; }
    }
    assert c[0] == a[0] && c[|c| - 1] == a[|a| - 1];
  }

  lemma InsertIs(a: seq<int>, k: nat, x: int)
    requires 0 < k <= |a|
    ensures var c := Insert(a, k, x);
            && |c| == |a| + 1 && c[k] == x && c[0] == a[0]
            && (forall j :: 0 <= j < k ==> c[j] == a[j]) && (forall j :: k < j < |c| ==> c[j] == a[j - 1])
  {
  }

  lemma Apart(a: seq<int>, i: nat)
    requires Distinct(a) && i < |a|
    ensures forall j :: 0 <= j < |a| && j != i ==> a[j] != a[i]
  {
  }

  lemma InsertDistinct(a: seq<int>, k: nat, x: int)
    requires Distinct(a) && k <= |a| && x !in a
    ensures Distinct(Insert(a, k, x))
  {
    var c := Insert(a, k, x);
    forall i, j | 0 <= i < j < |c|
      ensures c[i] != c[j]
    {
      if i != k && j != k { assert c[i] == a[if i < k then i else i - 1] && c[j] == a[if j < k then j else j - 1]; }
    }
  }

  lemma ChainRemove(next: map<int, int>, prev: map<int, int>, a: seq<int>, i: nat, next': map<int, int>,
                    prev': map<int, int>)
    requires Chain(next, prev, a) && 0 < i < |a| - 1
    requires next' == next[a[i - 1] := a[i + 1]] && prev' == prev[a[i + 1] := a[i - 1]]
    ensures Chain(next', prev', Drop(a, i))
  {
    var c := Drop(a, i);
    assert (forall j :: 0 <= j < i ==> c[j] == a[j]) && (forall j :: i <= j < |c| ==> c[j] == a[j + 1]);
  }

  // The neighbours of header a[i], read off its links.
  lemma ChainAt(next: map<int, int>, prev: map<int, int>, a: seq<int>, i: nat)
    requires Chain(next, prev, a) && i + 1 < |a|
    ensures a[i] in next && a[i] in prev && a[i + 1] in next && a[i + 1] in prev
    ensures next[a[i]] == a[i + 1] && a[i] != a[i + 1] && prev[a[i]] == a[if i > 0 then i - 1 else 0]
    ensures i > 0 ==> a[i - 1] != a[i]
    ensures i + 2 < |a| ==> next[a[i + 1]] == a[i + 2] && a[i + 2] in prev
  {
  }

  // The headers left when header i is joined with its neighbours.
  ghost function MergedRow(a: seq<int>, i: nat, left: bool, right: bool): seq<int>
    requires i + 1 < |a|
  {
    var a1 := if right then Drop(a, i + 1) else a;
    if left then Drop(a1, i) else a1
  }

  class SmallHeap {
    const total: int              // mem_size_aligned
    var next: map<int, int>
    var prev: map<int, int>
    var used: map<int, bool>
    var lfree: int
    var usedMem: int
    var maxMem: int
    var data: seq<bv8>
    ghost var blocks: seq<Blk>

    ghost function View(): Heap
      reads `lfree, `usedMem, `maxMem, `blocks
    {
      Heap(total, blocks, lfree, usedMem, maxMem)
    }

    function HeapEnd(): int { total + HEAD }

    ghost function Row(): seq<int>
      reads `blocks
    {
      Addrs(blocks) + [HeapEnd()]
    }

    ghost predicate Links()
      reads `next, `prev, `blocks
    {
      Chain(next, prev, Row())
    }

    ghost predicate Flags()
      reads `used, `blocks
    {
      FlagsFor(used, blocks) && HeapEnd() in used && used[HeapEnd()]
    }

    ghost predicate Valid()
      reads this
    {
      Inv(View()) && Links() && Flags() && |data| == total + 2 * HEAD
    }

    // rt_system_heap_init over an aligned stretch of memory
    constructor (memory: seq<bv8>)
      requires 2 * HEAD + MIN <= |memory| < WORD && |memory| % 4 == 0
      ensures Valid() && View() == Init(|memory|) && data == memory
    {
      var size := |memory| - 2 * HEAD;
      total := size;
      next := map[0 := size + HEAD, size + HEAD := size + HEAD];
      prev := map[0 := 0, size + HEAD := size + HEAD];
      used := map[0 := false, size + HEAD := true];
      lfree := 0;
      usedMem := 0;
      maxMem := 0;
      data := memory;
      blocks := [Blk(0, size, false)];
      new;
      InitInv(|memory|);
      assert Row() == [0, size + HEAD];
    }

    // Block i and what its header says.
    lemma HeaderAt(i: nat)
      requires Links() && Flags() && i < |blocks|
      ensures var x := blocks[i].addr;
              && Row()[i] == x && x in next && x in prev && x in used && used[x] == blocks[i].used
              && next[x] == Row()[i + 1] && next[x] in used && (!used[next[x]] <==> RightFree(blocks, i))
              && prev[x] == Row()[if i > 0 then i - 1 else 0] && prev[x] in used
              && (prev[x] != x && !used[prev[x]] <==> LeftFree(blocks, i))
              && (i + 1 < |blocks| ==> next[x] == blocks[i + 1].addr) && (i + 1 == |blocks| ==> next[x] == HeapEnd())
              && (i > 0 ==> prev[x] == blocks[i - 1].addr) && x != HeapEnd() && next[x] != x
    {
      ChainAt(next, prev, Row(), i);
      assert blocks[i] in blocks && (i > 0 ==> blocks[i - 1] in blocks)
          && (i + 1 < |blocks| ==> blocks[i + 1] in blocks);
      assert i > 0 ==> Row()[i - 1] == blocks[i - 1].addr;
      assert Row()[|blocks|] == HeapEnd();
    }

    // The size of a block is read off its `next`.
    lemma SizeOf(i: nat)
      requires Inv(View()) && Links() && Flags() && i < |blocks|
      ensures blocks[i].addr in next && next[blocks[i].addr] == blocks[i].addr + HEAD + blocks[i].size
    {
      hide Inv, Links, Flags;
      HeaderAt(i);
      At(View(), i);
    }

    // ----- plug_holes

    // Takes header i out of the row.
    method Unlink(l: int, x: int, ghost a: seq<int>, ghost i: nat)
      requires Chain(next, prev, a) && 0 < i < |a| - 1 && a[i] == x && a[i - 1] == l
      modifies `next, `prev
      ensures Chain(next, prev, Drop(a, i))
    {
      ChainRemove(next, prev, a, i, next[l := next[x]], prev[next[x] := l]);
      next := next[l := next[x]];
      prev := prev[next[x] := l];
    }

    method PlugHoles(x: int, ghost i: nat)
      requires Links() && Flags() && i < |blocks| && blocks[i].addr == x && !blocks[i].used
      modifies `next, `prev, `lfree, `blocks
      ensures Links() && Flags() && View() == Plug(old(View()), i)
    {
      hide Chain, FlagsFor, Replace, RightFree, LeftFree, Plug, MergedRow;
      ghost var H := View();
      HeaderAt(i);
      PlugRow(H, i);
      PlugFlags(H, i, used);
      PlugIs(H, i);
      Merge(x, Row(), i, LeftFree(blocks, i), RightFree(blocks, i));
      blocks := Plug(H, i).blocks;
    }

    // The in-place part: the two joins, and lfree following them.
    method Merge(x: int, ghost a: seq<int>, ghost i: nat, ghost left: bool, ghost right: bool)
      requires Chain(next, prev, a) && i + 1 < |a| && a[i] == x && a[|a| - 1] == HeapEnd()
      requires x in prev && prev[x] in used && (prev[x] != x && !used[prev[x]] <==> left)
      requires x in next && next[x] in used && (!used[next[x]] <==> right) && HeapEnd() in used && used[HeapEnd()]
      modifies `next, `prev, `lfree
      ensures Chain(next, prev, MergedRow(a, i, left, right))
      ensures var lf1 := if right && old(lfree) == a[i + 1] then x else old(lfree);
              lfree == if left && lf1 == x then a[if i > 0 then i - 1 else 0] else lf1
    {
      hide Chain, Drop;
      ChainAt(next, prev, a, i);
      ghost var a1 := if right then Drop(a, i + 1) else a;
      var n := next[x];
      if x != n && !used[n] && n != HeapEnd() {
        assert i + 1 < |a| - 1;
        if lfree == n {
          lfree := x;
        }
        DropIs(a, i + 1);
        Unlink(x, n, a, i + 1);
      }
      ChainAt(next, prev, a1, i);
      var p := prev[x];
      if p != x && !used[p] {
        if lfree == x {
          lfree := p;
        }
        Unlink(p, x, a1, i);
      }
    }

    static lemma DropIs(a: seq<int>, k: nat)
      requires k < |a|
      ensures |Drop(a, k)| == |a| - 1 && (forall j :: 0 <= j < k ==> Drop(a, k)[j] == a[j])
      ensures forall j :: k <= j < |a| - 1 ==> Drop(a, k)[j] == a[j + 1]
    {
    }

    static lemma PlugIs(H: Heap, i: nat)
      requires i < |H.blocks|
      ensures var a, left, right := Addrs(H.blocks) + [End(H)], LeftFree(H.blocks, i), RightFree(H.blocks, i);
              var lf1 := if right && H.lfree == a[i + 1] then H.blocks[i].addr else H.lfree;
              && Plug(H, i) == H.(blocks := Plug(H, i).blocks, lfree := Plug(H, i).lfree)
              && Plug(H, i).lfree == if left && lf1 == H.blocks[i].addr then a[if i > 0 then i - 1 else 0] else lf1
    {
    }

    static lemma PlugRow(H: Heap, i: nat)
      requires i < |H.blocks|
      ensures Addrs(Plug(H, i).blocks) + [End(H)] == MergedRow(Addrs(H.blocks) + [End(H)], i, LeftFree(H.blocks, i),
              RightFree(H.blocks, i))
    {
      hide Addrs, Drop, Replace;
      var bs, bs' := H.blocks, Plug(H, i).blocks;
      if LeftFree(bs, i) {
        var l := bs[i - 1];
        if RightFree(bs, i) {
          JoinedThree(bs, i - 1, Blk(l.addr, l.size + HEAD + (bs[i].size + HEAD + bs[i + 1].size), false), End(H));
        } else {
          JoinedTwo(bs, i - 1, Blk(l.addr, l.size + HEAD + bs[i].size, false), End(H));
        }
      } else if RightFree(bs, i) {
        JoinedTwo(bs, i, Blk(bs[i].addr, bs[i].size + HEAD + bs[i + 1].size, false), End(H));
      } else {
        JoinedOne(bs, i, Blk(bs[i].addr, bs[i].size, false), End(H));
      }
    }

    static lemma JoinedOne(bs: seq<Blk>, j: nat, m: Blk, end: int)
      requires j < |bs| && m.addr == bs[j].addr
      ensures Addrs(Replace(bs, j, 1, [m])) + [end] == Addrs(bs) + [end]
    {
    }

    static lemma JoinedTwo(bs: seq<Blk>, j: nat, m: Blk, end: int)
      requires j + 1 < |bs| && m.addr == bs[j].addr
      ensures Addrs(Replace(bs, j, 2, [m])) + [end] == Drop(Addrs(bs) + [end], j + 1)
    {
    }

    static lemma JoinedThree(bs: seq<Blk>, j: nat, m: Blk, end: int)
      requires j + 2 < |bs| && m.addr == bs[j].addr
      ensures Addrs(Replace(bs, j, 3, [m])) + [end] == Drop(Drop(Addrs(bs) + [end], j + 2), j + 1)
    {
    }

    static lemma PlugFlags(H: Heap, i: nat, used: map<int, bool>)
      requires i < |H.blocks| && FlagsFor(used, H.blocks) && !H.blocks[i].used
      ensures FlagsFor(used, Plug(H, i).blocks)
    {
      var bs := H.blocks;
      forall b | b in Plug(H, i).blocks
        ensures b.addr in used && used[b.addr] == b.used
      {
        assert b in bs || (b.addr == bs[i].addr && !b.used) || (LeftFree(bs, i) && b.addr == bs[i - 1].addr && !b.used);
      }
    }

    // ----- rt_malloc

    // Writes a fresh header for a free block at address x, between x's left neighbour l and l's next;
    // the bytes it covers are lost.
    method InsertHeader(l: int, x: int, ghost a: seq<int>, ghost i: nat)
      requires Chain(next, prev, a) && i + 1 < |a| && a[i] == l && a[|a| - 1] == HeapEnd() && x !in a
      requires 0 <= x && x + HEAD <= |data|
      modifies `next, `prev, `used, `data
      ensures Chain(next, prev, Insert(a, i + 1, x)) && used == old(used)[x := false]
      ensures |data| == |old(data)| && forall k :: 0 <= k < |data| && !(x <= k < x + HEAD) ==> data[k] == old(data)[k]
    {
      var after := next[l];
      ChainInsert(next, prev, a, i, x, next[x := after][l := x],
                  if i + 2 < |a| then prev[x := l][a[i + 1] := x] else prev[x := l]);
      assert after == a[i + 1] && (after == HeapEnd() <==> i + 2 == |a|);
      assert |seq<bv8>(HEAD, _ => 0)| == HEAD;
      var image: seq<bv8> :| |image| == HEAD;
      data := data[..x] + image + data[x + HEAD..];
      used := used[x := false];
      next := next[x := next[l]];
      prev := prev[x := l];
      next := next[l := x];
      if next[x] != HeapEnd() {
        prev := prev[next[x] := x];
      }
    }

    method CountUsed(delta: int)
      modifies `usedMem, `maxMem
      ensures usedMem == old(usedMem) + delta && maxMem == Most(old(maxMem), usedMem)
    {
      usedMem := usedMem + delta;
      if maxMem < usedMem {
        maxMem := usedMem;
      }
    }

    // Address x lies strictly inside block i: it is no header, and a header written there spares every
    // other payload.
    static lemma Inside(H: Heap, i: nat, x: int)
      requires Inv(H) && i < |H.blocks| && H.blocks[i].addr < x <= H.blocks[i].addr + H.blocks[i].size
      ensures x !in Addrs(H.blocks) && x != End(H) && 0 <= x && x + HEAD <= End(H)
      ensures forall b, k :: b in H.blocks && b != H.blocks[i] && InPayload(HEAD, b, k) ==> !(x <= k < x + HEAD)
    {
      hide Coalesced, UsedSpan, FreeAddrs;
      TilesOrder(H.blocks, HEAD, 0, End(H));
      forall j | 0 <= j < |H.blocks|
        ensures H.blocks[j].addr != x
      {
        assert j < i || j == i || i < j;
      }
    }

    static lemma KeptOutside(H: Heap, i: nat, x: int, before: seq<bv8>, after: seq<bv8>)
      requires Inv(H) && i < |H.blocks| && H.blocks[i].addr < x <= H.blocks[i].addr + H.blocks[i].size
      requires |before| == |after| && forall k :: 0 <= k < |after| && !(x <= k < x + HEAD) ==> after[k] == before[k]
      ensures Kept(HEAD, Live(H.blocks) - {H.blocks[i]}, before, after)
      ensures !H.blocks[i].used ==> Kept(HEAD, Live(H.blocks), before, after)
    {
      hide Inv, InPayload;
      Inside(H, i, x);
    }

    // What cutting block i into a used and a free part does to the headers.
    static lemma CutRow(H: Heap, i: nat, size: int, used: map<int, bool>)
      requires Inv(H) && i < |H.blocks| && 0 <= size && size + HEAD <= H.blocks[i].size
      requires FlagsFor(used, H.blocks) && End(H) in used && used[End(H)]
      ensures var b := H.blocks[i];
              var x := b.addr + HEAD + size;
              var bs' := Replace(H.blocks, i, 1, [Blk(b.addr, size, true), Blk(x, b.size - HEAD - size, false)]);
              && Addrs(bs') + [End(H)] == Insert(Addrs(H.blocks) + [End(H)], i + 1, x)
              && FlagsFor(used[x := false][b.addr := true], bs')
              && End(H) in used[x := false][b.addr := true] && used[x := false][b.addr := true][End(H)]
    {
      hide Inv, Replace, Insert, Addrs, FlagsFor, InPayload;
      var b := H.blocks[i];
      var x := b.addr + HEAD + size;
      Inside(H, i, x);
      AddressOnce(H, i);
      At(H, i);
      NotHeader(H.blocks, x);
      CutAddrs(H.blocks, i, Blk(b.addr, size, true), Blk(x, b.size - HEAD - size, false), End(H));
      CutFlags(H.blocks, i, Blk(b.addr, size, true), Blk(x, b.size - HEAD - size, false), used);
    }

    static lemma NotHeader(bs: seq<Blk>, x: int)
      requires x !in Addrs(bs)
      ensures forall j :: 0 <= j < |bs| ==> bs[j].addr != x
    {
      assert forall j :: 0 <= j < |bs| ==> Addrs(bs)[j] == bs[j].addr;
    }

    static lemma CutAddrs(bs: seq<Blk>, i: nat, b: Blk, c: Blk, end: int)
      requires i < |bs| && b.addr == bs[i].addr
      ensures Addrs(Replace(bs, i, 1, [b, c])) + [end] == Insert(Addrs(bs) + [end], i + 1, c.addr)
    {
    }

    static lemma CutFlags(bs: seq<Blk>, i: nat, b: Blk, c: Blk, used: map<int, bool>)
      requires i < |bs| && FlagsFor(used, bs) && b.addr == bs[i].addr && b.used && !c.used && c.addr != b.addr
      requires forall j :: 0 <= j < |bs| ==> bs[j].addr != c.addr && (j != i ==> bs[j].addr != b.addr)
      ensures FlagsFor(used[c.addr := false][b.addr := true], Replace(bs, i, 1, [b, c]))
    {
      assert forall j :: 0 <= j < |bs| ==> bs[j] in bs;
      FlagsReplace(used, used[c.addr := false][b.addr := true], bs, i, 1, [b, c]);
    }

    // Marking block i.
    static lemma MarkRow(H: Heap, i: nat, used: map<int, bool>, u: bool)
      requires Inv(H) && i < |H.blocks| && FlagsFor(used, H.blocks) && End(H) in used && used[End(H)]
      ensures var b := H.blocks[i];
              var bs' := Replace(H.blocks, i, 1, [b.(used := u)]);
              && Addrs(bs') == Addrs(H.blocks) && FlagsFor(used[b.addr := u], bs')
              && End(H) in used[b.addr := u] && used[b.addr := u][End(H)]
    {
      hide Inv, Replace, Addrs, FlagsFor;
      AddressOnce(H, i);
      At(H, i);
      MarkAddrs(H.blocks, i, u);
      MarkFlags(H.blocks, i, used, u);
    }

    static lemma MarkAddrs(bs: seq<Blk>, i: nat, u: bool)
      requires i < |bs|
      ensures Addrs(Replace(bs, i, 1, [bs[i].(used := u)])) == Addrs(bs)
    {
    }

    static lemma MarkFlags(bs: seq<Blk>, i: nat, used: map<int, bool>, u: bool)
      requires i < |bs| && FlagsFor(used, bs) && forall j :: 0 <= j < |bs| && j != i ==> bs[j].addr != bs[i].addr
      ensures FlagsFor(used[bs[i].addr := u], Replace(bs, i, 1, [bs[i].(used := u)]))
    {
      assert forall j :: 0 <= j < |bs| ==> bs[j] in bs;
      FlagsReplace(used, used[bs[i].addr := u], bs, i, 1, [bs[i].(used := u)]);
    }

    // Free block i is cut, or taken whole.
    method Take(x: int, size: int, ghost i: nat)
      requires Valid() && i < |blocks| && blocks[i].addr == x && !blocks[i].used && MIN <= size <= blocks[i].size
      requires size % 4 == 0
      modifies `next, `prev, `used, `usedMem, `maxMem, `data, `blocks
      ensures Links() && Flags() && |data| == total + 2 * HEAD
      ensures var H, H' := old(View()), Carve(old(View()), i, size); View() == H'.(lfree := H.lfree)
      ensures Kept(HEAD, Live(old(blocks)), old(data), data)
    {
      hide Inv, Links, Flags, Kept, Live, Replace, NextFree;
      SizeOf(i);
      if next[x] - (x + HEAD) >= size + HEAD + MIN {
        TakeFront(x, size, i);
        CountUsed(size + HEAD);
      } else {
        KeptSame(HEAD, Live(blocks), data);
        TakeWhole(x, i);
        CountUsed(next[x] - x);
      }
    }

    method TakeFront(x: int, size: int, ghost i: nat)
      requires Valid() && i < |blocks| && blocks[i].addr == x && !blocks[i].used
      requires MIN <= size && size + HEAD + MIN <= blocks[i].size
      modifies `next, `prev, `used, `data, `blocks
      ensures Links() && Flags() && |data| == total + 2 * HEAD
      ensures var b := old(blocks)[i];
              blocks == Replace(old(blocks), i, 1,
                  [Blk(x, size, true), Blk(x + HEAD + size, b.size - HEAD - size, false)])
      ensures Kept(HEAD, Live(old(blocks)), old(data), data)
    {
      hide Inv, Chain, FlagsFor, Kept, Live, Replace, InPayload, Insert, Addrs;
      ghost var b := blocks[i];
      HeaderAt(i);
      var y := x + HEAD + size;
      Inside(View(), i, y);
      CutRow(View(), i, size, used);
      InsertHeader(x, y, Row(), i);
      used := used[x := true];
      KeptOutside(View(), i, y, old(data), data);
      blocks := Replace(blocks, i, 1, [Blk(x, size, true), Blk(y, b.size - HEAD - size, false)]);
    }

    method TakeWhole(x: int, ghost i: nat)
      requires Valid() && i < |blocks| && blocks[i].addr == x
      modifies `used, `blocks
      ensures Links() && Flags() && blocks == Replace(old(blocks), i, 1, [old(blocks)[i].(used := true)])
    {
      hide Inv, Chain, FlagsFor, Replace, Addrs;
      MarkRow(View(), i, used, true);
      used := used[x := true];
      blocks := Replace(blocks, i, 1, [blocks[i].(used := true)]);
    }

    // lfree moves on to the next free block, or to the sentinel.
    method Advance(ghost i: nat)
      requires Links() && Flags() && i < |blocks| && lfree == blocks[i].addr
      modifies `lfree
      ensures lfree == NextFree(blocks, i, HeapEnd())
    {
      hide Chain, FlagsFor;
      ghost var k: nat := i;
      HeaderAt(i);
      while used[lfree] && lfree != HeapEnd()
        invariant i <= k <= |blocks| && lfree == Row()[k] && lfree in used && lfree in next
        invariant k < |blocks| ==> lfree == blocks[k].addr && used[lfree] == blocks[k].used && lfree != HeapEnd()
        invariant FirstFree(blocks, i) == FirstFree(blocks, k)
        decreases |blocks| - k
      {
        HeaderAt(k);
        assert Row()[|blocks|] == HeapEnd();
        if k + 1 < |blocks| { HeaderAt(k + 1); } else { EndLinked(); }
        lfree := next[lfree];
        k := k + 1;
      }
    }

    lemma EndLinked()
      requires Links()
      ensures HeapEnd() in next
    {
      assert Row()[|blocks|] == HeapEnd();
    }

    method Serve(x: int, size: int, ghost i: nat)
      requires Valid() && i < |blocks| && blocks[i].addr == x && !blocks[i].used && MIN <= size <= blocks[i].size
      requires size % 4 == 0
      requires lfree <= x
      modifies this
      ensures Valid() && View() == Carve(old(View()), i, size) && Kept(HEAD, Live(old(blocks)), old(data), data)
    {
      hide Inv, Links, Flags, Kept, Live, NextFree, Replace;
      ghost var H := View();
      CarveLaw(H, i, size);
      CarvedHere(H, i, size);
      Take(x, size, i);
      if x == lfree {
        Advance(i);
      }
    }

    static lemma CarvedHere(H: Heap, i: nat, size: int)
      requires i < |H.blocks|
      ensures var bs := Carve(H, i, size).blocks; i < |bs| && bs[i].addr == H.blocks[i].addr
    {
    }

    ghost function PayloadOf(r: Option<int>): Option<int> {
      if r.None? then None else Some(r.value + HEAD)
    }

    // rt_malloc
    method Malloc(request: int) returns (p: Option<int>)
      requires Valid() && 0 <= request < WORD
      modifies this
      ensures Valid()
      ensures (View(), p) == (MallocAny(old(View()), request).0, PayloadOf(MallocAny(old(View()), request).1))
      ensures Kept(HEAD, Live(old(blocks)), old(data), data)
    {
      hide Inv, Links, Flags, Kept, Live, SmallHeapLayout.Malloc, M.Align;
      KeptSame(HEAD, Live(blocks), data);
      if request == 0 {
        return None;
      }
      var size := M.Align(request);
      if size > total {
        return None;
      }
      RequestIs(request, total);
      Room(View());
      if size < MIN {
        size := MIN;
      }
      p := SearchAndTake(size);
    }

    // Header ptr is the k-th one; from lfree on it has been reached by following `next`.
    ghost predicate Cursor(k: nat, ptr: int)
      reads this
    {
      && k <= |blocks| && ptr == Row()[k]
      && (k < |blocks| ==>
            && ptr == blocks[k].addr && ptr in next && ptr in used && used[ptr] == blocks[k].used
            && next[ptr] == ptr + HEAD + blocks[k].size && lfree <= ptr)
    }

    lemma CursorStart()
      requires Inv(View()) && Links() && Flags()
      ensures Cursor(IndexAt(blocks, lfree), lfree)
    {
      hide Inv, Links, Flags;
      Start(View());
      var k := IndexAt(blocks, lfree);
      if k < |blocks| {
        HeaderAt(k);
        SizeOf(k);
      }
      assert Row()[|blocks|] == HeapEnd();
    }

    lemma CursorStep(k: nat, ptr: int)
      requires Inv(View()) && Links() && Flags() && Cursor(k, ptr) && k < |blocks|
      ensures Cursor(k + 1, next[ptr])
    {
      hide Inv, Links, Flags;
      HeaderAt(k);
      if k + 1 < |blocks| {
        HeaderAt(k + 1);
        SizeOf(k + 1);
        Ordered(View(), k, k + 1);
      }
    }

    // The loop of rt_malloc.
    method SearchAndTake(size: int) returns (p: Option<int>)
      requires Valid() && MIN <= size <= total && size % 4 == 0
      modifies this
      ensures Valid()
      ensures var r := SmallHeapLayout.Malloc(old(View()), size); (View(), p) == (r.0, PayloadOf(r.1))
      ensures Kept(HEAD, Live(old(blocks)), old(data), data)
    {
      hide Inv, Links, Flags, Kept, Live, Carve, IndexAt, Cursor, Search;
      ghost var H := View();
      KeptSame(HEAD, Live(blocks), data);
      CursorStart();
      ghost var k0 := IndexAt(blocks, lfree);
      ghost var k: nat := k0;
      var ptr := lfree;
      while ptr < (total - size) % WORD
        invariant 0 <= k <= |blocks| && Cursor(k, ptr) && unchanged(this)
        invariant Search(blocks, k, Bound(total, size), size) == Search(blocks, k0, Bound(total, size), size)
        decreases |blocks| - k
      {
        Seen(k, ptr, size);
        if !used[ptr] && next[ptr] - (ptr + HEAD) >= size {
          Serve(ptr, size, k);
          return Some(ptr + HEAD);
        }
        CursorStep(k, ptr);
        ptr := next[ptr];
        k := k + 1;
      }
      SearchOver(k, ptr, size);
      return None;
    }

    // What the loop reads at a header below the bound, which is not the sentinel.
    lemma Seen(k: nat, ptr: int, size: int)
      requires Inv(View()) && Cursor(k, ptr) && MIN <= size <= total && ptr < Bound(total, size)
      ensures k < |blocks| && ptr == blocks[k].addr && ptr in next && ptr in used && used[ptr] == blocks[k].used
      ensures next[ptr] == ptr + HEAD + blocks[k].size && lfree <= ptr
      ensures Search(blocks, k, Bound(total, size), size) ==
                if !used[ptr] && next[ptr] - (ptr + HEAD) >= size then Some(k) else Search(blocks, k + 1,
                    Bound(total, size), size)
    {
      assert Row()[|blocks|] == HeapEnd();
    }

    lemma SearchOver(k: nat, ptr: int, size: int)
      requires Cursor(k, ptr) && ptr >= Bound(total, size)
      ensures Search(blocks, k, Bound(total, size), size) == None
    {
    }

    static lemma RequestIs(request: int, total: int)
      requires 0 < request < WORD && M.Align(request) <= total
      ensures M.Request(request) == if M.Align(request) < MIN then MIN else M.Align(request)
      ensures M.Request(request) % 4 == 0
    {
    }

    // ----- rt_free

    // Header x is that of a block in a caller's hands.
    ghost predicate Holds(x: int)
      reads `blocks
    {
      IndexAt(blocks, x) < |blocks| && blocks[IndexAt(blocks, x)].used
    }

    // rt_free
    method Free(p: Option<int>)
      requires Valid() && (p.Some? ==> Holds(p.value - HEAD))
      modifies this
      ensures Valid() && data == old(data)
      ensures p.None? ==> View() == old(View())
      ensures p.Some? ==> View() == SmallHeapLayout.Free(old(View()), IndexAt(old(blocks), p.value - HEAD))
    {
      hide Inv, Chain, FlagsFor, Replace, Plug, IndexAt, Opened, Addrs, Live;
      if p.None? { return; }
      var x := p.value - HEAD;
      ghost var H, i := View(), IndexAt(blocks, x);
      FreeLaw(H, i);
      HeaderAt(i);
      OpenedIs(H, i);
      Open(x, i);
      PlugHoles(x, i);
    }

    // The block is marked unused and taken off the byte count, and lfree may go down to it.
    method Open(x: int, ghost i: nat)
      requires Valid() && i < |blocks| && blocks[i].addr == x
      modifies `used, `lfree, `usedMem, `blocks
      ensures Links() && Flags() && View() == Opened(old(View()), i)
    {
      hide Inv, Chain, FlagsFor, Replace, Addrs;
      SizeOf(i);
      HeaderAt(i);
      MarkRow(View(), i, used, false);
      used := used[x := false];
      if x < lfree {
        lfree := x;
      }
      usedMem := usedMem - (next[x] - x);
      blocks := Replace(blocks, i, 1, [blocks[i].(used := false)]);
    }

    static lemma OpenedIs(H: Heap, i: nat)
      requires i < |H.blocks|
      ensures |Opened(H, i).blocks| == |H.blocks| && Opened(H, i).blocks[i] == H.blocks[i].(used := false)
    {
    }

    // ----- rt_realloc

    // Used block i gives back all but `size` payload bytes.
    method Cut(x: int, size: int, ghost i: nat)
      requires Valid() && i < |blocks| && blocks[i].addr == x && blocks[i].used
      requires 0 <= size && size % 4 == 0 && size + HEAD + MIN < blocks[i].size
      modifies this
      ensures Valid() && View() == Shrink(old(View()), i, size)
      ensures Kept(HEAD, Live(old(blocks)) - {old(blocks)[i]}, old(data), data)
      ensures forall k :: 0 <= k < x + HEAD + size && k < |data| ==> data[k] == old(data)[k]
    {
      hide Inv, Chain, FlagsFor, Replace, Plug, IndexAt, Kept, Live, InPayload;
      ghost var H := View();
      ghost var b := blocks[i];
      ShrinkLaw(H, i, size);
      SizeOf(i);
      HeaderAt(i);
      usedMem := usedMem - (next[x] - x - HEAD - size);
      var y := x + HEAD + size;
      Inside(H, i, y);
      CutRow(H, i, size, used);
      SameFlags(used, x, y);
      InsertHeader(x, y, Row(), i);
      KeptOutside(H, i, y, old(data), data);
      CutHere(blocks, i, Blk(x, size, true), Blk(y, b.size - HEAD - size, false));
      blocks := Replace(blocks, i, 1, [Blk(x, size, true), Blk(y, b.size - HEAD - size, false)]);
      PlugHoles(y, i + 1);
    }

    static lemma SameFlags(used: map<int, bool>, x: int, y: int)
      requires x in used && used[x] && x != y
      ensures used[y := false][x := true] == used[y := false]
    {
    }

    static lemma CutHere(bs: seq<Blk>, i: nat, x: Blk, y: Blk)
      requires i < |bs|
      ensures var bs' := Replace(bs, i, 1, [x, y]); |bs'| == |bs| + 1 && bs'[i] == x && bs'[i + 1] == y
    {
    }

    static ghost function HeaderOf(p: Option<int>): Option<int> {
      if p.None? then None else Some(p.value - HEAD)
    }

    static ghost function Least(x: int, y: int): int { if x < y then x else y }

    // What rt_realloc owes the holder of the block with header x, and everybody else: the heap changes
    // as Realloc says, the first min(old, new) payload bytes of the block and all payload bytes of every
    // other live block survive.
    static ghost predicate Resized(H: Heap, data0: seq<bv8>, x: int, newsize: int, H': Heap, data1: seq<bv8>,
                                   q: Option<int>)
      requires IndexAt(H.blocks, x) < |H.blocks|
    {
      var b := H.blocks[IndexAt(H.blocks, x)];
      && (H', HeaderOf(q)) == SmallHeapLaws.Realloc(H, Some(x), newsize)
      && Kept(HEAD, Live(H.blocks) - {b}, data0, data1)
      && (q.Some? ==> Copied(data0, x + HEAD, data1, q.value, Least(b.size, M.Align(newsize))))
    }

    // rt_realloc
    method Realloc(p: Option<int>, newsize: int) returns (q: Option<int>)
      requires Valid() && 0 <= newsize < WORD && (p.Some? ==> Holds(p.value - HEAD))
      modifies this
      ensures Valid()
      ensures p.None? ==> (View(), HeaderOf(q)) == SmallHeapLaws.Realloc(old(View()), None, newsize) && Kept(HEAD,
              Live(old(blocks)), old(data), data)
      ensures p.Some? ==> Resized(old(View()), old(data), p.value - HEAD, newsize, View(), data, q)
    {
      hide Inv, Links, Flags, Kept, Live, M.Align, IndexAt, SmallHeapLayout.Free, MallocAny, Resized;
      KeptSame(HEAD, Live(blocks), data);
      AlignIs(newsize);
      var n := M.Align(newsize);
      if n > total {
        if p.Some? { NotResized(View(), data, p.value - HEAD, newsize); }
        return None;
      } else if n == 0 {
        ghost var H, data0 := View(), data;
        Free(p);
        if p.Some? { Released(H, data0, p.value - HEAD, newsize); }
        return None;
      }
      if p.None? {
        q := Malloc(n);
        return;
      }
      q := Resize(p.value - HEAD, newsize);
    }

    static lemma NotResized(H: Heap, data: seq<bv8>, x: int, newsize: int)
      requires IndexAt(H.blocks, x) < |H.blocks| && M.Align(newsize) > H.total
      ensures Resized(H, data, x, newsize, H, data, None)
    {
    }

    static lemma Released(H: Heap, data: seq<bv8>, x: int, newsize: int)
      requires IndexAt(H.blocks, x) < |H.blocks| && M.Align(newsize) == 0 <= H.total
      ensures Resized(H, data, x, newsize, SmallHeapLayout.Free(H, IndexAt(H.blocks, x)), data, None)
    {
    }

    // The case of a block and a size that the heap could hold.
    method Resize(x: int, newsize: int) returns (q: Option<int>)
      requires Valid() && Holds(x) && 0 <= newsize < WORD && 0 < M.Align(newsize) <= total
      modifies this
      ensures Valid() && Resized(old(View()), old(data), x, newsize, View(), data, q)
    {
      hide Inv, Links, Flags, Kept, Live, M.Align, IndexAt, SmallHeapLayout.Free, MallocAny, Resized, Shrink;
      ghost var H, i, data0 := View(), IndexAt(blocks, x), data;
      AlignIs(newsize);
      IndexIs(blocks, x);
      SizeOf(i);
      At(H, i);
      var n := M.Align(newsize);
      var size := next[x] - x - HEAD;
      if size == n {
        KeptSame(HEAD, Live(blocks) - {blocks[i]}, data);
        InPlace(H, data, x, newsize, H, data);
        return Some(x + HEAD);
      }
      if n + HEAD + MIN < size {
        Cut(x, n, i);
        InPlace(H, data0, x, newsize, View(), data);
        return Some(x + HEAD);
      }
      q := Malloc(n);
      if q.Some? {
        Transfer(H, data0, q.value, x, size, newsize);
      } else {
        Stays(H, data0, x, newsize, View(), data);
      }
    }

    static lemma IndexIs(bs: seq<Blk>, x: int)
      requires IndexAt(bs, x) < |bs|
      ensures bs[IndexAt(bs, x)].addr == x
    {
    }

    // The block stays where it is and keeps its first bytes.
    static lemma InPlace(H: Heap, data0: seq<bv8>, x: int, newsize: int, H': Heap, data1: seq<bv8>)
      requires Inv(H) && IndexAt(H.blocks, x) < |H.blocks| && 0 <= newsize < WORD
      requires |data0| == |data1| == H.total + 2 * HEAD
      requires SmallHeapLaws.Realloc(H, Some(x), newsize) == (H', Some(x))
      requires var b := H.blocks[IndexAt(H.blocks, x)];
               && Kept(HEAD, Live(H.blocks) - {b}, data0, data1) && M.Align(newsize) <= b.size
               && forall k :: 0 <= k < x + HEAD + M.Align(newsize) && k < |data1| ==> data1[k] == data0[k]
      ensures Resized(H, data0, x, newsize, H', data1, Some(x + HEAD))
    {
      hide Inv, M.Align, SmallHeapLaws.Realloc, Kept, Live;
      At(H, IndexAt(H.blocks, x));
      AlignIs(newsize);
    }

    // There is no room for a new block.
    static lemma Stays(H: Heap, data0: seq<bv8>, x: int, newsize: int, H1: Heap, data1: seq<bv8>)
      requires Inv(H) && IndexAt(H.blocks, x) < |H.blocks| && 0 <= newsize < WORD
      requires Kept(HEAD, Live(H.blocks), data0, data1)
      requires var n, b := M.Align(newsize), H.blocks[IndexAt(H.blocks, x)];
               0 < n <= H.total && n != b.size && n + HEAD + MIN >= b.size && MallocAny(H, n) == (H1, None)
      ensures Resized(H, data0, x, newsize, H1, data1, None)
    {
      hide Inv, M.Align, Live, MallocAny;
      AlignIs(newsize);
      MallocAnyLaw(H, M.Align(newsize));
    }

    // The new block is filled and the old one freed.
    method Transfer(ghost H: Heap, ghost data0: seq<bv8>, to: int, x: int, size: int, newsize: int)
      requires Inv(H) && IndexAt(H.blocks, x) < |H.blocks| && 0 <= newsize < WORD
      requires Valid() && |data| == H.total + 2 * HEAD && Kept(HEAD, Live(H.blocks), data0, data)
      requires var n, b := M.Align(newsize), H.blocks[IndexAt(H.blocks, x)];
               && b.used && size == b.size && 0 < n <= H.total && n != size && n + HEAD + MIN >= size
               && (View(), Some(to - HEAD)) == MallocAny(H, n)
      modifies this
      ensures Valid() && Resized(H, data0, x, newsize, View(), data, Some(to))
    {
      hide Inv, Links, Flags, Kept, Live, M.Align, IndexAt, SmallHeapLayout.Free, MallocAny, Resized, Copied;
      var n := M.Align(newsize);
      AlignIs(newsize);
      ghost var b, data1 := H.blocks[IndexAt(H.blocks, x)], data;
      ghost var c := Fresh(H, View(), to - HEAD, x, n);
      data := Copy(data, to, x + HEAD, if size < n then size else n);
      CopySpares(View(), H.blocks, b, c, Least(size, n), data0, data1);
      Free(Some(x + HEAD));
      Moved(H, data0, x, newsize, data);
    }

    // The new block that an allocation made live, beside the old block at x.
    static lemma Fresh(H: Heap, H1: Heap, y: int, x: int, n: int) returns (c: Blk)
      requires Inv(H) && IndexAt(H.blocks, x) < |H.blocks| && H.blocks[IndexAt(H.blocks, x)].used
      requires 0 < n < WORD && M.Align(n) == n && MallocAny(H, n) == (H1, Some(y))
      ensures Inv(H1) && H1.total == H.total
      ensures var b := H.blocks[IndexAt(H.blocks, x)];
              && c.addr == y && c.size >= n && b in Live(H.blocks) && c !in Live(H.blocks) && b.addr == x
              && Live(H1.blocks) == Live(H.blocks) + {c}
              && IndexAt(H1.blocks, x) < |H1.blocks| && H1.blocks[IndexAt(H1.blocks, x)] == b
              && 0 <= b.addr && b.size >= 0 && b.addr + HEAD + b.size <= End(H)
              && 0 <= c.addr && c.addr + HEAD + c.size <= End(H)
              && (b.addr + HEAD + b.size <= c.addr || c.addr + HEAD + c.size <= b.addr)
    {
      hide Inv, Live, MallocAny;
      var b := H.blocks[IndexAt(H.blocks, x)];
      MallocAnyLaw(H, n);
      var s :| M.Request(n) <= s < M.Request(n) + HEAD + MIN && Live(H1.blocks) == Live(H.blocks) + {Blk(y, s, true)};
      c := Blk(y, s, true);
      IsLive(H, IndexAt(H.blocks, x));
      At(H, IndexAt(H.blocks, x));
      LiveIndex(H1, b);
      LiveApart(H1, b, c);
      LiveApart(H1, c, b);
    }

    static lemma IsLive(H: Heap, i: nat)
      requires i < |H.blocks| && H.blocks[i].used
      ensures H.blocks[i] in Live(H.blocks)
    {
    }

    static lemma Moved(H: Heap, data0: seq<bv8>, x: int, newsize: int, data1: seq<bv8>)
      requires Inv(H) && IndexAt(H.blocks, x) < |H.blocks| && 0 <= newsize < WORD
      requires var n, b := M.Align(newsize), H.blocks[IndexAt(H.blocks, x)];
               var r := MallocAny(H, n);
               && 0 < n <= H.total && n != b.size && n + HEAD + MIN >= b.size && r.1.Some?
               && IndexAt(r.0.blocks, x) < |r.0.blocks|
               && Kept(HEAD, Live(H.blocks) - {b}, data0, data1)
               && Copied(data0, x + HEAD, data1, r.1.value + HEAD, Least(b.size, n))
      ensures var r := MallocAny(H, M.Align(newsize));
              Resized(H, data0, x, newsize, SmallHeapLayout.Free(r.0, IndexAt(r.0.blocks, x)), data1,
                  Some(r.1.value + HEAD))
    {
      hide Inv, M.Align, Live, MallocAny, Kept, Copied, SmallHeapLayout.Free, IndexAt;
      AlignIs(newsize);
    }

    // Copying b's payload into the new block c leaves all other live payloads alone.
    static lemma CopySpares(H: Heap, before: seq<Blk>, b: Blk, c: Blk, n: int, data0: seq<bv8>, data1: seq<bv8>)
      requires Inv(H) && b in Live(before) && c !in Live(before) && Live(H.blocks) == Live(before) + {c}
      requires 0 <= n <= c.size && n <= b.size && Kept(HEAD, Live(before), data0, data1)
      requires |data1| == H.total + 2 * HEAD
      requires 0 <= b.addr && b.addr + HEAD + n <= |data1| && 0 <= c.addr && c.addr + HEAD + n <= |data1|
      ensures var data2 := Overwritten(data1, c.addr + HEAD, b.addr + HEAD, n);
              Kept(HEAD, Live(before) - {b}, data0, data2) && Copied(data0, b.addr + HEAD, data2, c.addr + HEAD, n)
    {
      hide Inv, Live;
      var data2 := Overwritten(data1, c.addr + HEAD, b.addr + HEAD, n);
      forall a, k | a in Live(before) - {b} && 0 <= k < |data0| && InPayload(HEAD, a, k)
        ensures data2[k] == data0[k]
      {
        LiveApart(H, a, c);
        LiveApart(H, c, a);
      }
      assert forall k :: b.addr + HEAD <= k < b.addr + HEAD + n ==> InPayload(HEAD, b, k);
    }
  }
}
