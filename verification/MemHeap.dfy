// rt-thread/src/memheap.c: a heap inside one pool of bytes. Every block carries a header whose
// `next` and `prev` chain all blocks in address order and whose `next_free` and `prev_free` chain
// the unused ones. Here a header field is a map from header addresses to values, rewritten in place.
module MemHeap {
  import opened Wrappers
  import opened Rings
  import opened Blocks
  import opened Payloads
  import opened MemHeapLayout
  import opened MemHeapLaws

  const NULL: int := -2
  const FREE_LIST: int := -1     // the list head &heap->free_header, which lies outside the pool

  // The first k free blocks are too small for s; FirstFit looks no earlier.
  lemma {:induction false} FirstFitAt(blocks: seq<Blk>, free: seq<int>, s: int, k: nat)
    requires forall x :: x in free ==> x in Addrs(blocks)
    requires k <= |free|
    requires forall j :: 0 <= j < k ==> Payload(blocks, free[j]) < s
    requires k < |free| ==> Payload(blocks, free[k]) >= s
    ensures FirstFit(blocks, free, s) == if k < |free| then Some(free[k]) else None
  {
    if k > 0 {
      FirstFitAt(blocks, free[1..], s, k - 1);
    }
  }

  class MemHeap {
    const poolSize: int
    var next: map<int, int>
    var prev: map<int, int>
    var nextFree: map<int, int>
    var prevFree: map<int, int>
    var used: map<int, bool>
    var available: int
    var maxUsed: int
    var data: seq<bv8>
    ghost var blocks: seq<Blk>
    ghost var frees: seq<int>

    ghost function View(): Layout
      reads this
    {
      Layout(poolSize, blocks, frees, available, maxUsed)
    }

    ghost function Tail(): int { poolSize - ITEM }

    ghost predicate BlockRing()
      reads `next, `prev, `blocks
    {
      Ring(next, prev, Addrs(blocks) + [Tail()])
    }

    ghost predicate FreeRing()
      reads `nextFree, `prevFree, `frees
    {
      Ring(nextFree, prevFree, [FREE_LIST] + frees)
    }

    ghost predicate Flags()
      reads `used, `blocks
    {
      FlagsFor(used, blocks) && Tail() in used && used[Tail()]
    }

    ghost predicate Valid()
      reads this
    {
      Inv(View()) && BlockRing() && FreeRing() && Flags() && |data| == poolSize
    }

    // rt_memheap_init over a stretch of memory that holds at least the two headers.
    constructor (memory: seq<bv8>)
      requires 2 * ITEM <= |memory| < WORD
      ensures Valid() && View() == Init(|memory|) && data == memory[..|memory| / 4 * 4]
    {
      var pool := |memory| / 4 * 4;
      var tail := pool - ITEM;
      poolSize := pool;
      available := pool - 2 * ITEM;
      maxUsed := 2 * ITEM;
      next := map[0 := tail, tail := 0];
      prev := map[0 := tail, tail := 0];
      nextFree := map[FREE_LIST := 0, 0 := FREE_LIST];
      prevFree := map[FREE_LIST := 0, 0 := FREE_LIST];
      used := map[0 := false, tail := true];
      data := memory[..pool];
      blocks := [Blk(0, pool - 2 * ITEM, false)];
      frees := [0];
      new;
      assert Addrs(blocks) + [Tail()] == [0, tail];
      assert [FREE_LIST] + frees == [FREE_LIST, 0];
    }

    // Takes x out of the free list.
    method UnlinkFree(x: int)
      requires FreeRing() && x in frees
      modifies `nextFree, `prevFree, `frees
      ensures FreeRing() && frees == Remove(old(frees), x)
    {
      ghost var k := IndexOf(frees, x);
      ghost var ring := [FREE_LIST] + frees;
      assert ring[k + 1] == x;
      RingRemove(nextFree, prevFree, ring, k + 1,
                 nextFree[prevFree[x] := nextFree[x]], prevFree[nextFree[x] := prevFree[x]]);
      assert Drop(ring, k + 1) == [FREE_LIST] + Remove(frees, x);
      prevFree := prevFree[nextFree[x] := prevFree[x]];
      nextFree := nextFree[prevFree[x] := nextFree[x]];
      frees := Remove(frees, x);
    }

    // Puts x at the front of the free list.
    method PushFree(x: int)
      requires FreeRing() && x !in frees && x != FREE_LIST
      modifies `nextFree, `prevFree, `frees
      ensures FreeRing() && frees == [x] + old(frees)
    {
      ghost var ring := [FREE_LIST] + frees;
      var first := nextFree[FREE_LIST];
      RingInsert(nextFree, prevFree, ring, 0, x,
                 nextFree[x := first][FREE_LIST := x], prevFree[first := x][x := FREE_LIST]);
      assert Insert(ring, 1, x) == [FREE_LIST] + ([x] + frees);
      nextFree := nextFree[x := nextFree[FREE_LIST]];
      prevFree := prevFree[x := FREE_LIST];
      prevFree := prevFree[nextFree[FREE_LIST] := x];
      nextFree := nextFree[FREE_LIST := x];
      assert first == ring[if |ring| > 1 then 1 else 0];
      assert prevFree == old(prevFree)[first := x][x := FREE_LIST];
      frees := [x] + frees;
    }
  
    // Puts header x right after header h in the block list; `ring` and i locate h.
    method LinkBlock(h: int, x: int, ghost ring: seq<int>, ghost i: nat)
      requires Ring(next, prev, ring) && i < |ring| && ring[i] == h && x !in ring
      modifies `next, `prev
      ensures Ring(next, prev, Insert(ring, i + 1, x))
    {
      var after := next[h];
      RingInsert(next, prev, ring, i, x, next[x := after][h := x], prev[after := x][x := h]);
      assert after == ring[if i + 1 < |ring| then i + 1 else 0];
      prev := prev[x := h];
      next := next[x := next[h]];
      prev := prev[next[h] := x];
      next := next[h := x];
      assert prev == old(prev)[after := x][x := h];
    }

    // Takes header x out of the block list.
    method UnlinkBlock(x: int, ghost ring: seq<int>, ghost i: nat)
      requires Ring(next, prev, ring) && i < |ring| && ring[i] == x && |ring| > 1
      modifies `next, `prev
      ensures Ring(next, prev, Drop(ring, i))
    {
      RingRemove(next, prev, ring, i, next[prev[x] := next[x]], prev[next[x] := prev[x]]);
      assert next[x] == ring[if i + 1 < |ring| then i + 1 else 0];
      prev := prev[next[x] := prev[x]];
      next := next[prev[x] := next[x]];
    }

    // Writes a fresh header at address a: it is marked free, and the bytes it covers are lost.
    method NewHeader(a: int)
      requires 0 <= a && a + ITEM <= |data|
      modifies `used, `data
      ensures used == old(used)[a := false] && |data| == |old(data)|
      ensures forall k :: 0 <= k < |data| && !(a <= k < a + ITEM) ==> data[k] == old(data)[k]
    {
      assert |seq<bv8>(ITEM, _ => 0)| == ITEM;
      var image: seq<bv8> :| |image| == ITEM;
      data := data[..a] + image + data[a + ITEM..];
      used := used[a := false];
    }

    // The size of a block is read off its `next` link.
    lemma SizeOf(i: nat)
      requires Inv(View()) && BlockRing() && i < |blocks|
      ensures blocks[i].addr in next && next[blocks[i].addr] == blocks[i].addr + ITEM + blocks[i].size
    {
      hide FreeBytes, Coalesced, FreeAddrs;
      TilesOrder(blocks, ITEM, 0, Tail());
      var ring := Addrs(blocks) + [Tail()];
      assert ring[i] == blocks[i].addr;
      assert next[ring[i]] == ring[i + 1];
    }

    lemma FreeNode(k: nat)
      requires Inv(View()) && FreeRing() && k < |frees|
      ensures frees[k] in nextFree && frees[k] != FREE_LIST && FREE_LIST in nextFree
      ensures nextFree[frees[k]] == if k + 1 < |frees| then frees[k + 1] else FREE_LIST
    {
      var ring := [FREE_LIST] + frees;
      assert ring[k + 1] == frees[k];
      assert ring[0] == FREE_LIST;
      assert nextFree[ring[k + 1]] == if k + 2 < |ring| then ring[k + 2] else ring[0];
    }

    // Clears the free links of block x, which is on no list any more.
    method ClearFreeLinks(x: int)
      requires FreeRing() && x !in frees && x != FREE_LIST
      modifies `nextFree, `prevFree
      ensures FreeRing()
    {
      RingFrame(nextFree, prevFree, [FREE_LIST] + frees, nextFree[x := NULL], prevFree[x := NULL]);
      nextFree := nextFree[x := NULL];
      prevFree := prevFree[x := NULL];
    }

    method Account(delta: int)
      modifies `available, `maxUsed
      ensures available == old(available) - delta
      ensures maxUsed == Peak(poolSize, available, old(maxUsed))
    {
      available := available - delta;
      if poolSize - available > maxUsed {
        maxUsed := poolSize - available;
      }
    }

    // The tail of rt_memheap_alloc: free block i, whose payload is freeSize, serves a request of
    // s bytes.
    method Take(header: int, freeSize: int, s: int, ghost i: nat)
      requires Valid() && i < |blocks| && blocks[i].addr == header && header in frees
      requires freeSize == blocks[i].size && MINIALLOC <= s <= freeSize && s % 4 == 0
      modifies this
      ensures Valid()
      ensures View() == Carve(old(View()), i, s)
      ensures Kept(ITEM, Live(old(blocks)), old(data), data)
    {
      hide Inv, Ring, IndexOf, Live, FlagsFor, Kept, Replace, Remove, Cut, BlockRing, FreeRing, Flags;
      CarveLaw(View(), i, s);
      KeptSame(ITEM, Live(blocks), data);
      if freeSize >= s + ITEM + MINIALLOC {
        SplitOff(header, s, i);
        Account(s + ITEM);
      } else {
        TakeWhole(header, i);
        Account(freeSize);
      }
    }

    method TakeWhole(header: int, ghost i: nat)
      requires Valid() && i < |blocks| && blocks[i].addr == header && header in frees
      modifies `nextFree, `prevFree, `frees, `blocks, `used
      ensures BlockRing() && FreeRing() && Flags()
      ensures blocks == Replace(old(blocks), i, 1, [old(blocks)[i].(used := true)])
      ensures frees == Remove(old(frees), header)
    {
      hide Inv, Ring, IndexOf, FlagsFor, Live;
      Alone(View(), i);
      UnlinkFree(header);
      RemoveDistinct(old(frees), header);
      ClearFreeLinks(header);
      used := used[header := true];
      FlagsOne(View(), i, old(used), true);
      blocks := Replace(blocks, i, 1, [blocks[i].(used := true)]);
      assert Addrs(blocks) == Addrs(old(blocks));
    }

    lemma FlagsOne(L: Layout, i: nat, used: map<int, bool>, u: bool)
      requires i < |L.blocks| && FlagsFor(used, L.blocks) && L.pool - ITEM in used && used[L.pool - ITEM]
      requires forall j :: 0 <= j < |L.blocks| && j != i ==> L.blocks[j].addr != L.blocks[i].addr
      requires L.blocks[i].addr != L.pool - ITEM
      ensures var used' := used[L.blocks[i].addr := u];
              && FlagsFor(used', Replace(L.blocks, i, 1, [L.blocks[i].(used := u)]))
              && L.pool - ITEM in used' && used'[L.pool - ITEM]
    {
      FlagsReplace(used, used[L.blocks[i].addr := u], L.blocks, i, 1, [L.blocks[i].(used := u)]);
    }

    method SplitOff(header: int, s: int, ghost i: nat)
      requires Valid() && i < |blocks| && blocks[i].addr == header && header in frees
      requires MINIALLOC <= s && s % 4 == 0 && s + ITEM + MINIALLOC <= blocks[i].size
      modifies `next, `prev, `nextFree, `prevFree, `frees, `blocks, `used, `data
      ensures BlockRing() && FreeRing() && Flags() && |data| == poolSize
      ensures blocks == Replace(old(blocks), i, 1, Cut(header, s, header + ITEM + old(blocks)[i].size))
      ensures frees == [header + ITEM + s] + Remove(old(frees), header)
      ensures Kept(ITEM, Live(old(blocks)), old(data), data)
    {
      hide Inv, Ring, IndexOf, FlagsFor, Kept, Live, InPayload;
      ghost var L := View();
      ghost var ring := Addrs(blocks) + [Tail()];
      var x := header + s + ITEM;
      At(L, i);
      Inside(L, i, x);
      Alone(L, i);
      NewHeader(x);
      KeptOutside(L, i, x, old(data), data);
      LinkBlock(header, x, ring, i);
      RowCut(L, i, s);
      UnlinkFree(header);
      ClearFreeLinks(header);
      PushFree(x);
      used := used[header := true];
      FlagsCut(L, i, s, old(used));
      blocks := Replace(blocks, i, 1, Cut(header, s, header + ITEM + blocks[i].size));
    }

    lemma RowCut(L: Layout, i: nat, s: int)
      requires i < |L.blocks|
      ensures var b := L.blocks[i];
              Insert(Addrs(L.blocks) + [L.pool - ITEM], i + 1, b.addr + ITEM + s)
              == Addrs(Replace(L.blocks, i, 1, Cut(b.addr, s, b.addr + ITEM + b.size))) + [L.pool - ITEM]
    {
    }

    lemma FlagsCut(L: Layout, i: nat, s: int, used: map<int, bool>)
      requires Inv(L) && i < |L.blocks| && 0 <= s < L.blocks[i].size && FlagsFor(used, L.blocks)
      requires L.pool - ITEM in used && used[L.pool - ITEM] && s + ITEM <= L.blocks[i].size
      ensures var b := L.blocks[i];
              var used' := used[b.addr + ITEM + s := false][b.addr := true];
              && FlagsFor(used', Replace(L.blocks, i, 1, Cut(b.addr, s, b.addr + ITEM + b.size)))
              && L.pool - ITEM in used' && used'[L.pool - ITEM]
    {
      hide Inv;
      var b := L.blocks[i];
      Inside(L, i, b.addr + ITEM + s);
      Alone(L, i);
      assert forall j :: 0 <= j < |L.blocks| ==> L.blocks[j].addr == Addrs(L.blocks)[j];
      FlagsReplace(used, used[b.addr + ITEM + s := false][b.addr := true], L.blocks, i, 1,
                   Cut(b.addr, s, b.addr + ITEM + b.size));
    }

    // Writing a header inside block i loses no payload byte of another live block.
    lemma KeptOutside(L: Layout, i: nat, x: int, before: seq<bv8>, after: seq<bv8>)
      requires Inv(L) && i < |L.blocks| && L.blocks[i].addr < x <= L.blocks[i].addr + L.blocks[i].size
      requires |before| == |after| && forall k :: 0 <= k < |after| && !(x <= k < x + ITEM) ==> after[k] == before[k]
      ensures Kept(ITEM, Live(L.blocks) - {L.blocks[i]}, before, after)
      ensures !L.blocks[i].used ==> Kept(ITEM, Live(L.blocks), before, after)
    {
      hide Inv, InPayload;
      Inside(L, i, x);
    }

    lemma Alone(L: Layout, i: nat)
      requires Inv(L) && i < |L.blocks|
      ensures forall j :: 0 <= j < |L.blocks| && j != i ==> L.blocks[j].addr != L.blocks[i].addr
      ensures L.blocks[i].addr != L.pool - ITEM && L.blocks[i].addr != FREE_LIST
      ensures Distinct(L.free)
    {
      hide FreeBytes, Coalesced, FreeAddrs;
      TilesOrder(L.blocks, ITEM, 0, L.pool - ITEM);
    }

    // Address x lies strictly inside block i: it is no header, no free block, and a header written
    // there spares every live payload.
    lemma Inside(L: Layout, i: nat, x: int)
      requires Inv(L) && i < |L.blocks|
      requires L.blocks[i].addr < x <= L.blocks[i].addr + L.blocks[i].size
      ensures x !in L.free && x !in Addrs(L.blocks) && x != L.pool - ITEM && x != FREE_LIST
      ensures 0 <= x && x + ITEM <= L.pool
      ensures forall b, k :: b in L.blocks && b != L.blocks[i] && InPayload(ITEM, b, k) ==> !(x <= k < x + ITEM)
    {
      hide FreeBytes, Coalesced, FreeAddrs;
      NotAnAddress(L, i, x);
      TilesOrder(L.blocks, ITEM, 0, L.pool - ITEM);
    }

    // rt_memheap_alloc
    method Alloc(size: int) returns (p: Option<int>)
      requires Valid() && 0 <= size < WORD
      modifies this
      ensures Valid()
      ensures FreeListed(old(View()))
      ensures View() == MemHeapLayout.Alloc(old(View()), Request(size)).0
      ensures p == match MemHeapLayout.Alloc(old(View()), Request(size)).1
                   case None => None
                   case Some(x) => Some(x + ITEM)
      ensures Kept(ITEM, Live(old(blocks)), old(data), data)
    {
      hide Inv, Ring, Payload, FirstFit, Carve;
      NotEmpty(View());
      FreeAddrIs(View(), 0);
      var s := Request(size);
      p := None;
      if s < available {
        var freeSize := 0;
        FreeHead();
        var header := nextFree[FREE_LIST];
        ghost var k := 0;
        while header != FREE_LIST && freeSize < s
          invariant 0 <= k <= |frees|
          invariant header == if k < |frees| then frees[k] else FREE_LIST
          invariant forall j :: 0 <= j < k ==> Payload(blocks, frees[j]) < s
          invariant freeSize >= s ==> k < |frees| && freeSize == Payload(blocks, frees[k])
          decreases |frees| - k, s - freeSize
          modifies {}
        {
          FreeNode(k);
          SizeOf(Find(blocks, header));
          freeSize := next[header] - header - ITEM;
          assert freeSize == Payload(blocks, header) by { PayloadIs(header); }
          if freeSize < s {
            header := nextFree[header];
            k := k + 1;
          }
        }
        if k < |frees| { FreeNode(k); }
        FirstFitAt(blocks, frees, s, k);
        if freeSize >= s {
          assert freeSize == blocks[Find(blocks, header)].size by { PayloadIs(header); }
          Take(header, freeSize, s, Find(blocks, header));
          p := Some(header + ITEM);
        }
      }
    }

    // Header x is that of a block in a caller's hands.
    ghost predicate Holds(x: int)
      reads this
    {
      x in Addrs(blocks) && blocks[Find(blocks, x)].used
    }

    // The neighbours of block i, read off its links and flags.
    lemma Neighbours(i: nat)
      requires Valid() && i < |blocks|
      ensures var x := blocks[i].addr;
              var ring := Addrs(blocks) + [Tail()];
              && x in prev && x in next && ring[i] == x && next[x] == ring[i + 1]
              && prev[x] == (if i > 0 then ring[i - 1] else Tail())
              && prev[x] in used && (!used[prev[x]] <==> LeftFree(View(), i))
              && next[x] in used && (!used[next[x]] <==> RightFree(View(), i))
              && next[x] == x + ITEM + blocks[i].size
    {
      hide Inv;
      var ring := Addrs(blocks) + [Tail()];
      assert ring[i] == blocks[i].addr;
      assert prev[ring[i]] == if i > 0 then ring[i - 1] else ring[|ring| - 1];
      assert next[ring[i]] == ring[i + 1];
      assert i > 0 ==> blocks[i - 1] in blocks;
      assert i + 1 < |blocks| ==> blocks[i + 1] in blocks;
      SizeOf(i);
    }

    // rt_memheap_free
    method Free(p: Option<int>)
      requires Valid() && (p.Some? ==> Holds(p.value - ITEM))
      modifies this
      ensures Valid() && data == old(data)
      ensures p.None? ==> View() == old(View())
      ensures p.Some? ==> View() == MemHeapLayout.Free(old(View()), Find(old(blocks), p.value - ITEM))
    {
      hide Inv, Ring, IndexOf, FlagsFor, MemHeapLayout.Free, LeftFree, RightFree, MergedRow, MergedFrees;
      if p.None? { return; }
      var header := p.value - ITEM;
      ghost var L, i := View(), Find(blocks, header);
      FreeLaw(L, i);
      Neighbours(i);
      FlagsFree(L, i, used);
      RowFree(L, i);
      FreeFacts(L, i);
      ghost var L' := MemHeapLayout.Free(L, i);
      used := used[header := false];
      available := available + (next[header] - header - ITEM);
      Merge(header, Addrs(blocks) + [Tail()], i, LeftFree(L, i), RightFree(L, i));
      blocks := L'.blocks;
    }

    ghost function MergedRow(ring: seq<int>, i: nat, left: bool, right: bool): seq<int>
      requires i + 1 < |ring|
    {
      var ring1 := if right then Drop(ring, i + 1) else ring;
      if left then Drop(ring1, i) else ring1
    }

    ghost function MergedFrees(free: seq<int>, b: int, r: int, left: bool, right: bool): seq<int>
      requires right ==> r in free
    {
      var free1 := if right then Remove(free, r) else free;
      if left then free1 else [b] + free1
    }

    // The unused block `header`, at position i of the block list, joins its unused neighbours.
    method Merge(header: int, ghost ring: seq<int>, ghost i: nat, ghost left: bool, ghost right: bool)
      requires Ring(next, prev, ring) && i + 1 < |ring| && ring[i] == header && FreeRing()
      requires header !in frees && header != FREE_LIST
      requires header in prev && prev[header] in used && used[prev[header]] == !left
      requires ring[i + 1] in used && used[ring[i + 1]] == !right && (right ==> ring[i + 1] in frees)
      requires left ==> i > 0
      modifies `next, `prev, `nextFree, `prevFree, `frees, `available
      ensures FreeRing() && Ring(next, prev, MergedRow(ring, i, left, right))
      ensures frees == MergedFrees(old(frees), header, ring[i + 1], left, right)
      ensures available == old(available) + (if left then ITEM else 0) + (if right then ITEM else 0)
    {
      var l := prev[header];
      if !used[l] {
        RingPrev(next, prev, ring, i);
        hide Ring, IndexOf;
        available := available + ITEM;
        UnlinkBlock(header, ring, i);
        ghost var ring1 := Drop(ring, i);
        assert ring1[i - 1] == l && ring1[i] == ring[i + 1];
        DropTwice(ring, i);
        JoinRight(l, ring1, i - 1);
      } else {
        hide Ring, IndexOf;
        JoinRight(header, ring, i);
        assert header !in frees;
        PushFree(header);
      }
    }

    // Block `header`, at position k of the block list, absorbs its right neighbour if that is unused.
    method JoinRight(header: int, ghost ring: seq<int>, ghost k: nat)
      requires Ring(next, prev, ring) && k + 1 < |ring| && ring[k] == header && FreeRing()
      requires ring[k + 1] in used && (!used[ring[k + 1]] ==> ring[k + 1] in frees)
      modifies `next, `prev, `nextFree, `prevFree, `frees, `available
      ensures FreeRing()
      ensures used[ring[k + 1]] ==> Ring(next, prev, ring) && available == old(available) && frees == old(frees)
      ensures !used[ring[k + 1]] ==> Ring(next, prev, Drop(ring, k + 1)) && available == old(available) + ITEM
                                     && frees == Remove(old(frees), ring[k + 1])
    {
      RingNext(next, prev, ring, k);
      var right := next[header];
      if !used[right] {
        available := available + ITEM;
        UnlinkBlock(right, ring, k + 1);
        UnlinkFree(right);
      }
    }

    lemma RingPrev(next: map<int, int>, prev: map<int, int>, ring: seq<int>, i: nat)
      requires Ring(next, prev, ring) && 0 < i < |ring|
      ensures ring[i] in prev && prev[ring[i]] == ring[i - 1]
    {
    }

    lemma RingNext(next: map<int, int>, prev: map<int, int>, ring: seq<int>, i: nat)
      requires Ring(next, prev, ring) && i + 1 < |ring|
      ensures ring[i] in next && next[ring[i]] == ring[i + 1]
    {
    }

    // The counter and the free list after a free.
    lemma FreeFacts(L: Layout, i: nat)
      requires Inv(L) && i < |L.blocks| && L.blocks[i].used
      ensures var L', b, left, right := MemHeapLayout.Free(L, i), L.blocks[i], LeftFree(L, i), RightFree(L, i);
              var r := (Addrs(L.blocks) + [L.pool - ITEM])[i + 1];
              && b.addr !in L.free && b.addr != FREE_LIST && b.addr != L.pool - ITEM
              && (right ==> r in L.free) && (left ==> i > 0)
              && r != b.addr && (i > 0 ==> L.blocks[i - 1].addr != b.addr)
              && L' == Layout(L.pool, L'.blocks, MergedFrees(L.free, b.addr, r, left, right),
                              L.avail + b.size + (if left then ITEM else 0) + (if right then ITEM else 0), L.peak)
    {
      hide Inv, IndexOf, Replace;
      Alone(L, i);
      Around(L, i);
    }

    // Merging blocks j to j + k - 1 keeps the header of the first.
    lemma RowMerge(bs: seq<Blk>, j: nat, k: nat, m: Blk)
      requires j + k <= |bs| && k > 0 && m.addr == bs[j].addr
      ensures Addrs(Replace(bs, j, k, [m])) == Addrs(bs)[..j + 1] + Addrs(bs)[j + k..]
    {
    }

    // The headers that remain after a free.
    lemma RowFree(L: Layout, i: nat)
      requires Inv(L) && i < |L.blocks| && L.blocks[i].used
      ensures Addrs(MemHeapLayout.Free(L, i).blocks) + [L.pool - ITEM]
           == MergedRow(Addrs(L.blocks) + [L.pool - ITEM], i, LeftFree(L, i), RightFree(L, i))
    {
      hide Inv, Replace, Addrs;
      var bs, bs' := L.blocks, MemHeapLayout.Free(L, i).blocks;
      var A := Addrs(bs);
      if LeftFree(L, i) && RightFree(L, i) {
        RowMerge(bs, i - 1, 3, Blk(bs[i - 1].addr, bs[i - 1].size + ITEM + bs[i].size + ITEM + bs[i + 1].size, false));
        assert A[..i] + A[i + 2..] + [L.pool - ITEM] == Drop(Drop(A + [L.pool - ITEM], i + 1), i);
      } else if LeftFree(L, i) {
        RowMerge(bs, i - 1, 2, Blk(bs[i - 1].addr, bs[i - 1].size + ITEM + bs[i].size, false));
        assert A[..i] + A[i + 1..] + [L.pool - ITEM] == Drop(A + [L.pool - ITEM], i);
      } else if RightFree(L, i) {
        RowMerge(bs, i, 2, Blk(bs[i].addr, bs[i].size + ITEM + bs[i + 1].size, false));
        assert A[..i + 1] + A[i + 2..] + [L.pool - ITEM] == Drop(A + [L.pool - ITEM], i + 1);
      } else {
        RowMerge(bs, i, 1, bs[i].(used := false));
        assert A[..i + 1] + A[i + 1..] == A;
      }
    }

    lemma FlagsFree(L: Layout, i: nat, used: map<int, bool>)
      requires Inv(L) && i < |L.blocks| && L.blocks[i].used && FlagsFor(used, L.blocks)
      requires L.pool - ITEM in used && used[L.pool - ITEM]
      ensures var used' := used[L.blocks[i].addr := false];
              && FlagsFor(used', MemHeapLayout.Free(L, i).blocks) && L.pool - ITEM in used' && used'[L.pool - ITEM]
    {
      hide Inv;
      Alone(L, i);
      var bs, b, used' := L.blocks, L.blocks[i], used[L.blocks[i].addr := false];
      var k := (if LeftFree(L, i) then 1 else 0) + 1 + (if RightFree(L, i) then 1 else 0);
      var j := if LeftFree(L, i) then i - 1 else i;
      var bs' := MemHeapLayout.Free(L, i).blocks;
      assert bs' == Replace(bs, j, k, [bs'[j]]);
      assert bs[j] in bs;
      FlagsReplace(used, used', bs, j, k, [bs'[j]]);
    }

    // Used block i grows to s payload bytes into its unused right neighbour.
    method GrowInto(header: int, s: int, ghost i: nat)
      requires Valid() && i < |blocks| && blocks[i].addr == header && blocks[i].used && RightFree(View(), i)
      requires s >= MINIALLOC && s % 4 == 0 && blocks[i].size < s <= blocks[i].size + blocks[i + 1].size
      modifies this
      ensures Valid() && View() == Shift(old(View()), i, s)
      ensures Kept(ITEM, Live(old(blocks)), old(data), data)
    {
      hide Inv, Ring, IndexOf, FlagsFor, Kept, Live, InPayload;
      ghost var L, ring := View(), Addrs(blocks) + [Tail()];
      ghost var hi := blocks[i + 1].addr + ITEM + blocks[i + 1].size;
      Neighbours(i);
      Around(L, i);
      ShiftLaw(L, i, s);
      var x := header + ITEM + s;
      Inside(L, i + 1, x);
      ShiftFacts(L, i, s, used);
      Account(s - (next[header] - header - ITEM));
      Rebuild(header, x, ring, i);
      KeptOutside(L, i + 1, x, old(data), data);
      blocks := Replace(blocks, i, 2, Cut(header, s, hi));
    }

    // The unused right neighbour of `header` is taken off both lists and built anew at x.
    method Rebuild(header: int, x: int, ghost ring: seq<int>, ghost i: nat)
      requires Ring(next, prev, ring) && i + 1 < |ring| && ring[i] == header && FreeRing()
      requires ring[i + 1] in frees && x !in ring && x !in frees && x != FREE_LIST && 0 <= x && x + ITEM <= |data|
      modifies `next, `prev, `nextFree, `prevFree, `frees, `used, `data
      ensures FreeRing() && frees == [x] + Remove(old(frees), ring[i + 1])
      ensures Ring(next, prev, Insert(Drop(ring, i + 1), i + 1, x))
      ensures used == old(used)[x := false] && |data| == |old(data)|
      ensures forall k :: 0 <= k < |data| && !(x <= k < x + ITEM) ==> data[k] == old(data)[k]
    {
      RingNext(next, prev, ring, i);
      hide Ring, IndexOf;
      var right := next[header];
      UnlinkFree(right);
      UnlinkBlock(right, ring, i + 1);
      NewHeader(x);
      ghost var ring1 := Drop(ring, i + 1);
      assert ring1[i] == header;
      LinkBlock(header, x, ring1, i);
      PushFree(x);
    }

    // What moving the header between block i and its unused right neighbour to x does to the rows.
    lemma ShiftFacts(L: Layout, i: nat, s: int, used: map<int, bool>)
      requires Inv(L) && i < |L.blocks| && L.blocks[i].used && RightFree(L, i) && s % 4 == 0
      requires 0 <= s <= L.blocks[i].size + L.blocks[i + 1].size
               && (s > L.blocks[i].size || s + ITEM <= L.blocks[i].size)
      requires FlagsFor(used, L.blocks) && L.pool - ITEM in used && used[L.pool - ITEM]
      ensures var b, r := L.blocks[i], L.blocks[i + 1];
              var x, ring := b.addr + ITEM + s, Addrs(L.blocks) + [L.pool - ITEM];
              var bs' := Replace(L.blocks, i, 2, Cut(b.addr, s, r.addr + ITEM + r.size));
              && ring[i + 1] == r.addr && r.addr in L.free && x !in L.free && x !in ring
              && Addrs(bs') + [L.pool - ITEM] == Insert(Drop(ring, i + 1), i + 1, x) == Drop(Insert(ring, i + 1, x),
                 i + 2)
              && FlagsFor(used[x := false], bs') && L.pool - ITEM in used[x := false] && used[x := false][L.pool - ITEM]
              && x != L.pool - ITEM
    {
      hide Inv, FlagsFor;
      var b, r := L.blocks[i], L.blocks[i + 1];
      var x := b.addr + ITEM + s;
      Around(L, i);
      if s < b.size { Inside(L, i, x); } else { Inside(L, i + 1, x); }
      RowShift(L.blocks, i, Cut(b.addr, s, r.addr + ITEM + r.size), L.pool - ITEM);
      FlagsShift(L.blocks, i, Cut(b.addr, s, r.addr + ITEM + r.size), used);
    }

    lemma RowShift(bs: seq<Blk>, i: nat, cut: seq<Blk>, tail: int)
      requires i + 1 < |bs| && |cut| == 2 && cut[0].addr == bs[i].addr
      ensures var ring, row, x := Addrs(bs) + [tail], Addrs(Replace(bs, i, 2, cut)) + [tail], cut[1].addr;
              row == Insert(Drop(ring, i + 1), i + 1, x) == Drop(Insert(ring, i + 1, x), i + 2)
    {
    }

    lemma FlagsShift(bs: seq<Blk>, i: nat, cut: seq<Blk>, used: map<int, bool>)
      requires i + 1 < |bs| && |cut| == 2 && cut[0].addr == bs[i].addr && bs[i].used && cut[0].used && !cut[1].used
      requires FlagsFor(used, bs) && cut[1].addr !in Addrs(bs)
      ensures FlagsFor(used[cut[1].addr := false], Replace(bs, i, 2, cut))
    {
      assert forall j :: 0 <= j < |bs| ==> bs[j].addr == Addrs(bs)[j];
      assert forall j :: 0 <= j < |bs| ==> bs[j] in bs;
      FlagsReplace(used, used[cut[1].addr := false], bs, i, 2, cut);
    }

    // Used block i gives back all but s payload bytes to its used right neighbour's left.
    method GiveAlone(header: int, s: int, ghost i: nat)
      requires Valid() && i < |blocks| && blocks[i].addr == header && blocks[i].used && !RightFree(View(), i)
      requires MINIALLOC <= s && s % 4 == 0 && s + ITEM < blocks[i].size
      modifies this
      ensures Valid() && View() == CutOff(old(View()), i, s)
      ensures Kept(ITEM, Live(old(blocks)) - {old(blocks)[i]}, old(data), data)
      ensures forall k :: 0 <= k < header + ITEM + s && k < |data| ==> data[k] == old(data)[k]
    {
      hide Inv, Ring, IndexOf, FlagsFor, Kept, Live, InPayload, RightFree, Replace, Insert, Cut, Remove;
      ghost var L, ring := View(), Addrs(blocks) + [Tail()];
      Neighbours(i);
      At(L, i);
      var x := header + s + ITEM;
      CutFacts(L, i, s, used);
      CutOffLaw(L, i, s);
      LinkAlone(header, x, ring, i);
      KeptOutside(L, i, x, old(data), data);
      blocks := Replace(blocks, i, 1, Cut(header, s, header + ITEM + blocks[i].size));
    }

    // What building a header at x inside used block i does to the rows.
    lemma CutFacts(L: Layout, i: nat, s: int, used: map<int, bool>)
      requires Inv(L) && i < |L.blocks| && L.blocks[i].used && 0 <= s && s + ITEM < L.blocks[i].size
      requires FlagsFor(used, L.blocks) && L.pool - ITEM in used && used[L.pool - ITEM]
      ensures var b := L.blocks[i];
              var x, ring := b.addr + ITEM + s, Addrs(L.blocks) + [L.pool - ITEM];
              var bs' := Replace(L.blocks, i, 1, Cut(b.addr, s, b.addr + ITEM + b.size));
              && x !in L.free && x !in ring && x != FREE_LIST && 0 <= x && x + ITEM <= L.pool
              && Addrs(bs') + [L.pool - ITEM] == Insert(ring, i + 1, x)
              && FlagsFor(used[x := false], bs') && L.pool - ITEM in used[x := false] && used[x := false][L.pool - ITEM]
    {
      var x := L.blocks[i].addr + ITEM + s;
      assert L.blocks[i] in L.blocks;
      Inside(L, i, x);
      FlagsCut(L, i, s, used);
      RowCut(L, i, s);
      assert used[x := false][L.blocks[i].addr := true] == used[x := false];
    }

    // The same when the right neighbour is unused: what is given back joins it.
    method GiveMerged(header: int, s: int, ghost i: nat)
      requires Valid() && i < |blocks| && blocks[i].addr == header && blocks[i].used && RightFree(View(), i)
      requires MINIALLOC <= s && s % 4 == 0 && s + ITEM < blocks[i].size
      modifies this
      ensures Valid() && View() == Shift(old(View()), i, s)
      ensures Kept(ITEM, Live(old(blocks)) - {old(blocks)[i]}, old(data), data)
      ensures forall k :: 0 <= k < header + ITEM + s && k < |data| ==> data[k] == old(data)[k]
    {
      hide Inv, Ring, IndexOf, FlagsFor, Kept, Live, InPayload;
      ghost var L, ring := View(), Addrs(blocks) + [Tail()];
      Neighbours(i);
      Around(L, i);
      var x := header + s + ITEM;
      Inside(L, i, x);
      ShiftLaw(L, i, s);
      ShiftFacts(L, i, s, used);
      SizeOf(i + 1);
      LinkMerged(header, x, ring, i);
      KeptOutside(L, i, x, old(data), data);
      blocks := Replace(blocks, i, 2, Cut(header, s, blocks[i + 1].addr + ITEM + blocks[i + 1].size));
    }

    // A header is built at x, between `header` and its used right neighbour.
    method LinkAlone(header: int, x: int, ghost ring: seq<int>, ghost i: nat)
      requires Ring(next, prev, ring) && i + 1 < |ring| && ring[i] == header && FreeRing()
      requires x !in ring && x !in frees && x != FREE_LIST && 0 <= x && x + ITEM <= |data|
      modifies `next, `prev, `nextFree, `prevFree, `frees, `available, `used, `data
      ensures used == old(used)[x := false] && |data| == |old(data)|
      ensures forall k :: 0 <= k < |data| && !(x <= k < x + ITEM) ==> data[k] == old(data)[k]
      ensures FreeRing() && frees == [x] + old(frees)
      ensures Ring(next, prev, Insert(ring, i + 1, x))
      ensures available == old(available) + (ring[i + 1] - x - ITEM)
    {
      hide IndexOf;
      NewHeader(x);
      LinkBlock(header, x, ring, i);
      ghost var ring1 := Insert(ring, i + 1, x);
      assert ring1[i + 1] == x && ring1[i + 2] == ring[i + 1];
      RingNext(next, prev, ring1, i + 1);
      PushFree(x);
      available := available + (next[x] - x - ITEM);
    }

    // A header is built at x, after `header`, and absorbs the unused right neighbour of that one.
    method LinkMerged(header: int, x: int, ghost ring: seq<int>, ghost i: nat)
      requires Ring(next, prev, ring) && i + 2 < |ring| && ring[i] == header && FreeRing()
      requires x !in ring && x !in frees && x != FREE_LIST && 0 <= x && x + ITEM <= |data|
      requires ring[i + 1] in frees
      modifies `next, `prev, `nextFree, `prevFree, `frees, `available, `used, `data
      ensures used == old(used)[x := false] && |data| == |old(data)|
      ensures forall k :: 0 <= k < |data| && !(x <= k < x + ITEM) ==> data[k] == old(data)[k]
      ensures FreeRing() && frees == [x] + Remove(old(frees), ring[i + 1])
      ensures Ring(next, prev, Drop(Insert(ring, i + 1, x), i + 2))
      ensures available == old(available) - (ring[i + 2] - ring[i + 1] - ITEM) + (ring[i + 2] - x - ITEM)
    {
      hide Ring, IndexOf;
      NewHeader(x);
      LinkBlock(header, x, ring, i);
      ghost var ring1 := Insert(ring, i + 1, x);
      assert ring1[i + 1] == x && ring1[i + 2] == ring[i + 1] && ring1[i + 3] == ring[i + 2];
      RingNext(next, prev, ring1, i + 1);
      RingNext(next, prev, ring1, i + 2);
      var right := next[x];
      available := available - (next[right] - right - ITEM);
      UnlinkBlock(right, ring1, i + 2);
      UnlinkFree(right);
      PushFree(x);
      ghost var ring2 := Drop(ring1, i + 2);
      assert ring2[i + 1] == x && ring2[i + 2] == ring[i + 2];
      RingNext(next, prev, ring2, i + 1);
      available := available + (next[x] - x - ITEM);
    }

    static ghost function PayloadOf(r: Option<int>): Option<int> {
      if r.None? then None else Some(r.value + ITEM)
    }

    // What rt_memheap_realloc owes the holder of block x, and everybody else: the layout changes as
    // MemHeapLaws.Realloc says, the first min(old, new) payload bytes of the block and all bytes of
    // every other live block survive.
    static ghost predicate Resized(L: Layout, data0: seq<bv8>, x: int, newsize: int, L': Layout, data1: seq<bv8>,
                                   q: Option<int>)
      requires Inv(L) && FreeListed(L) && x in Addrs(L.blocks) && L.blocks[Find(L.blocks, x)].used
    {
      var r, b := MemHeapLaws.Realloc(L, x, newsize), L.blocks[Find(L.blocks, x)];
      && L' == r.0 && q == PayloadOf(r.1)
      && Kept(ITEM, Live(L.blocks) - {b}, data0, data1)
      && (q.Some? ==>
         Copied(data0, x + ITEM, data1, q.value, if b.size < Request(newsize) then b.size else Request(newsize)))
    }

    // rt_memheap_realloc
    method Realloc(p: Option<int>, newsize: int) returns (q: Option<int>)
      requires Valid() && 0 <= newsize < WORD
      requires p.Some? ==> Holds(p.value - ITEM) && !Overgrows(View(), Find(blocks, p.value - ITEM), newsize)
      modifies this
      ensures Valid() && FreeListed(old(View()))
      ensures p.None? && newsize == 0 ==> q.None? && View() == old(View()) && data == old(data)
      ensures p.None? && newsize != 0 ==>
                var r := MemHeapLayout.Alloc(old(View()), Request(newsize));
                View() == r.0 && q == PayloadOf(r.1) && Kept(ITEM, Live(old(blocks)), old(data), data)
      ensures p.Some? ==> Resized(old(View()), old(data), p.value - ITEM, newsize, View(), data, q)
    {
      hide Inv, BlockRing, FreeRing, Flags, IndexOf;
      NotEmpty(View());
      FreeAddrIs(View(), 0);
      if newsize == 0 {
        Free(p);
        return None;
      }
      RequestTwice(newsize);
      if p.None? {
        q := Alloc(Request(newsize));
        return;
      }
      q := Resize(p.value - ITEM, newsize);
    }

    lemma RequestTwice(size: int)
      requires 0 <= size < WORD
      ensures Request(Request(size)) == Request(size) && Request(size) < WORD
    {
    }

    // The block stays where it is and keeps its first bytes.
    lemma InPlace(L: Layout, data0: seq<bv8>, x: int, newsize: int, L': Layout, data1: seq<bv8>)
      requires Inv(L) && FreeListed(L) && x in Addrs(L.blocks) && L.blocks[Find(L.blocks, x)].used
      requires MemHeapLaws.Realloc(L, x, newsize) == (L', Some(x)) && |data0| == |data1| == L.pool
      requires var b := L.blocks[Find(L.blocks, x)];
               && Kept(ITEM, Live(L.blocks) - {b}, data0, data1)
               && forall k :: InPayload(ITEM, b, k) && k < x + ITEM + Request(newsize) && 0 <= k < |data0| ==>
                  data1[k] == data0[k]
      ensures Resized(L, data0, x, newsize, L', data1, Some(x + ITEM))
    {
      hide Inv;
      var i := Find(L.blocks, x);
      At(L, i);
      var b := L.blocks[i];
      assert forall k :: x + ITEM <= k < x + ITEM + b.size ==> InPayload(ITEM, b, k);
    }

    // The case of a block and a size that is not zero.
    method Resize(x: int, newsize: int) returns (q: Option<int>)
      requires Valid() && FreeListed(View()) && Holds(x) && 0 < newsize < WORD
      requires !Overgrows(View(), Find(blocks, x), newsize)
      modifies this
      ensures Valid() && Resized(old(View()), old(data), x, newsize, View(), data, q)
    {
      hide Inv, BlockRing, FreeRing, Flags, IndexOf, MemHeapLayout.Alloc, MemHeapLayout.Free, Shift, CutOff,
          FreeListed, Resized;
      ghost var L, i := View(), Find(blocks, x);
      RequestTwice(newsize);
      Neighbours(i);
      Around(L, i);
      if RightFree(L, i) { SizeOf(i + 1); }
      var s := Request(newsize);
      var own := next[x] - x - ITEM;
      var right := next[x];
      if s > own {
        if !used[right] && GrowGuard(next[right] - right - ITEM, own, s) {
          GrowFits(L, i, s);
          GrowInto(x, s, i);
          InPlace(L, old(data), x, newsize, View(), data);
          return Some(x + ITEM);
        }
        q := Move(x, own, newsize, i);
      } else if s + ITEM + MINIALLOC >= own {
        InPlace(L, old(data), x, newsize, View(), data);
        return Some(x + ITEM);
      } else {
        Trim(x, newsize, i);
        return Some(x + ITEM);
      }
    }

    // The block gives back what it need not keep.
    method Trim(x: int, newsize: int, ghost i: nat)
      requires Valid() && FreeListed(View()) && Holds(x) && i == Find(blocks, x) && 0 < newsize < WORD
      requires Request(newsize) + ITEM + MINIALLOC < blocks[i].size
      modifies this
      ensures Valid() && Resized(old(View()), old(data), x, newsize, View(), data, Some(x + ITEM))
    {
      ghost var L := View();
      Neighbours(i);
      hide Inv, BlockRing, FreeRing, Flags, IndexOf, MemHeapLayout.Alloc, MemHeapLayout.Free, Shift, CutOff,
          FreeListed, Resized, Kept, Live;
      if !used[next[x]] {
        GiveMerged(x, Request(newsize), i);
      } else {
        GiveAlone(x, Request(newsize), i);
      }
      InPlace(L, old(data), x, newsize, View(), data);
    }

    // The block does not fit where it is: a new one is allocated, filled and the old one freed.
    method Move(x: int, own: int, newsize: int, ghost i: nat) returns (q: Option<int>)
      requires Valid() && FreeListed(View()) && Holds(x) && i == Find(blocks, x)
      requires own == blocks[i].size && own < Request(newsize) && 0 < newsize < WORD
      requires RightFree(View(), i) ==> !GrowGuard(blocks[i + 1].size, own, Request(newsize))
      modifies this
      ensures Valid() && Resized(old(View()), old(data), x, newsize, View(), data, q)
    {
      ghost var L, data0 := View(), data;
      RequestTwice(newsize);
      At(L, i);
      hide Inv, BlockRing, FreeRing, Flags, IndexOf, MemHeapLayout.Alloc, MemHeapLayout.Free, FreeListed, Kept, Resized;
      q := Alloc(Request(newsize));
      if q.None? {
        AllocLaw(L, Request(newsize));
        MovedNot(L, data0, x, newsize, data);
      } else {
        Transfer(L, data0, q.value, x, own, newsize);
      }
    }

    method Transfer(ghost L: Layout, ghost data0: seq<bv8>, to: int, x: int, own: int, newsize: int)
      requires Inv(L) && FreeListed(L) && x in Addrs(L.blocks) && L.blocks[Find(L.blocks, x)].used
      requires own == L.blocks[Find(L.blocks, x)].size && 0 <= own < Request(newsize) && 0 < newsize < WORD
      requires var i := Find(L.blocks, x); RightFree(L, i) ==> !GrowGuard(L.blocks[i + 1].size, own, Request(newsize))
      requires Valid() && (View(), Some(to - ITEM)) == MemHeapLayout.Alloc(L, Request(newsize))
      requires Kept(ITEM, Live(L.blocks), data0, data)
      modifies this
      ensures Valid() && Resized(L, data0, x, newsize, View(), data, Some(to))
    {
      hide Inv, BlockRing, FreeRing, Flags, IndexOf, MemHeapLayout.Alloc, MemHeapLayout.Free, FreeListed, Kept,
          Resized, Live, Copied;
      ghost var b, data1 := L.blocks[Find(L.blocks, x)], data;
      ghost var c := Fresh(L, View(), to - ITEM, x, Request(newsize));
      data := Copy(data, to, x + ITEM, own);
      CopySpares(View(), L.blocks, b, c, own, data0, data1);
      Free(Some(x + ITEM));
      Moved(L, data0, x, newsize, data);
    }

    // The new block that an allocation made live, beside the old block at x.
    lemma Fresh(L: Layout, L1: Layout, y: int, x: int, s: int) returns (c: Blk)
      requires Inv(L) && FreeListed(L) && x in Addrs(L.blocks) && L.blocks[Find(L.blocks, x)].used
      requires s >= MINIALLOC && s % 4 == 0 && MemHeapLayout.Alloc(L, s) == (L1, Some(y))
      ensures Inv(L1) && L1.pool == L.pool
      ensures var b := L.blocks[Find(L.blocks, x)];
              && c.addr == y && c.size >= s && b in Live(L.blocks) && c !in Live(L.blocks)
              && Live(L1.blocks) == Live(L.blocks) + {c}
              && x in Addrs(L1.blocks) && L1.blocks[Find(L1.blocks, x)] == b
              && 0 <= b.addr && b.size >= 0 && b.addr + ITEM + b.size <= L.pool
              && 0 <= c.addr && c.addr + ITEM + c.size <= L.pool
              && (b.addr + ITEM + b.size <= c.addr || c.addr + ITEM + c.size <= b.addr)
    {
      var b := L.blocks[Find(L.blocks, x)];
      AllocLaw(L, s);
      hide Inv, FreeListed, FreeBytes, FreeAddrs;
      var n :| s <= n < s + ITEM + MINIALLOC && Blk(y, n, true) !in Live(L.blocks)
               && Live(L1.blocks) == Live(L.blocks) + {Blk(y, n, true)};
      c := Blk(y, n, true);
      assert b in Live(L.blocks);
      StillThere(L, L1, Find(L.blocks, x));
      hide Live;
      LivesApart(L1, b, c);
    }

    lemma MovedNot(L: Layout, data0: seq<bv8>, x: int, newsize: int, data1: seq<bv8>)
      requires Inv(L) && FreeListed(L) && x in Addrs(L.blocks) && L.blocks[Find(L.blocks, x)].used && newsize > 0
      requires var i, s := Find(L.blocks, x), Request(newsize);
               && s > L.blocks[i].size && (RightFree(L, i) ==> !GrowGuard(L.blocks[i + 1].size, L.blocks[i].size, s))
               && MemHeapLayout.Alloc(L, s).1.None? && Kept(ITEM, Live(L.blocks), data0, data1)
      ensures Resized(L, data0, x, newsize, L, data1, None)
    {
      hide Inv, FreeListed, MemHeapLayout.Alloc;
    }

    lemma Moved(L: Layout, data0: seq<bv8>, x: int, newsize: int, data1: seq<bv8>)
      requires Inv(L) && FreeListed(L) && x in Addrs(L.blocks) && L.blocks[Find(L.blocks, x)].used && newsize > 0
      requires var i, s := Find(L.blocks, x), Request(newsize);
               var b, r := L.blocks[i], MemHeapLayout.Alloc(L, s);
               && s > b.size && (RightFree(L, i) ==> !GrowGuard(L.blocks[i + 1].size, b.size, s))
               && r.1.Some? && Kept(ITEM, Live(L.blocks) - {b}, data0, data1)
               && Copied(data0, x + ITEM, data1, r.1.value + ITEM, b.size)
      ensures var r := MemHeapLayout.Alloc(L, Request(newsize));
              && Inv(r.0) && x in Addrs(r.0.blocks)
              && Resized(L, data0, x, newsize, MemHeapLayout.Free(r.0, Find(r.0.blocks, x)), data1, PayloadOf(r.1))
    {
      hide Inv, FreeListed, MemHeapLayout.Alloc, MemHeapLayout.Free, Kept, Copied, Addrs, Request, GrowGuard;
      var i, s := Find(L.blocks, x), Request(newsize);
      AllocLaw(L, s);
      StillThere(L, MemHeapLayout.Alloc(L, s).0, i);
    }

    // Two live blocks do not overlap and lie inside the pool.
    lemma LivesApart(L: Layout, b: Blk, c: Blk)
      requires Inv(L) && b in Live(L.blocks) && c in Live(L.blocks) && b != c
      ensures 0 <= b.addr && b.size >= 0 && b.addr + ITEM + b.size <= L.pool
      ensures 0 <= c.addr && c.size >= 0 && c.addr + ITEM + c.size <= L.pool
      ensures b.addr + ITEM + b.size <= c.addr || c.addr + ITEM + c.size <= b.addr
    {
      hide FreeBytes, Coalesced, FreeAddrs;
      TilesOrder(L.blocks, ITEM, 0, L.pool - ITEM);
      var i :| 0 <= i < |L.blocks| && L.blocks[i] == b;
      var j :| 0 <= j < |L.blocks| && L.blocks[j] == c;
      assert i < j || j < i;
    }

    // Copying b's payload into the new block c leaves all other live payloads alone.
    lemma CopySpares(L: Layout, before: seq<Blk>, b: Blk, c: Blk, n: int, data0: seq<bv8>, data1: seq<bv8>)
      requires Inv(L) && b in Live(before) && c !in Live(before) && Live(L.blocks) == Live(before) + {c}
      requires 0 <= n <= c.size && n <= b.size && Kept(ITEM, Live(before), data0, data1) && |data1| == L.pool
      requires 0 <= b.addr && b.addr + ITEM + n <= |data1| && 0 <= c.addr && c.addr + ITEM + n <= |data1|
      ensures var data2 := Overwritten(data1, c.addr + ITEM, b.addr + ITEM, n);
              Kept(ITEM, Live(before) - {b}, data0, data2) && Copied(data0, b.addr + ITEM, data2, c.addr + ITEM, n)
    {
      var data2 := Overwritten(data1, c.addr + ITEM, b.addr + ITEM, n);
      forall a, k | a in Live(before) - {b} && 0 <= k < |data0| && InPayload(ITEM, a, k)
        ensures data2[k] == data0[k]
      {
        LivesApart(L, a, c);
      }
      assert forall k :: b.addr + ITEM <= k < b.addr + ITEM + n ==> InPayload(ITEM, b, k);
    }

    lemma PayloadIs(x: int)
      requires x in Addrs(blocks)
      ensures Payload(blocks, x) == blocks[Find(blocks, x)].size
    {
    }

    lemma FreeHead()
      requires FreeRing()
      ensures FREE_LIST in nextFree && nextFree[FREE_LIST] == if |frees| > 0 then frees[0] else FREE_LIST
    {
      var ring := [FREE_LIST] + frees;
      assert ring[0] == FREE_LIST;
      assert nextFree[ring[0]] == if |ring| > 1 then ring[1] else ring[0];
    }
  }

  lemma NotEmpty(L: Layout)
    requires Inv(L)
    ensures L.blocks != []
  {
  }
}
