// The laws of the boundary-tag heap: every operation keeps the invariant and changes the live
// blocks exactly as its caller expects, and every byte is accounted for.
module MemHeapLaws {
  import opened Wrappers
  import opened Rings
  import opened Blocks
  import opened MemHeapLayout

  // The one step behind all operations: k blocks from position i on are replaced by others over
  // the same stretch of memory.
  lemma ReplaceLaw(L: Layout, i: nat, k: nat, mid': seq<Blk>, free': seq<int>, avail': int, peak': int)
    requires Inv(L) && i + k <= |L.blocks| && k > 0 && mid' != []
    requires var mid := L.blocks[i..i + k];
             && Tiles(mid', ITEM, mid[0].addr, mid[0].addr + Span(mid, ITEM))
             && (forall x :: x in free' <==> (x in L.free && x !in FreeAddrs(mid)) || x in FreeAddrs(mid'))
             && avail' == L.avail - FreeBytes(mid) + FreeBytes(mid')
    requires Coalesced(mid') && Roomy(Live(mid')) && Distinct(free') && L.pool - avail' <= peak'
    requires i == 0 || L.blocks[i - 1].used || mid'[0].used
    requires i + k == |L.blocks| || L.blocks[i + k].used || mid'[|mid'| - 1].used
    ensures var L' := Layout(L.pool, Replace(L.blocks, i, k, mid'), free', avail', peak');
            Inv(L') && Live(L'.blocks) == Live(L.blocks) - Live(L.blocks[i..i + k]) + Live(mid')
  {
    hide Tiles, Span, FreeBytes, Coalesced, Live, FreeAddrs, Replace;
    RowReplace(L.blocks, i, k, mid', ITEM, 0, L.pool - ITEM);
  }

  // A used block followed by a free one, over the addresses b to hi.
  lemma CutIs(b: int, s: int, hi: int)
    requires s >= 0 && s % 4 == 0 && (hi - b) % 4 == 0 && b + ITEM + s + ITEM <= hi
    ensures Tiles(Cut(b, s, hi), ITEM, b, hi) && Coalesced(Cut(b, s, hi))
    ensures FreeBytes(Cut(b, s, hi)) == hi - b - ITEM - s - ITEM
    ensures Live(Cut(b, s, hi)) == {Blk(b, s, true)} && FreeAddrs(Cut(b, s, hi)) == {b + ITEM + s}
    ensures s >= MINIALLOC ==> Roomy(Live(Cut(b, s, hi)))
    ensures |Cut(b, s, hi)| == 2 && Cut(b, s, hi)[0].used && !Cut(b, s, hi)[1].used
  {
    var c := Cut(b, s, hi);
    assert c[1..] == [c[1]] && c[1..][1..] == [];
    TwoIs(c[0], c[1], ITEM);
  }

  // Block i of a sound layout and its right neighbour.
  lemma At(L: Layout, i: nat)
    requires Inv(L) && i < |L.blocks|
    ensures L.blocks[i].size >= 0 && L.blocks[i].size % 4 == 0
    ensures L.blocks[i].addr >= 0 && L.blocks[i].addr % 4 == 0
    ensures L.blocks[i].addr + ITEM + L.blocks[i].size <= L.pool - ITEM
    ensures L.blocks[i].addr in L.free <==> !L.blocks[i].used
    ensures i + 1 < |L.blocks| ==> L.blocks[i + 1].addr == L.blocks[i].addr + ITEM + L.blocks[i].size
    ensures i + 1 < |L.blocks| ==> L.blocks[i].used || L.blocks[i + 1].used
    ensures Distinct(L.free) && L.pool - L.avail <= L.peak
  {
    hide Inv, Tiles, FreeListed, Distinct;
    Parts(L);
    TilesOrder(L.blocks, ITEM, 0, L.pool - ITEM);
    TilesAligned(L.blocks, ITEM, 0, L.pool - ITEM);
    FreeAddrIs(L, i);
    if i + 1 < |L.blocks| { assert !FreePair(L.blocks, i); }
  }

  lemma Parts(L: Layout)
    requires Inv(L)
    ensures Tiles(L.blocks, ITEM, 0, L.pool - ITEM) && Coalesced(L.blocks)
    ensures Distinct(L.free) && L.pool - L.avail <= L.peak
  {
  }

  // Block i and both its neighbours.
  lemma Around(L: Layout, i: nat)
    requires Inv(L) && i < |L.blocks|
    ensures i > 0 ==> L.blocks[i].addr == L.blocks[i - 1].addr + ITEM + L.blocks[i - 1].size
    ensures i > 0 ==> L.blocks[i - 1].used || L.blocks[i].used
    ensures forall j :: i - 1 <= j <= i + 1 && 0 <= j < |L.blocks| ==>
              && L.blocks[j].size >= 0 && L.blocks[j].size % 4 == 0 && L.blocks[j].addr >= 0
                 && L.blocks[j].addr % 4 == 0
              && L.blocks[j].addr + ITEM + L.blocks[j].size <= L.pool - ITEM
              && (L.blocks[j].addr in L.free <==> !L.blocks[j].used)
    ensures i + 1 < |L.blocks| ==> L.blocks[i + 1].addr == L.blocks[i].addr + ITEM + L.blocks[i].size
    ensures i + 1 < |L.blocks| ==> L.blocks[i].used || L.blocks[i + 1].used
    ensures Distinct(L.free) && L.pool - L.avail <= L.peak
  {
    hide Inv;
    At(L, i);
    if i > 0 { At(L, i - 1); }
    if i + 1 < |L.blocks| { At(L, i + 1); }
  }

  lemma CarveLaw(L: Layout, i: nat, s: int)
    requires Inv(L) && i < |L.blocks| && L.blocks[i].addr in L.free
    requires MINIALLOC <= s <= L.blocks[i].size && s % 4 == 0
    ensures var b := L.blocks[i];
            var n := if b.size >= s + ITEM + MINIALLOC then s else b.size;
            Inv(Carve(L, i, s)) && Live(Carve(L, i, s).blocks) == Live(L.blocks) + {Blk(b.addr, n, true)}
  {
    hide Inv, Tiles, Span, FreeBytes, Coalesced, Live, FreeAddrs, IndexOf;
    Around(L, i);
    var b := L.blocks[i];
    assert L.blocks[i..i + 1] == [b];
    OneIs(b, ITEM);
    RemoveDistinct(L.free, b.addr);
    assert b.addr in FreeAddrs([b]);
    if b.size >= s + ITEM + MINIALLOC {
      var hi, avail := b.addr + ITEM + b.size, L.avail - s - ITEM;
      var free' := [b.addr + ITEM + s] + Remove(L.free, b.addr);
      CutIs(b.addr, s, hi);
      assert b.addr + ITEM + s !in L.free by { NotAnAddress(L, i, b.addr + ITEM + s); }
      ReplaceLaw(L, i, 1, Cut(b.addr, s, hi), free', avail, Peak(L.pool, avail, L.peak));
    } else {
      var avail := L.avail - b.size;
      OneIs(b.(used := true), ITEM);
      ReplaceLaw(L, i, 1, [b.(used := true)], Remove(L.free, b.addr), avail, Peak(L.pool, avail, L.peak));
    }
  }

  // No free header lies strictly inside block i.
  lemma NotAnAddress(L: Layout, i: nat, x: int)
    requires Inv(L) && i < |L.blocks|
    requires L.blocks[i].addr < x < L.blocks[i].addr + ITEM + L.blocks[i].size
    ensures x !in L.free
  {
    hide FreeBytes, Coalesced;
    TilesOrder(L.blocks, ITEM, 0, L.pool - ITEM);
    forall b | b in L.blocks
      ensures b.addr != x
    {
      var k :| 0 <= k < |L.blocks| && L.blocks[k] == b;
      assert k == i || k < i || k > i;
    }
  }

  lemma FreeBoth(L: Layout, i: nat)
    requires Inv(L) && i < |L.blocks| && L.blocks[i].used && LeftFree(L, i) && RightFree(L, i)
    ensures Inv(Free(L, i)) && Live(Free(L, i).blocks) == Live(L.blocks) - {L.blocks[i]}
  {
    hide Inv, Tiles, Span, FreeBytes, Coalesced, Live, FreeAddrs, Roomy, Distinct, Remove, Free, Replace;
    Around(L, i);
    FreeBothIs(L, i);
    var l, b, r := L.blocks[i - 1], L.blocks[i], L.blocks[i + 1];
    var m := Blk(l.addr, l.size + ITEM + b.size + ITEM + r.size, false);
    Stretch(L.blocks, i - 1);
    JoinThree(l, b, r);
    Without(L.free, r.addr);
    if i + 2 < |L.blocks| { At(L, i + 1); }
    if i - 1 > 0 { At(L, i - 2); }
    ReplaceLaw(L, i - 1, 3, [m], Remove(L.free, r.addr), L.avail + b.size + ITEM + ITEM, L.peak);
  }

  lemma FreeBothIs(L: Layout, i: nat)
    requires Inv(L) && i < |L.blocks| && L.blocks[i].used && LeftFree(L, i) && RightFree(L, i)
    ensures var bs := L.blocks;
            var m := Blk(bs[i - 1].addr, bs[i - 1].size + ITEM + bs[i].size + ITEM + bs[i + 1].size, false);
            && bs[i + 1].addr in L.free
            && Free(L, i) == Layout(L.pool, Replace(bs, i - 1, 3, [m]), Remove(L.free, bs[i + 1].addr),
                                    L.avail + bs[i].size + ITEM + ITEM, L.peak)
  {
    FreeAddrIs(L, i);
  }

  lemma Without(free: seq<int>, x: int)
    requires Distinct(free) && x in free
    ensures Distinct(Remove(free, x)) && forall y :: y in Remove(free, x) <==> y in free && y != x
  {
    hide IndexOf;
    RemoveDistinct(free, x);
  }

  // A used block between two free ones, and the one block they become.
  lemma JoinThree(l: Blk, b: Blk, r: Blk)
    requires !l.used && b.used && !r.used && l.size >= 0 && b.size >= 0 && r.size >= 0
    requires l.size % 4 == 0 && b.size % 4 == 0 && r.size % 4 == 0
    ensures var m, mid := Blk(l.addr, l.size + ITEM + b.size + ITEM + r.size, false), [l, b, r];
            && Tiles([m], ITEM, l.addr, l.addr + Span(mid, ITEM)) && Coalesced([m])
            && FreeBytes([m]) == FreeBytes(mid) + b.size + ITEM + ITEM
            && Live(mid) == {b} && Live([m]) == {} && Roomy(Live([m]))
            && FreeAddrs([m]) == {l.addr} && FreeAddrs(mid) == {l.addr, r.addr}
  {
    hide Tiles, Span, FreeBytes, Coalesced, Live, FreeAddrs;
    Quarters(l.size, b.size, r.size);
    OneIs(Blk(l.addr, l.size + ITEM + b.size + ITEM + r.size, false), ITEM);
    ThreeIs(l, b, r, ITEM);
    assert {l.addr} + {} + {r.addr} == {l.addr, r.addr};
    assert {} + {b} + {} == {b};
  }

  lemma Quarters(a: int, b: int, c: int)
    requires a % 4 == 0 && b % 4 == 0 && c % 4 == 0
    ensures (a + ITEM + b + ITEM + c) % 4 == 0
  {
  }

  lemma FreeLeft(L: Layout, i: nat)
    requires Inv(L) && i < |L.blocks| && L.blocks[i].used && LeftFree(L, i) && !RightFree(L, i)
    ensures Inv(Free(L, i)) && Live(Free(L, i).blocks) == Live(L.blocks) - {L.blocks[i]}
  {
    hide Inv, Tiles, Span, FreeBytes, Coalesced, Live, FreeAddrs, Roomy, Distinct, Free, Replace;
    Around(L, i);
    FreeLeftIs(L, i);
    var l, b := L.blocks[i - 1], L.blocks[i];
    var m := Blk(l.addr, l.size + ITEM + b.size, false);
    JoinTwo(L, i - 1, l, b, m);
    if i - 1 > 0 { At(L, i - 2); }
    ReplaceLaw(L, i - 1, 2, [m], L.free, L.avail + b.size + ITEM, L.peak);
  }

  lemma FreeLeftIs(L: Layout, i: nat)
    requires Inv(L) && i < |L.blocks| && L.blocks[i].used && LeftFree(L, i) && !RightFree(L, i)
    ensures var l, b := L.blocks[i - 1], L.blocks[i];
            Free(L, i) == Layout(L.pool, Replace(L.blocks, i - 1, 2, [Blk(l.addr, l.size + ITEM + b.size, false)]),
                                 L.free, L.avail + b.size + ITEM, L.peak)
  {
    hide Inv, Replace;
  }

  // A free block followed by a used one, and the one block they become.
  lemma JoinTwo(L: Layout, j: nat, l: Blk, b: Blk, m: Blk)
    requires j + 1 < |L.blocks| && l == L.blocks[j] && b == L.blocks[j + 1] && !l.used && b.used
    requires l.size >= 0 && b.size >= 0 && l.size % 4 == 0 && b.size % 4 == 0
    requires m == Blk(l.addr, l.size + ITEM + b.size, false)
    ensures var mid := L.blocks[j..j + 2];
            && mid[0] == l && Tiles([m], ITEM, l.addr, l.addr + Span(mid, ITEM)) && Coalesced([m])
            && FreeBytes([m]) == FreeBytes(mid) + b.size + ITEM
            && Live(mid) == {b} && Live([m]) == {} && Roomy(Live([m]))
            && FreeAddrs([m]) == {l.addr} && FreeAddrs(mid) == {l.addr}
  {
    hide Tiles, Span, FreeBytes, Coalesced, Live, FreeAddrs;
    Quarters(l.size, b.size, 0);
    assert L.blocks[j..j + 2] == [l, b];
    OneIs(m, ITEM);
    TwoIs(l, b, ITEM);
    assert {l.addr} + {} == {l.addr} && {} + {b} == {b};
  }

  lemma FreeRight(L: Layout, i: nat)
    requires Inv(L) && i < |L.blocks| && L.blocks[i].used && !LeftFree(L, i) && RightFree(L, i)
    ensures Inv(Free(L, i)) && Live(Free(L, i).blocks) == Live(L.blocks) - {L.blocks[i]}
  {
    hide Inv, Tiles, Span, FreeBytes, Coalesced, Live, FreeAddrs, IndexOf;
    Around(L, i);
    var bs, b, r := L.blocks, L.blocks[i], L.blocks[i + 1];
    var m := Blk(b.addr, b.size + ITEM + r.size, false);
    assert bs[i..i + 2] == [b, r];
    TwoIs(b, r, ITEM);
    OneIs(m, ITEM);
    RemoveDistinct(L.free, r.addr);
    if i + 2 < |bs| { At(L, i + 1); }
    ReplaceLaw(L, i, 2, [m], [b.addr] + Remove(L.free, r.addr), L.avail + b.size + ITEM, L.peak);
  }

  lemma FreeAlone(L: Layout, i: nat)
    requires Inv(L) && i < |L.blocks| && L.blocks[i].used && !LeftFree(L, i) && !RightFree(L, i)
    ensures Inv(Free(L, i)) && Live(Free(L, i).blocks) == Live(L.blocks) - {L.blocks[i]}
  {
    hide Inv, Tiles, Span, FreeBytes, Coalesced, Live, FreeAddrs, IndexOf;
    Around(L, i);
    var bs, b := L.blocks, L.blocks[i];
    assert bs[i..i + 1] == [b];
    OneIs(b, ITEM);
    OneIs(b.(used := false), ITEM);
    ReplaceLaw(L, i, 1, [b.(used := false)], [b.addr] + L.free, L.avail + b.size, L.peak);
  }

  lemma FreeLaw(L: Layout, i: nat)
    requires Inv(L) && i < |L.blocks| && L.blocks[i].used
    ensures Inv(Free(L, i)) && Live(Free(L, i).blocks) == Live(L.blocks) - {L.blocks[i]}
  {
    hide Inv, Live, Free;
    if LeftFree(L, i) {
      if RightFree(L, i) { FreeBoth(L, i); } else { FreeLeft(L, i); }
    } else {
      if RightFree(L, i) { FreeRight(L, i); } else { FreeAlone(L, i); }
    }
  }

  lemma ShiftLaw(L: Layout, i: nat, s: int)
    requires Inv(L) && i < |L.blocks| && L.blocks[i].used && RightFree(L, i)
    requires MINIALLOC <= s && s % 4 == 0 && s <= L.blocks[i].size + L.blocks[i + 1].size
    ensures Inv(Shift(L, i, s))
    ensures Live(Shift(L, i, s).blocks) == Live(L.blocks) - {L.blocks[i]} + {Blk(L.blocks[i].addr, s, true)}
  {
    hide Inv, Tiles, Span, FreeBytes, Coalesced, Live, FreeAddrs, Roomy, Distinct, Remove, Replace, Cut;
    Around(L, i);
    var bs, b, r := L.blocks, L.blocks[i], L.blocks[i + 1];
    var hi, avail, nb := r.addr + ITEM + r.size, L.avail - (s - b.size), b.addr + ITEM + s;
    Stretch(bs, i);
    TwoIs(b, r, ITEM);
    CutIs(b.addr, s, hi);
    Without(L.free, r.addr);
    if nb < r.addr { NotAnAddress(L, i, nb); }
    if nb > r.addr { NotAnAddress(L, i + 1, nb); }
    if i + 2 < |bs| { At(L, i + 1); }
    Pushed(Remove(L.free, r.addr), nb);
    ReplaceLaw(L, i, 2, Cut(b.addr, s, hi), [nb] + Remove(L.free, r.addr), avail, Peak(L.pool, avail, L.peak));
  }

  lemma Pushed(free: seq<int>, x: int)
    requires Distinct(free) && x !in free
    ensures Distinct([x] + free) && forall y :: y in [x] + free <==> y == x || y in free
  {
  }

  lemma CutOffLaw(L: Layout, i: nat, s: int)
    requires Inv(L) && i < |L.blocks| && L.blocks[i].used && !RightFree(L, i)
    requires MINIALLOC <= s && s % 4 == 0 && s + ITEM < L.blocks[i].size
    ensures Inv(CutOff(L, i, s))
    ensures Live(CutOff(L, i, s).blocks) == Live(L.blocks) - {L.blocks[i]} + {Blk(L.blocks[i].addr, s, true)}
  {
    hide Inv, Tiles, Span, FreeBytes, Coalesced, Live, FreeAddrs, IndexOf;
    Around(L, i);
    var bs, b := L.blocks, L.blocks[i];
    var hi, nb := b.addr + ITEM + b.size, b.addr + ITEM + s;
    assert bs[i..i + 1] == [b];
    OneIs(b, ITEM);
    CutIs(b.addr, s, hi);
    NotAnAddress(L, i, nb);
    ReplaceLaw(L, i, 1, Cut(b.addr, s, hi), [nb] + L.free, L.avail + (b.size - s - ITEM), L.peak);
  }

  // ----- allocation

  // A request either changes nothing or makes one new block of sufficient size live.
  lemma AllocLaw(L: Layout, s: int)
    requires Inv(L) && FreeListed(L) && s >= MINIALLOC && s % 4 == 0
    ensures Inv(Alloc(L, s).0)
    ensures Alloc(L, s).1.None? ==> Alloc(L, s).0 == L
    ensures Alloc(L, s).1.Some? ==>
              exists n {:trigger Blk(Alloc(L, s).1.value, n, true)} ::
                s <= n < s + ITEM + MINIALLOC && Blk(Alloc(L, s).1.value, n, true) !in Live(L.blocks)
                && Live(Alloc(L, s).0.blocks) == Live(L.blocks) + {Blk(Alloc(L, s).1.value, n, true)}
  {
    var (L', r) := Alloc(L, s);
    if r.Some? {
      var i := Find(L.blocks, r.value);
      var b := L.blocks[i];
      CarveLaw(L, i, s);
      Around(L, i);
      assert Blk(b.addr, b.size, true) !in Live(L.blocks) by { NotLive(L, i, b.size); }
      NotLive(L, i, s);
    }
  }

  lemma NotLive(L: Layout, i: nat, n: int)
    requires Inv(L) && i < |L.blocks| && !L.blocks[i].used
    ensures Blk(L.blocks[i].addr, n, true) !in Live(L.blocks)
  {
    hide FreeBytes, Coalesced, FreeAddrs;
    TilesOrder(L.blocks, ITEM, 0, L.pool - ITEM);
  }

  // Allocation is first-fit over the free list, except for one case: when a request needs exactly
  // all the free bytes there are, it is refused although a block of that size is free.
  lemma AllocRefuses(L: Layout, s: int)
    requires Inv(L) && FreeListed(L)
    ensures Alloc(L, s).1.None? && (exists x :: x in L.free && Payload(L.blocks, x) >= s)
       <==> s == L.avail && (exists x :: x in L.free && Payload(L.blocks, x) >= s)
  {
    forall x | x in L.free
      ensures Payload(L.blocks, x) <= L.avail
    {
      FreeAddrIs(L, Find(L.blocks, x));
      FreeBytesBounds(L.blocks, ITEM, 0, L.pool - ITEM);
    }
  }

  // Some free block could serve a request of s bytes.
  ghost predicate Serves(L: Layout, s: int)
    requires FreeListed(L)
  {
    exists x :: x in L.free && Payload(L.blocks, x) >= s
  }

  // What a block of that size is cut down to when it serves a request of s bytes.
  function CutTo(size: int, s: int): int {
    if size >= s + ITEM + MINIALLOC then s else size
  }

  // Exactly which requests fail, which free block serves one, and what is left of that block: the first on
  // the free list that is large enough, cut down to the request if a header and a least payload fit behind it.
  lemma AllocExact(L: Layout, s: int)
    requires Inv(L) && FreeListed(L) && s >= MINIALLOC && s % 4 == 0
    ensures var (L', r) := Alloc(L, s);
            && (r.None? <==> s >= L.avail || !Serves(L, s)) && (r.None? ==> L' == L)
            && (r.Some? ==>
                  && Inv(L') && Live(L'.blocks) == Live(L.blocks) + {Blk(r.value, CutTo(Payload(L.blocks, r.value), s),
                     true)}
                  && Payload(L.blocks, r.value) >= s
                  && exists k :: 0 <= k < |L.free| && L.free[k] == r.value
                       && forall j :: 0 <= j < k ==> Payload(L.blocks, L.free[j]) < s)
  {
    hide Inv, Carve, Live, Payload;
    FirstOnList(L.blocks, L.free, s);
    if Alloc(L, s).1.Some? {
      var i := Find(L.blocks, Alloc(L, s).1.value);
      PayloadIs(L.blocks, Alloc(L, s).1.value);
      CarveLaw(L, i, s);
    }
  }

  lemma PayloadIs(blocks: seq<Blk>, x: int)
    requires x in Addrs(blocks)
    ensures Payload(blocks, x) == blocks[Find(blocks, x)].size
  {
  }

  lemma {:induction false} FirstOnList(blocks: seq<Blk>, free: seq<int>, s: int)
    requires forall x :: x in free ==> x in Addrs(blocks)
    ensures var r := FirstFit(blocks, free, s);
            r.Some? ==> exists k :: 0 <= k < |free| && free[k] == r.value
                          && forall j :: 0 <= j < k ==> Payload(blocks, free[j]) < s
  {
    hide Payload;
    if free != [] && Payload(blocks, free[0]) < s {
      FirstOnList(blocks, free[1..], s);
      var r := FirstFit(blocks, free[1..], s);
      if r.Some? {
        var k :| 0 <= k < |free[1..]| && free[1..][k] == r.value
                 && forall j :: 0 <= j < k ==> Payload(blocks, free[1..][j]) < s;
        assert free[k + 1] == r.value;
        assert forall j :: 0 < j < k + 1 ==> free[j] == free[1..][j - 1];
      }
    }
  }

  // What has just been freed serves the next request that fits, unless it has joined a free block on its
  // left, which keeps its place on the list.
  lemma LastFreedFirst(L: Layout, i: nat, s: int)
    requires Inv(L) && i < |L.blocks| && L.blocks[i].used && MINIALLOC <= s && s % 4 == 0
    ensures var L' := Free(L, i);
            && Inv(L') && FreeListed(L') && L'.free != []
            && (!LeftFree(L, i) ==>
                  && L'.free[0] == L.blocks[i].addr
                  && Payload(L'.blocks, L'.free[0])
                     == L.blocks[i].size + (if RightFree(L, i) then ITEM + L.blocks[i + 1].size else 0)
                  && (s <= Payload(L'.blocks, L'.free[0]) && s < L'.avail ==> Alloc(L', s).1 == Some(L.blocks[i].addr)))
            && (LeftFree(L, i) && !RightFree(L, i) ==> L'.free == L.free)
  {
    hide Inv, Tiles, FreeBytes, Coalesced, Live, FreeAddrs, Replace, Remove;
    FreeLaw(L, i);
    FreeAddrIs(L, i);
    AllListed(Free(L, i));
    if LeftFree(L, i) {
      Around(L, i);
    } else {
      FreedBlock(L, i);
    }
  }

  lemma AllListed(L: Layout)
    requires Inv(L)
    ensures FreeListed(L)
  {
    assert L.blocks != [];
    FreeAddrIs(L, 0);
  }

  lemma FreedBlock(L: Layout, i: nat)
    requires Inv(L) && i < |L.blocks| && L.blocks[i].used && !LeftFree(L, i)
    requires Inv(Free(L, i)) && FreeListed(Free(L, i))
    ensures var L' := Free(L, i);
            && L'.free != [] && L'.free[0] == L.blocks[i].addr && L'.free[0] in Addrs(L'.blocks)
            && Payload(L'.blocks, L'.free[0])
               == L.blocks[i].size + (if RightFree(L, i) then ITEM + L.blocks[i + 1].size else 0)
  {
    hide FreeBytes, Coalesced, Live, FreeAddrs, Remove;
    FreeAddrIs(L, i);
    var L', b := Free(L, i), L.blocks[i];
    assert i < |L'.blocks| && L'.blocks[i].addr == b.addr;
    FindIs(L', i);
  }

  lemma FindIs(L: Layout, i: nat)
    requires Inv(L) && i < |L.blocks|
    ensures L.blocks[i].addr in Addrs(L.blocks) && Find(L.blocks, L.blocks[i].addr) == i
  {
    hide FreeBytes, Coalesced, Live, FreeAddrs;
    TilesOrder(L.blocks, ITEM, 0, L.pool - ITEM);
    assert Addrs(L.blocks)[i] == L.blocks[i].addr;
  }

  // Freeing what was just allocated restores the blocks and the byte count.
  lemma FreeUndoesAlloc(L: Layout, s: int)
    requires Inv(L) && FreeListed(L) && s >= MINIALLOC && s % 4 == 0 && Alloc(L, s).1.Some?
    ensures var i := Find(L.blocks, Alloc(L, s).1.value);
            var L1 := Alloc(L, s).0;
            && i < |L1.blocks| && Inv(L1) && L1.blocks[i].used && L1.blocks[i].addr == Alloc(L, s).1.value
            && Free(L1, i).blocks == L.blocks && Free(L1, i).avail == L.avail
  {
    hide Inv, Carve, Free;
    var i := Find(L.blocks, Alloc(L, s).1.value);
    FreeUndoesCarve(L, i, s);
  }

  lemma FreeUndoesCarve(L: Layout, i: nat, s: int)
    requires Inv(L) && i < |L.blocks| && L.blocks[i].addr in L.free
    requires MINIALLOC <= s <= L.blocks[i].size && s % 4 == 0
    ensures var L1 := Carve(L, i, s);
            && i < |L1.blocks| && Inv(L1) && L1.blocks[i].used && L1.blocks[i].addr == L.blocks[i].addr
            && Free(L1, i).blocks == L.blocks && Free(L1, i).avail == L.avail
  {
    hide Inv, Tiles, Span, FreeBytes, Coalesced, Live, FreeAddrs, IndexOf;
    CarveLaw(L, i, s);
    Around(L, i);
    var L1, bs, b := Carve(L, i, s), L.blocks, L.blocks[i];
    assert forall j :: 0 <= j < i ==> L1.blocks[j] == bs[j];
    if b.size >= s + ITEM + MINIALLOC {
      var cut := Cut(b.addr, s, b.addr + ITEM + b.size);
      assert L1.blocks[i] == cut[0] && L1.blocks[i + 1] == cut[1];
      assert Free(L1, i).blocks == L1.blocks[..i] + [b] + L1.blocks[i + 2..];
    } else {
      assert L1.blocks[i] == b.(used := true);
      assert i + 1 < |bs| ==> L1.blocks[i + 1] == bs[i + 1];
      assert Free(L1, i).blocks == L1.blocks[..i] + [b] + L1.blocks[i + 1..];
    }
  }

  // ----- reallocation

  // Whether the free right neighbour is large enough to grow into, in the 32-bit arithmetic of
  // rt_memheap_realloc.
  predicate GrowGuard(next: int, own: int, s: int) {
    (next + own) % WORD > (s + MINIALLOC) % WORD
  }

  // The size of the grown block, as the address past it tells in 32-bit arithmetic.
  function Grown(s: int): int {
    if s + MINIALLOC < WORD then s else s - WORD
  }

  // rt_memheap_realloc of the block with header x, as a change of the layout: in place when the
  // block can grow into its neighbour or shrinks, otherwise by allocating anew and freeing.
  ghost function Realloc(L: Layout, x: int, newsize: int): (r: (Layout, Option<int>))
    requires Inv(L) && FreeListed(L) && x in Addrs(L.blocks) && L.blocks[Find(L.blocks, x)].used
  {
    var i := Find(L.blocks, x);
    var b, s := L.blocks[i], Request(newsize);
    if newsize == 0 then (Free(L, i), None)
    else if s > b.size then
      if RightFree(L, i) && GrowGuard(L.blocks[i + 1].size, b.size, s) then (Shift(L, i, Grown(s)), Some(x))
      else if Alloc(L, s).1.None? then (L, None)
      else
        AllocLaw(L, s);
        StillThere(L, Alloc(L, s).0, i);
        (Free(Alloc(L, s).0, Find(Alloc(L, s).0.blocks, x)), Alloc(L, s).1)
    else if s + ITEM + MINIALLOC >= b.size then (L, Some(x))
    else if RightFree(L, i) then (Shift(L, i, s), Some(x))
    else (CutOff(L, i, s), Some(x))
  }

  // The sum of the asked size and the least payload wraps, and the right neighbour is free.
  predicate Overgrows(L: Layout, i: nat, newsize: int)
    requires i < |L.blocks|
  {
    RightFree(L, i) && Request(newsize) + MINIALLOC >= WORD
  }

  // Reallocation keeps the heap sound exactly if it does not overgrow: otherwise the neighbour always
  // looks large enough, and its header is moved into the one of the block itself.
  lemma ReallocSound(L: Layout, x: int, newsize: int)
    requires Inv(L) && FreeListed(L) && x in Addrs(L.blocks) && L.blocks[Find(L.blocks, x)].used
    requires 0 <= newsize < WORD
    ensures Inv(Realloc(L, x, newsize).0) <==> !Overgrows(L, Find(L.blocks, x), newsize)
  {
    hide Inv, FreeListed, Free, Shift, CutOff, Alloc, Request, GrowGuard, Live;
    var i := Find(L.blocks, x);
    if Overgrows(L, i, newsize) {
      At(L, i);
      At(L, i + 1);
      OvergrowGuard(L, i, newsize);
      ShiftBelow(L, i, Grown(Request(newsize)));
    } else {
      ReallocLaw(L, x, newsize);
    }
  }

  lemma OvergrowGuard(L: Layout, i: nat, newsize: int)
    requires Inv(L) && i < |L.blocks| && L.blocks[i].used && 0 <= newsize < WORD && Overgrows(L, i, newsize)
    ensures var s := Request(newsize);
            newsize != 0 && s > L.blocks[i].size && GrowGuard(L.blocks[i + 1].size, L.blocks[i].size, s) && Grown(s) < 0
  {
    Around(L, i);
    IsLive(L, i);
    hide Inv, Live;
    RequestTop(newsize);
    assert L.blocks[i].size >= MINIALLOC;
  }

  lemma RequestTop(newsize: int)
    requires 0 <= newsize < WORD && Request(newsize) + MINIALLOC >= WORD
    ensures newsize != 0 && WORD - MINIALLOC <= Request(newsize) < WORD
  {
  }

  lemma ShiftBelow(L: Layout, i: nat, s: int)
    requires Inv(L) && i < |L.blocks| && RightFree(L, i) && s < 0
    ensures !Inv(Shift(L, i, s))
  {
    var L' := Shift(L, i, s);
    assert L'.blocks[i].size == s;
    if Inv(L') { At(L', i); }
  }

  // A block that stays live keeps its address.
  lemma StillThere(L: Layout, L': Layout, i: nat)
    requires Inv(L') && i < |L.blocks| && L.blocks[i] in Live(L'.blocks)
    ensures var x := L.blocks[i].addr;
            x in Addrs(L'.blocks) && L'.blocks[Find(L'.blocks, x)] == L.blocks[i]
  {
    hide FreeBytes, Coalesced, FreeAddrs;
    TilesOrder(L'.blocks, ITEM, 0, L'.pool - ITEM);
    var k :| 0 <= k < |L'.blocks| && L'.blocks[k] == L.blocks[i];
    assert Addrs(L'.blocks)[k] == L.blocks[i].addr;
  }

  // Reallocation replaces exactly the caller's block: by nothing, by a block large enough, or, when
  // memory is short, not at all.
  lemma ReallocLaw(L: Layout, x: int, newsize: int)
    requires Inv(L) && FreeListed(L) && x in Addrs(L.blocks) && L.blocks[Find(L.blocks, x)].used
    requires 0 <= newsize < WORD && !Overgrows(L, Find(L.blocks, x), newsize)
    ensures var (L', r), b := Realloc(L, x, newsize), L.blocks[Find(L.blocks, x)];
            && Inv(L')
            && (newsize == 0 ==> r.None? && Live(L'.blocks) == Live(L.blocks) - {b})
            && (newsize != 0 && r.None? ==> L' == L)
            && (r.Some? ==> exists n {:trigger Blk(r.value, n, true)} ::
                  && Request(newsize) <= n <= Request(newsize) + ITEM + MINIALLOC
                  && Live(L'.blocks) == Live(L.blocks) - {b} + {Blk(r.value, n, true)})
  {
    hide Inv, FreeListed, Free, Shift, CutOff, Alloc, Request, GrowGuard, Live;
    var i := Find(L.blocks, x);
    var b, s := L.blocks[i], Request(newsize);
    At(L, i);
    IsLive(L, i);
    RequestCovers(newsize);
    if newsize == 0 {
      FreeLaw(L, i);
    } else if s > b.size {
      if RightFree(L, i) && GrowGuard(L.blocks[i + 1].size, b.size, s) {
        GrowFits(L, i, s);
        ShiftLaw(L, i, s);
        assert Blk(x, s, true).addr == x;
      } else {
        AllocLaw(L, s);
        if Alloc(L, s).1.Some? { ReallocMoves(L, x, s); }
      }
    } else if s + ITEM + MINIALLOC >= b.size {
      assert Live(L.blocks) == Live(L.blocks) - {b} + {Blk(x, b.size, true)};
    } else if RightFree(L, i) {
      At(L, i + 1);
      ShiftLaw(L, i, s);
      assert Blk(x, s, true).addr == x;
    } else {
      CutOffLaw(L, i, s);
      assert Blk(x, s, true).addr == x;
    }
  }

  // Exactly when a reallocation fails, and what it does otherwise: a block that need not grow stays where it
  // is, and is cut down if a header and a least payload can be given back; one that must grow does so in place
  // if its right neighbour is free and large enough, and else moves into the free block an allocation finds.
  lemma ReallocExact(L: Layout, x: int, newsize: int)
    requires Inv(L) && FreeListed(L) && x in Addrs(L.blocks) && L.blocks[Find(L.blocks, x)].used
    requires 0 < newsize < WORD && !Overgrows(L, Find(L.blocks, x), newsize)
    ensures var (L', r), i, s := Realloc(L, x, newsize), Find(L.blocks, x), Request(newsize);
            var b := L.blocks[i];
            var grows := RightFree(L, i) && b.size + L.blocks[i + 1].size > s + MINIALLOC;
            && Inv(L')
            && (r.None? <==> s > b.size && !grows && (s >= L.avail || !Serves(L, s)))
            && (s <= b.size || grows ==> r == Some(x))
            && (if r.None? || (s <= b.size && s + ITEM + MINIALLOC >= b.size) then L' == L
                else if s <= b.size || grows then Live(L'.blocks) == Live(L.blocks) - {b} + {Blk(x, s, true)}
                else
                  && r.value in L.free && Payload(L.blocks, r.value) >= s
                  && Live(L'.blocks)
                     == Live(L.blocks) - {b} + {Blk(r.value, CutTo(Payload(L.blocks, r.value), s), true)})
  {
    hide Inv, FreeListed, Free, Shift, CutOff, Alloc, Request, GrowGuard, Live, Serves, Payload, CutTo;
    var i := Find(L.blocks, x);
    var b, s := L.blocks[i], Request(newsize);
    At(L, i);
    IsLive(L, i);
    RequestCovers(newsize);
    if s > b.size {
      AllocExact(L, s);
      if RightFree(L, i) { GrowsIf(L, i, s); }
      if RightFree(L, i) && GrowGuard(L.blocks[i + 1].size, b.size, s) {
        ShiftLaw(L, i, s);
      } else if Alloc(L, s).1.Some? {
        MovesInto(L, x, s);
      }
    } else if s + ITEM + MINIALLOC < b.size {
      if RightFree(L, i) {
        At(L, i + 1);
        ShiftLaw(L, i, s);
      } else {
        CutOffLaw(L, i, s);
      }
    }
  }

  // Below the top of the address range the guard tells what it is meant to tell.
  lemma GrowsIf(L: Layout, i: nat, s: int)
    requires Inv(L) && i < |L.blocks| && RightFree(L, i) && 0 <= s && s + MINIALLOC < WORD
    ensures GrowGuard(L.blocks[i + 1].size, L.blocks[i].size, s)
       <==> L.blocks[i].size + L.blocks[i + 1].size > s + MINIALLOC
  {
    Around(L, i);
    assert L.pool < WORD;
  }

  lemma MovesInto(L: Layout, x: int, s: int)
    requires Inv(L) && FreeListed(L) && x in Addrs(L.blocks) && L.blocks[Find(L.blocks, x)].used
    requires s >= MINIALLOC && s % 4 == 0 && Alloc(L, s).1.Some?
    ensures var (L1, y), b := Alloc(L, s), L.blocks[Find(L.blocks, x)];
            && Inv(L1) && x in Addrs(L1.blocks) && y.value in L.free
            && var L2 := Free(L1, Find(L1.blocks, x));
               Inv(L2) && Live(L2.blocks) == Live(L.blocks) - {b} + {Blk(y.value, CutTo(Payload(L.blocks, y.value), s),
                   true)}
  {
    hide Inv, Free, Alloc, Live, Payload, CutTo, Serves;
    var i := Find(L.blocks, x);
    var b := L.blocks[i];
    IsLive(L, i);
    AllocExact(L, s);
    var L1, y := Alloc(L, s).0, Alloc(L, s).1.value;
    StillThere(L, L1, i);
    FreeLaw(L1, Find(L1.blocks, x));
    var moved := Blk(y, CutTo(Payload(L.blocks, y), s), true);
    assert b != moved by { NewIsNot(L, i, y, moved.size); }
    assert Live(L1.blocks) - {b} == Live(L.blocks) - {b} + {moved};
  }

  lemma NewIsNot(L: Layout, i: nat, y: int, n: int)
    requires Inv(L) && i < |L.blocks| && L.blocks[i].used && y in L.free
    ensures L.blocks[i] != Blk(y, n, true)
  {
    FreeAddrIs(L, i);
  }

  lemma IsLive(L: Layout, i: nat)
    requires i < |L.blocks| && L.blocks[i].used
    ensures L.blocks[i] in Live(L.blocks)
  {
  }

  // The new block is live in place of the old one.
  lemma ReallocMoves(L: Layout, x: int, s: int)
    requires Inv(L) && FreeListed(L) && x in Addrs(L.blocks) && L.blocks[Find(L.blocks, x)].used
    requires s >= MINIALLOC && s % 4 == 0 && Alloc(L, s).1.Some?
    ensures var (L1, y), b := Alloc(L, s), L.blocks[Find(L.blocks, x)];
            && Inv(L1) && x in Addrs(L1.blocks)
            && var L2 := Free(L1, Find(L1.blocks, x));
            && Inv(L2)
            && exists n {:trigger Blk(y.value, n, true)} ::
                 s <= n < s + ITEM + MINIALLOC && Live(L2.blocks) == Live(L.blocks) - {b} + {Blk(y.value, n, true)}
  {
    hide Inv, FreeListed, Free, Alloc, Live;
    var i := Find(L.blocks, x);
    var b := L.blocks[i];
    IsLive(L, i);
    AllocLaw(L, s);
    var L1, y := Alloc(L, s).0, Alloc(L, s).1.value;
    var n :| s <= n < s + ITEM + MINIALLOC && Blk(y, n, true) !in Live(L.blocks)
             && Live(L1.blocks) == Live(L.blocks) + {Blk(y, n, true)};
    StillThere(L, L1, i);
    FreeLaw(L1, Find(L1.blocks, x));
    assert Live(L1.blocks) - {b} == Live(L.blocks) - {b} + {Blk(y, n, true)};
  }

  lemma GrowFits(L: Layout, i: nat, s: int)
    requires Inv(L) && i < |L.blocks| && RightFree(L, i) && s + MINIALLOC < WORD
    requires s > L.blocks[i].size && GrowGuard(L.blocks[i + 1].size, L.blocks[i].size, s)
    ensures L.blocks[i].size + L.blocks[i + 1].size > s + MINIALLOC
  {
    Around(L, i);
    assert L.pool < WORD;
  }
}
