// A heap as a row of blocks: `h` header bytes, then `size` payload bytes, then the next block.
// Both in-place heaps of the kernel (memheap.c, mem.c) are such rows; an operation replaces a few
// neighbouring blocks by others over the same stretch of memory.
module Blocks {
  import opened Rings

  datatype Blk = Blk(addr: int, size: int, used: bool)

  // The blocks fill the addresses lo to hi without gap or overlap, word-aligned.
  ghost predicate Tiles(bs: seq<Blk>, h: int, lo: int, hi: int)
  {
    if bs == [] then lo == hi
    else bs[0].addr == lo && bs[0].size >= 0 && bs[0].size % 4 == 0 && Tiles(bs[1..], h, lo + h + bs[0].size, hi)
  }

  function Span(bs: seq<Blk>, h: int): int {
    if bs == [] then 0 else h + bs[0].size + Span(bs[1..], h)
  }

  function FreeBytes(bs: seq<Blk>): int {
    if bs == [] then 0 else (if bs[0].used then 0 else bs[0].size) + FreeBytes(bs[1..])
  }

  // Bytes held by used blocks, headers included.
  function UsedSpan(bs: seq<Blk>, h: int): int {
    if bs == [] then 0 else (if bs[0].used then h + bs[0].size else 0) + UsedSpan(bs[1..], h)
  }

  ghost predicate FreePair(bs: seq<Blk>, i: nat)
    requires i + 1 < |bs|
  {
    !bs[i].used && !bs[i + 1].used
  }

  // No two neighbouring blocks are both free.
  ghost predicate Coalesced(bs: seq<Blk>) {
    forall i :: 0 <= i < |bs| - 1 ==> !FreePair(bs, i)
  }

  function Addrs(bs: seq<Blk>): (r: seq<int>)
    ensures |r| == |bs|
    ensures forall i :: 0 <= i < |bs| ==> r[i] == bs[i].addr
  {
    seq(|bs|, i requires 0 <= i < |bs| => bs[i].addr)
  }

  // The blocks in callers' hands, and the addresses of the others.
  ghost function Live(bs: seq<Blk>): set<Blk> { set b | b in bs && b.used }
  ghost function FreeAddrs(bs: seq<Blk>): set<int> { set b | b in bs && !b.used :: b.addr }

  // Position of the block at address x.
  function Find(bs: seq<Blk>, x: int): (i: nat)
    requires x in Addrs(bs)
    ensures i < |bs| && bs[i].addr == x
  {
    if bs[0].addr == x then 0
    else
      assert x in Addrs(bs[1..]) by {
        var k :| 0 <= k < |bs| && Addrs(bs)[k] == x;
        assert Addrs(bs[1..])[k - 1] == x;
      }
      1 + Find(bs[1..], x)
  }

  // ----- rows of blocks, piece by piece

  lemma {:induction false} TilesConcat(a: seq<Blk>, b: seq<Blk>, h: int, lo: int, hi: int)
    ensures Tiles(a + b, h, lo, hi) <==> Tiles(a, h, lo, lo + Span(a, h)) && Tiles(b, h, lo + Span(a, h), hi)
  {
    if a == [] {
      assert a + b == b;
    } else {
      assert (a + b)[1..] == a[1..] + b;
      TilesConcat(a[1..], b, h, lo + h + a[0].size, hi);
    }
  }

  lemma {:induction false} SumsConcat(a: seq<Blk>, b: seq<Blk>, h: int)
    ensures Span(a + b, h) == Span(a, h) + Span(b, h)
    ensures FreeBytes(a + b) == FreeBytes(a) + FreeBytes(b)
    ensures UsedSpan(a + b, h) == UsedSpan(a, h) + UsedSpan(b, h)
  {
    if a == [] {
      assert a + b == b;
    } else {
      assert (a + b)[1..] == a[1..] + b;
      SumsConcat(a[1..], b, h);
    }
  }

  // Every block lies between lo and hi, in address order.
  lemma {:induction false} TilesOrder(bs: seq<Blk>, h: int, lo: int, hi: int)
    requires Tiles(bs, h, lo, hi) && h > 0
    ensures lo <= hi && Span(bs, h) == hi - lo
    ensures forall i :: 0 <= i < |bs| ==> lo <= bs[i].addr && bs[i].size >= 0 && bs[i].addr + h + bs[i].size <= hi
    ensures forall i, j :: 0 <= i < j < |bs| ==> bs[i].addr + h + bs[i].size <= bs[j].addr
    ensures bs != [] ==> bs[0].addr == lo
    ensures forall i :: 0 <= i < |bs| - 1 ==> bs[i].addr + h + bs[i].size == bs[i + 1].addr
    ensures bs != [] ==> bs[|bs| - 1].addr + h + bs[|bs| - 1].size == hi
  {
    if bs != [] {
      var t := bs[1..];
      TilesOrder(t, h, lo + h + bs[0].size, hi);
      forall i | 0 < i < |bs|
        ensures bs[i] == t[i - 1]
      {
      }
    }
  }

  lemma {:induction false} TilesAligned(bs: seq<Blk>, h: int, lo: int, hi: int)
    requires Tiles(bs, h, lo, hi) && h % 4 == 0 && lo % 4 == 0
    ensures forall b :: b in bs ==> b.addr % 4 == 0 && b.size % 4 == 0
  {
    if bs != [] { TilesAligned(bs[1..], h, lo + h + bs[0].size, hi); }
  }

  lemma {:induction false} FreeBytesBounds(bs: seq<Blk>, h: int, lo: int, hi: int)
    requires Tiles(bs, h, lo, hi) && h > 0
    ensures 0 <= FreeBytes(bs)
    ensures FreeBytes(bs) + UsedSpan(bs, h) <= hi - lo && 0 <= UsedSpan(bs, h)
    ensures forall b :: b in bs && !b.used ==> b.size <= FreeBytes(bs)
    ensures bs != [] ==> FreeBytes(bs) <= hi - lo - h
  {
    if bs != [] { FreeBytesBounds(bs[1..], h, lo + h + bs[0].size, hi); }
  }

  // ----- replacing some blocks by others over the same stretch

  lemma TilesStart(bs: seq<Blk>, h: int, lo: int, hi: int)
    requires Tiles(bs, h, lo, hi) && bs != []
    ensures bs[0].addr == lo
  {
  }

  lemma SpliceTiles(a: seq<Blk>, mid: seq<Blk>, mid': seq<Blk>, c: seq<Blk>, h: int, lo: int, hi: int)
    requires Tiles(a + mid + c, h, lo, hi) && mid != []
    requires Tiles(mid', h, mid[0].addr, mid[0].addr + Span(mid, h))
    ensures Tiles(a + mid' + c, h, lo, hi)
  {
    hide *;
    TilesConcat(a + mid, c, h, lo, hi);
    TilesConcat(a, mid, h, lo, lo + Span(a + mid, h));
    SumsConcat(a, mid, h);
    TilesStart(mid, h, lo + Span(a, h), lo + Span(a + mid, h));
    TilesSpan(mid', h, mid[0].addr, mid[0].addr + Span(mid, h));
    SumsConcat(a, mid', h);
    TilesConcat(a, mid', h, lo, lo + Span(a + mid', h));
    TilesConcat(a + mid', c, h, lo, hi);
  }

  lemma SpliceSums(a: seq<Blk>, mid: seq<Blk>, mid': seq<Blk>, c: seq<Blk>, h: int)
    ensures FreeBytes(a + mid' + c) == FreeBytes(a + mid + c) - FreeBytes(mid) + FreeBytes(mid')
    ensures UsedSpan(a + mid' + c, h) == UsedSpan(a + mid + c, h) - UsedSpan(mid, h) + UsedSpan(mid', h)
  {
    hide *;
    SumsConcat(a, mid, h);
    SumsConcat(a + mid, c, h);
    SumsConcat(a, mid', h);
    SumsConcat(a + mid', c, h);
  }

  lemma {:induction false} TilesSpan(bs: seq<Blk>, h: int, lo: int, hi: int)
    requires Tiles(bs, h, lo, hi)
    ensures Span(bs, h) == hi - lo
  {
    if bs != [] { TilesSpan(bs[1..], h, lo + h + bs[0].size, hi); }
  }

  lemma SpliceCoalesced(a: seq<Blk>, mid: seq<Blk>, mid': seq<Blk>, c: seq<Blk>)
    requires Coalesced(a + mid + c) && Coalesced(mid') && mid != [] && mid' != []
    requires a == [] || a[|a| - 1].used || mid'[0].used
    requires c == [] || c[0].used || mid'[|mid'| - 1].used
    ensures Coalesced(a + mid' + c)
  {
    var bs, bs' := a + mid + c, a + mid' + c;
    var n, m := |a|, |mid'|;
    forall i | 0 <= i < |bs'| - 1
      ensures !FreePair(bs', i)
    {
      if i + 1 < n {
        assert !FreePair(bs, i);
      } else if i >= n + m {
        var k := i - m + |mid|;
        assert bs'[i] == bs[k] && bs'[i + 1] == bs[k + 1];
        assert !FreePair(bs, k);
      } else if n <= i && i + 1 < n + m {
        assert bs'[i] == mid'[i - n] && bs'[i + 1] == mid'[i - n + 1];
        assert !FreePair(mid', i - n);
      }
    }
  }

  lemma SpliceSets(a: seq<Blk>, mid: seq<Blk>, mid': seq<Blk>, c: seq<Blk>, h: int, lo: int, hi: int)
    requires Tiles(a + mid + c, h, lo, hi) && h > 0
    ensures Live(a + mid' + c) == Live(a + mid + c) - Live(mid) + Live(mid')
    ensures FreeAddrs(a + mid' + c) == FreeAddrs(a + mid + c) - FreeAddrs(mid) + FreeAddrs(mid')
  {
    var bs := a + mid + c;
    TilesOrder(bs, h, lo, hi);
    forall x, y | x in a + c && y in mid
      ensures x.addr != y.addr
    {
      var i :| 0 <= i < |a + c| && (a + c)[i] == x;
      var j :| 0 <= j < |mid| && mid[j] == y;
      var i' := if i < |a| then i else i + |mid|;
      assert bs[i'] == x && bs[|a| + j] == y;
      assert i' != |a| + j;
    }
    assert forall x :: x in a + mid' + c <==> x in a + c || x in mid';
    assert forall x :: x in bs <==> x in a + c || x in mid;
    SetsSplit(a, mid, c);
    SetsSplit(a, mid', c);
  }

  lemma SetsSplit(a: seq<Blk>, m: seq<Blk>, c: seq<Blk>)
    ensures Live(a + m + c) == Live(a + c) + Live(m)
    ensures FreeAddrs(a + m + c) == FreeAddrs(a + c) + FreeAddrs(m)
  {
    assert forall x :: x in a + m + c <==> x in a + c || x in m;
  }

  // ----- one replacement, seen from the whole row

  function Replace(bs: seq<Blk>, i: nat, k: nat, mid: seq<Blk>): seq<Blk>
    requires i + k <= |bs|
  {
    bs[..i] + mid + bs[i + k..]
  }

  lemma Parts(bs: seq<Blk>, i: nat, k: nat)
    requires i + k <= |bs|
    ensures bs == bs[..i] + bs[i..i + k] + bs[i + k..]
  {
  }

  lemma Ends(bs: seq<Blk>, i: nat, k: nat)
    requires i + k <= |bs|
    ensures bs[..i] != [] ==> bs[..i][|bs[..i]| - 1] == bs[i - 1]
    ensures bs[i + k..] != [] ==> bs[i + k..][0] == bs[i + k]
  {
  }

  lemma ReplaceIs(bs: seq<Blk>, i: nat, k: nat, mid: seq<Blk>)
    requires i + k <= |bs|
    ensures Replace(bs, i, k, mid) == bs[..i] + mid + bs[i + k..]
  {
  }

  lemma RowReplace(bs: seq<Blk>, i: nat, k: nat, mid': seq<Blk>, h: int, lo: int, hi: int)
    requires Tiles(bs, h, lo, hi) && Coalesced(bs) && h > 0 && i + k <= |bs| && k > 0 && mid' != [] && Coalesced(mid')
    requires var mid := bs[i..i + k]; Tiles(mid', h, mid[0].addr, mid[0].addr + Span(mid, h))
    requires i == 0 || bs[i - 1].used || mid'[0].used
    requires i + k == |bs| || bs[i + k].used || mid'[|mid'| - 1].used
    ensures var mid, bs' := bs[i..i + k], Replace(bs, i, k, mid');
            && Tiles(bs', h, lo, hi) && Coalesced(bs')
            && Live(bs') == Live(bs) - Live(mid) + Live(mid')
            && FreeAddrs(bs') == FreeAddrs(bs) - FreeAddrs(mid) + FreeAddrs(mid')
            && FreeBytes(bs') == FreeBytes(bs) - FreeBytes(mid) + FreeBytes(mid')
            && UsedSpan(bs', h) == UsedSpan(bs, h) - UsedSpan(mid, h) + UsedSpan(mid', h)
  {
    hide Tiles, Span, FreeBytes, UsedSpan, Coalesced, Live, FreeAddrs, Replace;
    var a, mid, c := bs[..i], bs[i..i + k], bs[i + k..];
    Parts(bs, i, k);
    ReplaceIs(bs, i, k, mid');
    assert mid != [] && |mid| == k;
    Ends(bs, i, k);
    SpliceTiles(a, mid, mid', c, h, lo, hi);
    SpliceSums(a, mid, mid', c, h);
    SpliceCoalesced(a, mid, mid', c);
    SpliceSets(a, mid, mid', c, h, lo, hi);
  }

  lemma OneIs(b: Blk, h: int)
    ensures b.size >= 0 && b.size % 4 == 0 ==> Tiles([b], h, b.addr, b.addr + h + b.size)
    ensures Coalesced([b])
    ensures Span([b], h) == h + b.size && FreeBytes([b]) == (if b.used then 0 else b.size)
    ensures UsedSpan([b], h) == (if b.used then h + b.size else 0)
    ensures Live([b]) == (if b.used then {b} else {}) && FreeAddrs([b]) == (if b.used then {} else {b.addr})
  {
    assert [b][1..] == [];
    assert b in [b];
  }

  lemma TwoIs(b: Blk, c: Blk, h: int)
    ensures Span([b, c], h) == h + b.size + h + c.size
    ensures FreeBytes([b, c]) == (if b.used then 0 else b.size) + (if c.used then 0 else c.size)
    ensures UsedSpan([b, c], h) == (if b.used then h + b.size else 0) + (if c.used then h + c.size else 0)
    ensures Live([b, c]) == (if b.used then {b} else {}) + (if c.used then {c} else {})
    ensures FreeAddrs([b, c]) == (if b.used then {} else {b.addr}) + (if c.used then {} else {c.addr})
  {
    hide Span, FreeBytes, UsedSpan, Live, FreeAddrs;
    PairIs([b], [c], h);
    assert [b] + [c] == [b, c];
    OneIs(b, h);
    OneIs(c, h);
  }

  lemma ThreeIs(b: Blk, c: Blk, d: Blk, h: int)
    ensures Span([b, c, d], h) == h + b.size + h + c.size + h + d.size
    ensures FreeBytes([b, c, d]) == (if b.used then 0 else b.size) + (if c.used then 0 else c.size)
            + (if d.used then 0 else d.size)
    ensures UsedSpan([b, c, d], h) == (if b.used then h + b.size else 0) + (if c.used then h + c.size else 0)
            + (if d.used then h + d.size else 0)
    ensures Live([b, c, d]) == (if b.used then {b} else {}) + (if c.used then {c} else {})
            + (if d.used then {d} else {})
    ensures FreeAddrs([b, c, d]) == (if b.used then {} else {b.addr}) + (if c.used then {} else {c.addr})
            + (if d.used then {} else {d.addr})
  {
    hide Span, FreeBytes, UsedSpan, Live, FreeAddrs;
    PairIs([b, c], [d], h);
    assert [b, c] + [d] == [b, c, d];
    TwoIs(b, c, h);
    OneIs(d, h);
  }

  lemma PairIs(a: seq<Blk>, c: seq<Blk>, h: int)
    ensures Span(a + c, h) == Span(a, h) + Span(c, h)
    ensures FreeBytes(a + c) == FreeBytes(a) + FreeBytes(c)
    ensures UsedSpan(a + c, h) == UsedSpan(a, h) + UsedSpan(c, h)
    ensures Live(a + c) == Live(a) + Live(c) && FreeAddrs(a + c) == FreeAddrs(a) + FreeAddrs(c)
  {
    SumsConcat(a, c, h);
  }

  // One, two or three neighbours as a stretch of the row.
  lemma Stretch(bs: seq<Blk>, i: nat)
    requires i < |bs|
    ensures bs[i..i + 1] == [bs[i]]
    ensures i + 1 < |bs| ==> bs[i..i + 2] == [bs[i], bs[i + 1]]
    ensures i + 2 < |bs| ==> bs[i..i + 3] == [bs[i], bs[i + 1], bs[i + 2]]
  {
  }
}
