// Whole runs of the small heap, as sequences of the changes its operations make.
module SmallHeapRuns {
  import opened Wrappers
  import opened Blocks
  import M = MemHeapLayout
  import opened SmallHeapLayout
  import opened SmallHeapLaws

  datatype Change =
    | Allocated(size: int)
    | Freed(b: Blk)
    | Cut(b: Blk, size: int)

  ghost predicate Legal(H: Heap, c: Change) {
    match c
    case Allocated(size) => 0 <= size < WORD
    case Freed(b) => b in Live(H.blocks)
    case Cut(b, n) => b in Live(H.blocks) && 0 <= n && n % 4 == 0 && n + HEAD + MIN < b.size
  }

  ghost function Apply(H: Heap, c: Change): (H': Heap)
    requires Inv(H) && Legal(H, c)
    ensures Inv(H') && H'.total == H.total
    ensures H'.peak == Most(H.peak, H'.used)
    ensures Lowest(H) && !c.Cut? ==> Lowest(H')
  {
    match c
    case Allocated(size) => MallocAnyLaw(H, size); MallocPeak(H, size); MallocAny(H, size).0
    case Freed(b) =>
      LiveIndex(H, b);
      FreeLaw(H, IndexAt(H.blocks, b.addr));
      FreePeak(H, IndexAt(H.blocks, b.addr));
      Free(H, IndexAt(H.blocks, b.addr))
    case Cut(b, n) =>
      LiveIndex(H, b);
      ShrinkLaw(H, IndexAt(H.blocks, b.addr), n);
      ShrinkIs(H, IndexAt(H.blocks, b.addr), n);
      Shrink(H, IndexAt(H.blocks, b.addr), n)
  }

  lemma MallocPeak(H: Heap, size: int)
    requires Inv(H)
    ensures MallocAny(H, size).0.peak == Most(H.peak, MallocAny(H, size).0.used)
  {
  }

  lemma FreePeak(H: Heap, i: nat)
    requires Inv(H) && i < |H.blocks|
    ensures Free(H, i).peak == H.peak && Free(H, i).used <= H.used
  {
    FreeIs(H, i);
    At(H, i);
  }

  ghost predicate LegalRun(H: Heap, cs: seq<Change>)
    requires Inv(H)
    decreases |cs|
  {
    cs == [] || (Legal(H, cs[0]) && LegalRun(Apply(H, cs[0]), cs[1..]))
  }

  ghost function Run(H: Heap, cs: seq<Change>): (H': Heap)
    requires Inv(H) && LegalRun(H, cs)
    decreases |cs|
  {
    if cs == [] then H else Run(Apply(H, cs[0]), cs[1..])
  }

  // The most bytes in use, headers included, over all states of a run.
  ghost function HighWater(H: Heap, cs: seq<Change>): int
    requires Inv(H) && LegalRun(H, cs)
    decreases |cs|
  {
    if cs == [] then H.used else Most(H.used, HighWater(Apply(H, cs[0]), cs[1..]))
  }

  // Every run from a sound heap keeps it sound, max_mem is exactly the high-water mark of the run, and
  // a run in which no block is cut by rt_realloc keeps lfree the lowest free block.
  lemma {:induction false} RunLaw(H: Heap, cs: seq<Change>)
    requires Inv(H) && LegalRun(H, cs)
    ensures Inv(Run(H, cs)) && Run(H, cs).used == UsedSpan(Run(H, cs).blocks, HEAD)
    ensures Run(H, cs).peak == Most(H.peak, HighWater(H, cs))
    ensures Lowest(H) && (forall c :: c in cs ==> !c.Cut?) ==> Lowest(Run(H, cs))
    decreases |cs|
  {
    hide Apply, Lowest, Legal;
    if cs != [] {
      Fewer(cs);
      RunLaw(Apply(H, cs[0]), cs[1..]);
    }
  }

  lemma Fewer(cs: seq<Change>)
    requires cs != []
    ensures (forall c :: c in cs ==> !c.Cut?) ==> !cs[0].Cut? && forall c :: c in cs[1..] ==> !c.Cut?
  {
    if forall c :: c in cs ==> !c.Cut? { assert cs[0] in cs; }
  }

  // In a run of rt_malloc and rt_free from rt_system_heap_init on, rt_malloc fails exactly if every
  // free block is too small, but for one that fits exactly at the very end of the heap.
  lemma FirstFitInRuns(bytes: int, cs: seq<Change>, size: int)
    requires 2 * HEAD + MIN <= bytes < WORD && bytes % 4 == 0 && LegalRun(Init(bytes), cs)
    requires forall c :: c in cs ==> !c.Cut?
    requires MIN <= size <= bytes - 2 * HEAD && size % 4 == 0
    ensures var H := Run(Init(bytes), cs);
            Malloc(H, size).1.None? <==>
              forall b :: b in H.blocks && !b.used && b.size >= size ==>
                  b.size == size && b.addr + HEAD + b.size == End(H)
  {
    hide Malloc, Inv, Lowest, LegalRun, Run;
    InitInv(bytes);
    RunLaw(Init(bytes), cs);
    RunTotal(Init(bytes), cs);
    FirstFitOfAll(Run(Init(bytes), cs), size);
  }

  lemma {:induction false} RunTotal(H: Heap, cs: seq<Change>)
    requires Inv(H) && LegalRun(H, cs)
    ensures Run(H, cs).total == H.total
    decreases |cs|
  {
    hide Inv, Apply, Legal;
    if cs != [] { RunTotal(Apply(H, cs[0]), cs[1..]); }
  }

  // rt_realloc of a live block is at most two of these changes.
  ghost function ReallocSteps(H: Heap, b: Blk, newsize: int): seq<Change> {
    var n := M.Align(newsize);
    if n > H.total then []
    else if n == 0 then [Freed(b)]
    else if b.size == n then []
    else if n + HEAD + MIN < b.size then [Cut(b, n)]
    else if MallocAny(H, n).1.None? then [] else [Allocated(n), Freed(b)]
  }

  lemma ReallocIsRun(H: Heap, b: Blk, newsize: int)
    requires Inv(H) && b in Live(H.blocks) && 0 <= newsize < WORD
    ensures LegalRun(H, ReallocSteps(H, b, newsize))
    ensures IndexAt(H.blocks, b.addr) < |H.blocks|
    ensures Realloc(H, Some(b.addr), newsize).0 == Run(H, ReallocSteps(H, b, newsize))
  {
    hide Inv, Live, Malloc, Free, Shrink, MallocAny, M.Align, Lowest;
    LiveIndex(H, b);
    var n := M.Align(newsize);
    AlignIs(newsize);
    Room(H);
    var cs := ReallocSteps(H, b, newsize);
    if |cs| == 1 {
      assert Legal(H, cs[0]);
      assert cs[1..] == [];
    } else if |cs| == 2 {
      MallocAnyLaw(H, n);
      var H1 := MallocAny(H, n).0;
      assert Legal(H, cs[0]) && Apply(H, cs[0]) == H1;
      StaysLive(H, H1, b, MallocAny(H, n).1.value, M.Request(n));
      LiveIndex(H1, b);
      assert cs[1..] == [Freed(b)] && cs[1..][1..] == [];
      assert Legal(H1, cs[1]);
      assert LegalRun(H1, cs[1..]);
      var H2 := Apply(H1, Freed(b));
      assert H2 == Free(H1, IndexAt(H1.blocks, b.addr));
      assert Run(H1, cs[1..]) == Run(H2, []) == H2;
      assert Run(H, cs) == Run(H1, cs[1..]);
    }
  }

  lemma StaysLive(H: Heap, H1: Heap, b: Blk, x: int, s: int)
    requires b in Live(H.blocks) && Gained(H, H1, x, s)
    ensures b in Live(H1.blocks)
  {
  }

  // At the sentinel, whose next is itself, the search loop of rt_malloc stops for every request that
  // passes the size check, exactly if the heap holds at least MIN bytes; on a smaller heap the bound
  // wraps around and the loop never ends.
  lemma SearchEnds(total: int)
    requires 0 <= total && total + 2 * HEAD < WORD && total % 4 == 0
    ensures (forall size {:trigger M.Align(size)} :: 0 < M.Align(size) <= total && size < WORD ==>
            total + HEAD >= Bound(total, M.Request(size)))
              <==> total >= MIN || total == 0
  {
    if 0 < total < MIN {
      assert M.Align(total) == total;
      assert Bound(total, M.Request(total)) == total - MIN + WORD;
    }
  }

  // rt_system_heap_init: the aligned stretch it uses of the memory from `begin` to `end`, by its first
  // address and its length, or none if that is too small.
  function HeapStretch(begin: int, end: int): (r: Option<(int, int)>)
    requires 0 <= begin < WORD && 0 <= end < WORD
  {
    var first, last := M.Align(begin), end / 4 * 4;
    if last > 2 * HEAD && last - 2 * HEAD >= first then Some((first, last - first)) else None
  }

  // The stretch used is aligned, has room for both headers, and lies within the memory given exactly if
  // rounding up does not wrap; a stretch with room for both headers is refused only at address zero, when
  // it has room for nothing else.
  lemma HeapStretchIs(begin: int, end: int)
    requires 0 <= begin < WORD && 0 <= end < WORD
    ensures var r := HeapStretch(begin, end);
            && (r.Some? ==>
                  && r.value.0 % 4 == 0 && r.value.1 % 4 == 0 && 2 * HEAD <= r.value.1
                  && r.value.0 + r.value.1 <= end < r.value.0 + r.value.1 + 4
                  && (begin <= r.value.0 < begin + 4 <==> begin <= WORD - 4))
            && (r == None && begin <= WORD - 4 ==>
                  forall a: int :: begin <= a && a % 4 == 0 && a + 2 * HEAD <= end ==> a == 0 && end < 2 * HEAD + 4)
  {
    if begin <= WORD - 4 {
      forall a: int | begin <= a && a % 4 == 0
        ensures M.Align(begin) <= a
      {
      }
    }
  }
}
