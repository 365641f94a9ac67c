// Whole runs of the boundary-tag heap, as sequences of the layout changes its operations make.
module MemHeapRuns {
  import opened Wrappers
  import opened Rings
  import opened Blocks
  import opened MemHeapLayout
  import opened MemHeapLaws

  datatype Change =
    | Allocated(size: int)
    | Freed(i: nat)
    | Shifted(i: nat, size: int)
    | Trimmed(i: nat, size: int)

  ghost predicate Legal(L: Layout, c: Change)
    requires Inv(L)
  {
    match c
    case Allocated(size) => 0 <= size < WORD
    case Freed(i) => i < |L.blocks| && L.blocks[i].used
    case Shifted(i, s) =>
      && i < |L.blocks| && L.blocks[i].used && RightFree(L, i)
      && MINIALLOC <= s && s % 4 == 0 && s <= L.blocks[i].size + L.blocks[i + 1].size
    case Trimmed(i, s) =>
      && i < |L.blocks| && L.blocks[i].used && !RightFree(L, i)
      && MINIALLOC <= s && s % 4 == 0 && s + ITEM < L.blocks[i].size
  }

  ghost function Apply(L: Layout, c: Change): (L': Layout)
    requires Inv(L) && Legal(L, c)
    ensures Inv(L') && L'.pool == L.pool
    ensures L'.peak == Peak(L.pool, L'.avail, L.peak)
  {
    Listed(L);
    match c
    case Allocated(size) => AllocLaw(L, Request(size)); Alloc(L, Request(size)).0
    case Freed(i) => FreeLaw(L, i); Gains(L, i); Free(L, i)
    case Shifted(i, s) => ShiftLaw(L, i, s); Shift(L, i, s)
    case Trimmed(i, s) => CutOffLaw(L, i, s); CutOff(L, i, s)
  }

  lemma Listed(L: Layout)
    requires Inv(L)
    ensures FreeListed(L)
  {
    FreeAddrIs(L, 0);
  }

  lemma Gains(L: Layout, i: nat)
    requires Inv(L) && i < |L.blocks|
    ensures Free(L, i).avail >= L.avail
  {
    At(L, i);
  }

  ghost predicate LegalRun(L: Layout, cs: seq<Change>)
    requires Inv(L)
    decreases |cs|
  {
    cs == [] || (Legal(L, cs[0]) && LegalRun(Apply(L, cs[0]), cs[1..]))
  }

  ghost function Run(L: Layout, cs: seq<Change>): (L': Layout)
    requires Inv(L) && LegalRun(L, cs)
    decreases |cs|
  {
    if cs == [] then L else Run(Apply(L, cs[0]), cs[1..])
  }

  // The largest amount of pool memory not available, over all states of a run.
  ghost function HighWater(L: Layout, cs: seq<Change>): int
    requires Inv(L) && LegalRun(L, cs)
    decreases |cs|
  {
    var now := L.pool - L.avail;
    if cs == [] then now
    else
      var later := HighWater(Apply(L, cs[0]), cs[1..]);
      if now > later then now else later
  }

  // From rt_memheap_init on, every run keeps the heap sound, and max_used_size is exactly the
  // high-water mark of the run.
  lemma {:induction false} RunLaw(L: Layout, cs: seq<Change>)
    requires Inv(L) && LegalRun(L, cs)
    ensures Inv(Run(L, cs))
    ensures Run(L, cs).peak == if L.peak > HighWater(L, cs) then L.peak else HighWater(L, cs)
    decreases |cs|
  {
    if cs != [] {
      RunLaw(Apply(L, cs[0]), cs[1..]);
    }
  }

  lemma RunFromInit(size: int, cs: seq<Change>)
    requires 2 * ITEM <= size < WORD && LegalRun(Init(size), cs)
    ensures Inv(Run(Init(size), cs))
    ensures Run(Init(size), cs).peak == HighWater(Init(size), cs)
  {
    RunLaw(Init(size), cs);
    HighWaterCoversStart(Init(size), cs);
  }

  lemma HighWaterCoversStart(L: Layout, cs: seq<Change>)
    requires Inv(L) && LegalRun(L, cs)
    ensures HighWater(L, cs) >= L.pool - L.avail
  {
  }

  // rt_memheap_realloc of a used block is at most two of these changes.
  ghost function ReallocSteps(L: Layout, x: int, newsize: int): seq<Change>
    requires Inv(L) && FreeListed(L) && x in Addrs(L.blocks)
  {
    var i := Find(L.blocks, x);
    var b, s := L.blocks[i], Request(newsize);
    if newsize == 0 then [Freed(i)]
    else if s > b.size then
      if RightFree(L, i) && GrowGuard(L.blocks[i + 1].size, b.size, s) then [Shifted(i, s)]
      else if Alloc(L, s).1.None? then []
      else [Allocated(s), Freed(NewIndex(L, s, x))]
    else if s + ITEM + MINIALLOC >= b.size then []
    else if RightFree(L, i) then [Shifted(i, s)]
    else [Trimmed(i, s)]
  }

  // Where the block with header x lies after an allocation.
  ghost function NewIndex(L: Layout, s: int, x: int): nat
    requires FreeListed(L)
  {
    if x in Addrs(Alloc(L, s).0.blocks) then Find(Alloc(L, s).0.blocks, x) else 0
  }

  // So RunLaw covers runs with rt_memheap_realloc in them, wherever it keeps the heap sound at all.
  lemma ReallocIsRun(L: Layout, x: int, newsize: int)
    requires Inv(L) && FreeListed(L) && x in Addrs(L.blocks) && L.blocks[Find(L.blocks, x)].used
    requires 0 <= newsize < WORD && !Overgrows(L, Find(L.blocks, x), newsize)
    ensures LegalRun(L, ReallocSteps(L, x, newsize))
    ensures Realloc(L, x, newsize).0 == Run(L, ReallocSteps(L, x, newsize))
  {
    hide Inv, FreeListed, Free, Shift, CutOff, Alloc, Request, GrowGuard, Live;
    var i := Find(L.blocks, x);
    var b, s := L.blocks[i], Request(newsize);
    var cs := ReallocSteps(L, x, newsize);
    At(L, i);
    RequestRange(newsize);
    if |cs| == 1 {
      if RightFree(L, i) && newsize != 0 && s > b.size { GrowFits(L, i, s); }
      if RightFree(L, i) { At(L, i + 1); }
      assert Legal(L, cs[0]);
      assert cs[1..] == [];
    } else if |cs| == 2 {
      ReallocTwo(L, x, s, cs);
    }
  }

  lemma RequestRange(newsize: int)
    requires 0 <= newsize < WORD
    ensures MINIALLOC <= Request(newsize) < WORD && Request(newsize) % 4 == 0
    ensures Request(Request(newsize)) == Request(newsize)
  {
  }

  lemma ReallocTwo(L: Layout, x: int, s: int, cs: seq<Change>)
    requires Inv(L) && FreeListed(L) && x in Addrs(L.blocks) && L.blocks[Find(L.blocks, x)].used
    requires MINIALLOC <= s < WORD && s % 4 == 0 && Request(s) == s && Alloc(L, s).1.Some?
    requires cs == [Allocated(s), Freed(NewIndex(L, s, x))]
    ensures LegalRun(L, cs)
    ensures var L1 := Alloc(L, s).0; Inv(L1) && x in Addrs(L1.blocks) && Run(L, cs) == Free(L1, Find(L1.blocks, x))
  {
    hide Inv, FreeListed, Free, Alloc, Request, Live;
    AllocLaw(L, s);
    var L1, j := Alloc(L, s).0, NewIndex(L, s, x);
    IsLive(L, Find(L.blocks, x));
    StillThere(L, L1, Find(L.blocks, x));
    assert Legal(L, cs[0]) && Apply(L, cs[0]) == L1;
    assert cs[1..] == [Freed(j)] && cs[1..][1..] == [];
    assert Legal(L1, cs[1]);
    assert LegalRun(L1, cs[1..]);
    var L2 := Apply(L1, Freed(j));
    assert L2 == Free(L1, j);
    assert Run(L1, cs[1..]) == Run(L2, []) == L2;
  }
}
