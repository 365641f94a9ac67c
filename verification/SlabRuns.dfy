// Whole runs of the slab allocator: its critical sections and page calls, interleaved in any way.
module SlabRuns {
  import opened Wrappers
  import opened Rings
  import opened SlabClasses
  import P = SlabPages
  import opened SlabZones

  // Serve, Renew and Found are the three ways in which rt_malloc gets a chunk, Give is rt_free of one;
  // the others are the page calls and the marks of large blocks.
  datatype Step =
    | Serve(c: nat) | Renew(n: int) | Found(b: P.Pages, n: int) | Give(a: int, j: nat)
    | Grab(count: int) | Return(b: P.Pages) | Mark(b: P.Pages) | Unmark(b: P.Pages)

  ghost predicate Allowed(S: Slab, s: Step) {
    match s
    case Serve(c) => c < |S.lists| && S.lists[c] != []
    case Renew(n) => S.spare != [] && 0 < n < Limit(S.zoneSize)
    case Found(b, n) => b in S.transit && b.count == ZonePages(S) && 0 < n < Limit(S.zoneSize)
    case Give(a, j) => Live(S, a, j)
    case Grab(n) => n > 0
    case Return(b) => b in S.transit
    case Mark(b) => b in S.transit
    case Unmark(b) => b in S.large
  }

  ghost function Serving(S: Slab, all: set<int>, c: nat): (S': Slab)
    requires Inv(S, all) && Allowed(S, Serve(c))
    ensures Inv(S', all)
  {
    ServeLaw(S, all, c);
    ServeF(S, c).0
  }

  ghost function Renewing(S: Slab, all: set<int>, n: int): (S': Slab)
    requires Inv(S, all) && Allowed(S, Renew(n))
    ensures Inv(S', all)
  {
    RenewLaw(S, all, n);
    RenewF(S, n)
  }

  ghost function Founding(S: Slab, all: set<int>, b: P.Pages, n: int): (S': Slab)
    requires Inv(S, all) && Allowed(S, Found(b, n))
    ensures Inv(S', all)
  {
    FoundLaw(S, all, b, n);
    FoundF(S, b, n)
  }

  ghost function Giving(S: Slab, all: set<int>, a: int, j: nat): (S': Slab)
    requires Inv(S, all) && Allowed(S, Give(a, j))
    ensures Inv(S', all)
  {
    GiveLaw(S, all, a, j);
    GiveF(S, a, j).0
  }

  ghost function Paging(S: Slab, all: set<int>, s: Step): (S': Slab)
    requires Inv(S, all) && Allowed(S, s) && (s.Grab? || s.Return? || s.Mark? || s.Unmark?)
    ensures Inv(S', all)
  {
    match s
    case Grab(n) => GrabLaw(S, all, n); GrabF(S, n).0
    case Return(b) => ReturnLaw(S, all, b); ReturnF(S, b)
    case Mark(b) => MarkLaw(S, all, b); MarkF(S, b)
    case Unmark(b) => UnmarkLaw(S, all, b); UnmarkF(S, b)
  }

  ghost function StepF(S: Slab, all: set<int>, s: Step): (S': Slab)
    requires Inv(S, all) && Allowed(S, s)
    ensures Inv(S', all)
  {
    match s
    case Serve(c) => Serving(S, all, c)
    case Renew(n) => Renewing(S, all, n)
    case Found(b, n) => Founding(S, all, b, n)
    case Give(a, j) => Giving(S, all, a, j)
    case _ => Paging(S, all, s)
  }

  ghost predicate AllowedRun(S: Slab, all: set<int>, steps: seq<Step>)
    requires Inv(S, all)
    decreases |steps|
  {
    steps == [] || (Allowed(S, steps[0]) && AllowedRun(StepF(S, all, steps[0]), all, steps[1..]))
  }

  ghost function Run(S: Slab, all: set<int>, steps: seq<Step>): (S': Slab)
    requires Inv(S, all) && AllowedRun(S, all, steps)
    ensures Inv(S', all)
    decreases |steps|
  {
    if steps == [] then S else Run(StepF(S, all, steps[0]), all, steps[1..])
  }

  // rt_system_heap_init, once the page list holds the pages and the marks have their own.
  function Init(zoneSize: int, usage: map<int, Usage>, store: P.Store): Slab {
    Slab(zoneSize, map[], seq(NZONES, _ => []), [], usage, store, {}, store.out)
  }

  lemma InitInv(zoneSize: int, usage: map<int, Usage>, store: P.Store, all: set<int>)
    requires ZoneSize(zoneSize) && P.Whole(store, all)
    ensures Inv(Init(zoneSize, usage, store), all) && forall a, j :: !Live(Init(zoneSize, usage, store), a, j)
  {
    var S := Init(zoneSize, usage, store);
    assert Zoned(S) == {} && Blocks({}, ZonePages(S)) == {};
  }

  // ----- what the invariant means to the callers

  function ChunkOfZone(S: Slab, a: int, j: nat): int
    requires a in S.zones && S.zones[a].chunk > 0
  {
    ChunkAt(a * PAGE, S.zones[a].chunk, j)
  }

  lemma StepTimes(j: int, i: int, c: int)
    requires j < i && c > 0
    ensures j * c + c <= i * c
  {
    Times(j + 1, i, c);
    Distribute(j, 1, c);
  }

  lemma SpanBounds(off: int, c: int, j: int, n: int, size: int)
    requires 0 <= j < n && c > 0 && off + n * c <= size
    ensures off <= off + j * c && off + j * c + c <= size
  {
    Times(0, j, c);
    StepTimes(j, n, c);
  }

  lemma MultipleOfEight(a: int, x: int, y: int)
    requires x % 8 == 0 && y % 8 == 0
    ensures (a * PAGE + x + y) % 8 == 0
  {
  }

  lemma ZoneParts(S: Slab, all: set<int>, a: int, j: nat)
    requires Inv(S, all) && Live(S, a, j)
    ensures var z := S.zones[a];
            && 0 < z.chunk && z.chunk % 8 == 0 && z.chunk <= ZONE_LIMIT && j < z.nmax
            && Offset(z.chunk) >= ZONE_HEAD && Offset(z.chunk) + z.nmax * z.chunk <= S.zoneSize
    ensures ZoneSize(S.zoneSize)
  {
    hide Listed, Owned, Mapped, Offset, ChunkCount;
    assert ZoneOk(S.zones[a], S.zoneSize);
    ChunkLimit(S.zones[a].cls);
  }

  lemma ChunkLimit(i: int)
    requires 0 <= i < NZONES
    ensures ChunkOf(i) <= ZONE_LIMIT
  {
  }

  // A chunk in a caller's hands lies behind the header of its zone and inside it.
  lemma Within(S: Slab, all: set<int>, a: int, j: nat)
    requires Inv(S, all) && Live(S, a, j)
    ensures S.zones[a].chunk > 0
    ensures a * PAGE + ZONE_HEAD <= ChunkOfZone(S, a, j)
    ensures ChunkOfZone(S, a, j) + S.zones[a].chunk <= a * PAGE + S.zoneSize == (a + ZonePages(S)) * PAGE
    ensures ChunkOfZone(S, a, j) % 8 == 0
  {
    hide Inv, Offset, ZonesOk;
    ZoneParts(S, all, a, j);
    var z := S.zones[a];
    var off := Offset(z.chunk);
    SpanBounds(off, z.chunk, j, z.nmax, S.zoneSize);
    OffsetIs(z.chunk);
    EightTimes(j, z.chunk);
    MultipleOfEight(a, off, j * z.chunk);
  }

  // Two different chunks in callers' hands share no byte, be they of one zone or of two.
  lemma ChunksApart(S: Slab, all: set<int>, a: int, j: nat, b: int, i: nat)
    requires Inv(S, all) && Live(S, a, j) && Live(S, b, i) && (a != b || j < i)
    ensures S.zones[a].chunk > 0 && S.zones[b].chunk > 0
    ensures ChunkOfZone(S, a, j) + S.zones[a].chunk <= ChunkOfZone(S, b, i)
         || ChunkOfZone(S, b, i) + S.zones[b].chunk <= ChunkOfZone(S, a, j)
  {
    hide Inv, Offset, ZonesOk;
    Within(S, all, a, j);
    Within(S, all, b, i);
    if a == b {
      StepTimes(j, i, S.zones[a].chunk);
    } else {
      ZonesApart(S, all, a, b);
      hide ChunkAt, ChunkOfZone;
    }
  }

  lemma ZonesApart(S: Slab, all: set<int>, a: int, b: int)
    requires Inv(S, all) && a in S.zones && b in S.zones && a != b
    ensures a + ZonePages(S) <= b || b + ZonePages(S) <= a
  {
    hide Listed, ZonesOk, Mapped, P.Whole;
    var k := ZonePages(S);
    BlocksIn(Zoned(S), a, k);
    BlocksIn(Zoned(S), b, k);
    OutApart(S, all, P.Pages(a, k), P.Pages(b, k));
  }

  // rt_free finds the zone of a chunk: memusage tells how far its page is from the first one.
  lemma ZoneFound(S: Slab, all: set<int>, a: int, j: nat)
    requires Inv(S, all) && Live(S, a, j)
    ensures S.zones[a].chunk > 0
    ensures var p := ChunkOfZone(S, a, j) / PAGE;
            p in S.usage && S.usage[p].Small? && p - S.usage[p].off == a
  {
    hide ZonesOk, Listed, Owned, Offset;
    Within(S, all, a, j);
    hide ChunkOfZone;
    var p := ChunkOfZone(S, a, j) / PAGE;
    assert a <= p < a + ZonePages(S);
    assert a in Zoned(S) && SmallAt(S.usage, a, ZonePages(S));
    assert MarkAt(S.usage, a, p - a);
  }

  // The chunks of a zone in callers' hands.
  ghost function LiveIn(z: Zone): set<nat> {
    set j: nat | j <= z.uindex && j !in z.free
  }

  // z_nfree tells exactly how many chunks of a zone are not in callers' hands.
  lemma FreeCount(S: Slab, all: set<int>, a: int)
    requires Inv(S, all) && a in S.zones
    ensures |LiveIn(S.zones[a])| == S.zones[a].nmax - S.zones[a].nfree
    ensures S.zones[a].nfree == S.zones[a].nmax <==> forall j :: !Live(S, a, j)
  {
    hide Owned, Mapped, Listed, ChunkCount, Offset, ChunkOf;
    var z := S.zones[a];
    assert ZoneOk(z, S.zoneSize);
    Counted(z.free, z.uindex + 1);
    assert LiveIn(z) == Rest(z.free, z.uindex + 1);
    if z.nfree == z.nmax {
      NoneLive(z, S.zoneSize);
    } else {
      assert LiveIn(z) != {};
      var j :| j in LiveIn(z);
      assert Live(S, a, j);
    }
  }

  ghost function Rest(free: seq<nat>, n: nat): set<nat> {
    set j: nat | j < n && j !in free
  }

  lemma {:induction false} Counted(free: seq<nat>, n: nat)
    requires Distinct(free) && forall j :: j in free ==> j < n
    ensures |Rest(free, n)| == n - |free|
    decreases |free|
  {
    if free == [] {
      UpTo(n);
      assert Rest(free, n) == Rest([], n);
    } else {
      var rest := free[1..];
      assert free == [free[0]] + rest && free[0] in free && forall j :: j in rest ==> j in free;
      Counted(rest, n);
      assert Rest(rest, n) == Rest(free, n) + {free[0]};
    }
  }

  lemma {:induction false} UpTo(n: nat)
    ensures |Rest([], n)| == n
    decreases n
  {
    if n == 0 {
      assert Rest([], 0) == {};
    } else {
      UpTo(n - 1);
      assert Rest([], n) == Rest([], n - 1) + {n - 1};
    }
  }

  // A page is free, or belongs to one zone, or to one large block, or is on its way.
  lemma EveryPage(S: Slab, all: set<int>, p: int)
    requires Inv(S, all)
    ensures p in all <==> p in P.Of(S.store.runs) || exists b :: b in S.store.out && b.start <= p < b.start + b.count
    ensures S.store.out == Blocks(Zoned(S), ZonePages(S)) + S.large + S.transit
    ensures forall b, c :: b in S.store.out && c in S.store.out && b != c ==>
              b.start + b.count <= c.start || c.start + c.count <= b.start
  {
    hide ZonesOk, Mapped, Listed;
    forall b, c | b in S.store.out && c in S.store.out && b != c
      ensures b.start + b.count <= c.start || c.start + c.count <= b.start
    {
      OutApart(S, all, b, c);
    }
    if p in all && p !in P.Of(S.store.runs) {
      var b :| b in S.store.out && p in P.Range(b.start, b.count);
      assert b.start <= p < b.start + b.count;
    }
    if b :| b in S.store.out && b.start <= p < b.start + b.count {
      assert p in P.Range(b.start, b.count);
    }
  }

  // In every reachable state, whatever the order of the calls: chunks in callers' hands are apart, each
  // leads back to its zone, z_nfree is exact, and a class has a listed zone exactly if one of its zones
  // has room.
  lemma RunLaw(S: Slab, all: set<int>, steps: seq<Step>, a: int, j: nat, b: int, i: nat, c: nat)
    requires Inv(S, all) && AllowedRun(S, all, steps) && c < NZONES
    ensures var S' := Run(S, all, steps);
            && |S'.lists| == NZONES
            && (S'.lists[c] != [] <==> exists x :: x in S'.zones && S'.zones[x].cls == c && S'.zones[x].nfree > 0)
            && (a in S'.zones ==> |LiveIn(S'.zones[a])| == S'.zones[a].nmax - S'.zones[a].nfree)
            && (Live(S', a, j) ==>
                  && S'.zones[a].chunk > 0 && ChunkOfZone(S', a, j) / PAGE in S'.usage
                  && S'.usage[ChunkOfZone(S', a, j) / PAGE].Small?
                  && ChunkOfZone(S', a, j) / PAGE - S'.usage[ChunkOfZone(S', a, j) / PAGE].off == a)
            && (Live(S', a, j) && Live(S', b, i) && (a != b || j < i) ==>
                  && S'.zones[b].chunk > 0
                  && (ChunkOfZone(S', a, j) + S'.zones[a].chunk <= ChunkOfZone(S', b, i)
                      || ChunkOfZone(S', b, i) + S'.zones[b].chunk <= ChunkOfZone(S', a, j)))
  {
    hide Inv, StepF, Allowed, ChunkOfZone, LiveIn, AllowedRun, Run, Live;
    var S' := Run(S, all, steps);
    ListedClass(S', all, c);
    if a in S'.zones { FreeCount(S', all, a); }
    if Live(S', a, j) {
      ZoneFound(S', all, a, j);
      LiveZone(S', a, j);
      if Live(S', b, i) && (a != b || j < i) { ChunksApart(S', all, a, j, b, i); LiveZone(S', b, i); }
    }
  }

  lemma LiveZone(S: Slab, a: int, j: nat)
    requires Live(S, a, j)
    ensures a in S.zones
  {
  }

  lemma ListedClass(S: Slab, all: set<int>, c: nat)
    requires Inv(S, all) && c < NZONES
    ensures |S.lists| == NZONES
    ensures S.lists[c] != [] <==> exists x :: x in S.zones && S.zones[x].cls == c && S.zones[x].nfree > 0
  {
    hide Owned, Mapped, ZonesOk;
    if S.lists[c] != [] {
      var x := S.lists[c][0];
      assert x in S.lists[c];
      assert x in S.zones && S.zones[x].cls == c && S.zones[x].nfree > 0;
    }
  }
}
