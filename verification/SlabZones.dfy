// The zones of slab.c as values: which chunks of which zone are in callers' hands, which zones are
// listed for allocation, and to whom each page of the heap belongs. SlabZoneTable.dfy ties the in-place
// lists to the functions of this module.
module SlabZones {
  import opened Wrappers
  import opened Rings
  import opened SlabClasses
  import P = SlabPages

  // z_zoneindex, z_chunksize, z_nmax, z_nfree, z_uindex; the chunks of a zone are numbered, and `free`
  // lists those on z_freechunk, first one first.
  datatype Zone = Zone(cls: nat, chunk: int, nmax: int, nfree: int, uindex: nat, free: seq<nat>)

  // One entry of memusage.
  datatype Usage = FreePage | Small(off: nat) | Large(count: int)

  // `zones` holds the zones in use by their first page, `lists` is zone_array, `spare` the list
  // zone_free. `large` are the blocks handed out whole, and `transit` the page blocks that some call has
  // taken from the page allocator, or is about to give back, outside the lock.
  datatype Slab = Slab(zoneSize: int, zones: map<int, Zone>, lists: seq<seq<int>>, spare: seq<int>,
                       usage: map<int, Usage>, store: P.Store, large: set<P.Pages>, transit: set<P.Pages>)

  function ZonePages(S: Slab): int { S.zoneSize / PAGE }

  // ----- what the critical sections do

  // Chunk j is taken: one never used before as long as there is one, else the first free one.
  function TakeChunk(z: Zone): (r: (Zone, nat))
    requires z.nfree > 0 && (z.uindex + 1 == z.nmax ==> z.free != [])
  {
    if z.uindex + 1 != z.nmax then (z.(nfree := z.nfree - 1, uindex := z.uindex + 1), z.uindex + 1)
    else (z.(nfree := z.nfree - 1, free := z.free[1..]), z.free[0])
  }

  // A new zone whose chunk 0 is taken.
  function FreshZone(zoneSize: int, n: int): (z: Zone)
    requires ZoneSize(zoneSize) && 0 < n < Limit(zoneSize)
    ensures z.cls < NZONES && z.cls == ZoneIndex(n).index
  {
    ClassLaw(n);
    var c := ZoneIndex(n);
    Zone(c.index, c.chunk, ChunkCount(zoneSize, c.chunk), ChunkCount(zoneSize, c.chunk) - 1, 0, [])
  }

  // Class c has a listed zone, and that has a chunk.
  predicate CanServe(S: Slab, c: nat) {
    && c < |S.lists| && S.lists[c] != [] && S.lists[c][0] in S.zones
    && var z := S.zones[S.lists[c][0]]; z.nfree > 0 && (z.uindex + 1 == z.nmax ==> z.free != [])
  }

  // The first zone of class c serves.
  function ServeF(S: Slab, c: nat): (r: (Slab, int, nat))
    requires CanServe(S, c)
  {
    var a := S.lists[c][0];
    var (z, j) := TakeChunk(S.zones[a]);
    (S.(zones := S.zones[a := z], lists := if z.nfree == 0 then S.lists[c := S.lists[c][1..]] else S.lists), a, j)
  }

  // A new zone is listed.
  function AddF(S: Slab, a: int, z: Zone): (S': Slab)
    requires z.cls < |S.lists|
  {
    S.(zones := S.zones[a := z], lists := S.lists[z.cls := [a] + S.lists[z.cls]])
  }

  // The first spare zone is used again, for the class of n.
  function RenewF(S: Slab, n: int): (S': Slab)
    requires ZoneSize(S.zoneSize) && 0 < n < Limit(S.zoneSize) && S.spare != [] && |S.lists| == NZONES
  {
    AddF(S.(spare := S.spare[1..]), S.spare[0], FreshZone(S.zoneSize, n))
  }

  function SmallUsage(usage: map<int, Usage>, a: int, k: int): (u: map<int, Usage>)
    decreases k
  {
    if k <= 0 then usage else SmallUsage(usage, a, k - 1)[a + k - 1 := Small(k - 1)]
  }

  function FreeUsage(usage: map<int, Usage>, a: int, k: int): (u: map<int, Usage>)
    decreases k
  {
    if k <= 0 then usage else FreeUsage(usage, a, k - 1)[a + k - 1 := FreePage]
  }

  // A block of pages becomes a zone.
  function FoundF(S: Slab, b: P.Pages, n: int): (S': Slab)
    requires ZoneSize(S.zoneSize) && 0 < n < Limit(S.zoneSize) && |S.lists| == NZONES
  {
    AddF(S.(usage := SmallUsage(S.usage, b.start, ZonePages(S)), transit := S.transit - {b}), b.start,
        FreshZone(S.zoneSize, n))
  }

  // Chunk j goes back to its zone.
  function GiveChunk(z: Zone, j: nat): Zone {
    z.(free := [j] + z.free, nfree := z.nfree + 1)
  }

  // The zone is listed if it was not.
  function BackF(S: Slab, a: int, j: nat): (S': Slab)
    requires a in S.zones && S.zones[a].cls < |S.lists|
  {
    var z := S.zones[a];
    S.(zones := S.zones[a := GiveChunk(z, j)], lists := if z.nfree == 0 then S.lists[z.cls := [a] + S.lists[z.cls]]
        else S.lists)
  }

  // A zone none of whose chunks is in use becomes a spare one.
  function RetireF(S: Slab, a: int): (S': Slab)
    requires a in S.zones && S.zones[a].cls < |S.lists|
  {
    var c := S.zones[a].cls;
    S.(zones := S.zones - {a}, lists := S.lists[c := Without(S.lists[c], a)], spare := [a] + S.spare)
  }

  // The first spare zone is on its way back to the page allocator.
  function ReleaseF(S: Slab): (S': Slab)
    requires S.spare != []
  {
    var a := S.spare[0];
    S.(spare := S.spare[1..], usage := FreeUsage(S.usage, a, ZonePages(S)),
        transit := S.transit + {P.Pages(a, ZonePages(S))})
  }

  // A zone without a chunk in use is retired, unless it is the only one listed of its class; the last
  // result tells whether pages are to be given back.
  function SettleF(S: Slab, a: int): (r: (Slab, bool))
    requires a in S.zones && S.zones[a].cls < |S.lists|
  {
    var z := S.zones[a];
    if z.nfree == z.nmax && S.lists[z.cls] != [a] then
      var S' := RetireF(S, a);
      if |S'.spare| > 2 then (ReleaseF(S'), true) else (S', false)
    else (S, false)
  }

  // rt_free of chunk j of zone a, up to the release of the lock
  function GiveF(S: Slab, a: int, j: nat): (r: (Slab, bool))
    requires a in S.zones && S.zones[a].cls < |S.lists|
  {
    SettleF(BackF(S, a, j), a)
  }

  // The pages taken and given outside the lock, and the marks of large blocks.
  ghost function GrabF(S: Slab, n: int): (r: (Slab, Option<int>))
  {
    var (runs', r) := P.Alloc(S.store.runs, n);
    (S.(store := P.Apply(S.store, P.Taken(n)), transit := if r.Some? then S.transit + {P.Pages(r.value, n)}
        else S.transit), r)
  }

  ghost function ReturnF(S: Slab, b: P.Pages): (S': Slab) {
    S.(store := P.Apply(S.store, P.Given(b)), transit := S.transit - {b})
  }

  function MarkF(S: Slab, b: P.Pages): (S': Slab) {
    S.(usage := S.usage[b.start := Large(b.count)], transit := S.transit - {b}, large := S.large + {b})
  }

  function UnmarkF(S: Slab, b: P.Pages): (S': Slab) {
    S.(usage := S.usage[b.start := Large(0)], transit := S.transit + {b}, large := S.large - {b})
  }

  // ----- the invariant

  // z_nfree counts the free chunks and those never used; the other chunks are in callers' hands.
  ghost predicate ZoneOk(z: Zone, zoneSize: int) {
    && z.cls < NZONES && z.chunk == ChunkOf(z.cls) > 0 && z.chunk % 8 == 0
    && z.nmax == ChunkCount(zoneSize, z.chunk) >= 3 && z.uindex < z.nmax
    && Offset(z.chunk) >= ZONE_HEAD && Offset(z.chunk) + z.nmax * z.chunk <= zoneSize
    && Distinct(z.free) && (forall j :: j in z.free ==> j <= z.uindex)
    && z.nfree == |z.free| + (z.nmax - 1 - z.uindex)
  }

  ghost predicate ZonesOk(zones: map<int, Zone>, zoneSize: int) {
    forall a :: a in zones ==> ZoneOk(zones[a], zoneSize)
  }

  // zone_array[i] lists exactly the zones of class i with room, each once.
  ghost predicate Listed(zones: map<int, Zone>, lists: seq<seq<int>>) {
    && |lists| == NZONES
    && (forall i :: 0 <= i < NZONES ==> Distinct(lists[i]))
    && (forall i, a :: 0 <= i < NZONES ==> (a in lists[i] <==> a in zones && zones[a].cls == i && zones[a].nfree > 0))
  }

  ghost function Blocks(starts: set<int>, n: int): set<P.Pages> {
    set a | a in starts :: P.Pages(a, n)
  }

  ghost function Members(s: seq<int>): set<int> { set a | a in s }

  // The zones, used or spare.
  ghost function Zoned(S: Slab): set<int> {
    S.zones.Keys + Members(S.spare)
  }

  // Every page block outside the page allocator is a zone, a large block or in transit.
  ghost predicate Owned(S: Slab, all: set<int>) {
    && P.Whole(S.store, all)
    && S.store.out == Blocks(Zoned(S), ZonePages(S)) + S.large + S.transit
    && Blocks(Zoned(S), ZonePages(S)) !! S.large && Blocks(Zoned(S), ZonePages(S)) !! S.transit && S.large !! S.transit
  }

  ghost predicate MarkAt(usage: map<int, Usage>, a: int, o: nat) {
    a + o in usage && usage[a + o] == Small(o)
  }

  ghost predicate SmallAt(usage: map<int, Usage>, a: int, n: int) {
    forall o: nat :: o < n ==> MarkAt(usage, a, o)
  }

  // memusage leads from each page of a zone to its first page, and from a large block to its length.
  ghost predicate Mapped(S: Slab) {
    && (forall a :: a in Zoned(S) ==> SmallAt(S.usage, a, ZonePages(S)))
    && (forall b :: b in S.large ==> b.start in S.usage && S.usage[b.start] == Large(b.count))
  }

  ghost predicate Inv(S: Slab, all: set<int>) {
    && ZoneSize(S.zoneSize)
    && ZonesOk(S.zones, S.zoneSize) && Listed(S.zones, S.lists)
    && Distinct(S.spare) && |S.spare| <= 2 && Members(S.spare) !! S.zones.Keys
    && Owned(S, all) && Mapped(S)
  }

  // Chunk j of zone a is in a caller's hands.
  predicate Live(S: Slab, a: int, j: nat) {
    a in S.zones && j <= S.zones[a].uindex && j !in S.zones[a].free
  }

  // ----- chunks

  lemma TakeChunkLaw(z: Zone, zoneSize: int)
    requires ZoneOk(z, zoneSize) && z.nfree > 0
    ensures z.uindex + 1 == z.nmax ==> z.free != []
    ensures var (z', j) := TakeChunk(z);
            && ZoneOk(z', zoneSize) && z'.cls == z.cls && z'.nfree == z.nfree - 1 && z'.chunk == z.chunk && j < z.nmax
            && (j > z.uindex || j in z.free) && j <= z'.uindex && j !in z'.free
            && (forall i: nat :: i != j ==> ((i <= z'.uindex && i !in z'.free) <==> (i <= z.uindex && i !in z.free)))
  {
    if z.uindex + 1 == z.nmax {
      var rest := z.free[1..];
      assert z.free == [z.free[0]] + rest;
      assert z.free[0] in z.free && forall j :: j in rest ==> j in z.free;
    }
  }

  lemma GiveChunkLaw(z: Zone, zoneSize: int, j: nat)
    requires ZoneOk(z, zoneSize) && j <= z.uindex && j !in z.free
    ensures var z' := GiveChunk(z, j);
            && ZoneOk(z', zoneSize) && z'.cls == z.cls && z'.nfree == z.nfree + 1 > 0 && z'.chunk == z.chunk
            && (forall i: nat :: (i <= z'.uindex && i !in z'.free) <==> (i <= z.uindex && i !in z.free && i != j))
  {
  }

  lemma FreshOk(zoneSize: int, n: int)
    requires ZoneSize(zoneSize) && 0 < n < Limit(zoneSize)
    ensures var z := FreshZone(zoneSize, n);
            && ZoneOk(z, zoneSize) && z.nfree > 0 && z.chunk >= n
            && forall i: nat :: (i <= z.uindex && i !in z.free) <==> i == 0
  {
    hide ChunkCount, Offset, ZoneIndex, ChunkOf;
    ClassLaw(n);
    CountLaw(zoneSize, n);
  }

  // A zone with as many free chunks as it has chunks has none in use.
  lemma {:induction false} AllFree(free: seq<nat>, n: nat)
    requires Distinct(free) && (forall j :: j in free ==> j < n) && |free| == n
    ensures forall j: nat :: j < n ==> j in free
    decreases n
  {
    if n > 0 {
      if n - 1 in free {
        RemoveDistinct(free, n - 1);
        AllFree(Remove(free, n - 1), n - 1);
      } else {
        TooMany(free, n - 1);
      }
    }
  }

  lemma HasMember(s: seq<nat>)
    requires s != []
    ensures exists j :: j in s
  {
    assert s[0] in s;
  }

  lemma {:induction false} TooMany(free: seq<nat>, n: nat)
    requires Distinct(free) && (forall j :: j in free ==> j < n)
    ensures |free| <= n
    decreases n
  {
    if n == 0 {
      if free != [] { HasMember(free); }
    } else if n - 1 in free {
      RemoveDistinct(free, n - 1);
      TooMany(Remove(free, n - 1), n - 1);
    } else {
      TooMany(free, n - 1);
    }
  }

  lemma NoneLive(z: Zone, zoneSize: int)
    requires ZoneOk(z, zoneSize) && z.nfree == z.nmax
    ensures forall j: nat :: j <= z.uindex ==> j in z.free
  {
    AllFree(z.free, z.uindex + 1);
  }

  // ----- the lists of zones

  lemma ListedServed(zones: map<int, Zone>, lists: seq<seq<int>>, c: nat, z: Zone)
    requires Listed(zones, lists) && c < NZONES && lists[c] != []
    requires var a := lists[c][0]; a in zones && z.cls == zones[a].cls && z.nfree == zones[a].nfree - 1 >= 0
    ensures Listed(zones[lists[c][0] := z], if z.nfree == 0 then lists[c := lists[c][1..]] else lists)
  {
    var a := lists[c][0];
    assert a in lists[c] && lists[c] == [a] + lists[c][1..];
    var lists' := if z.nfree == 0 then lists[c := lists[c][1..]] else lists;
    forall i, b | 0 <= i < NZONES
      ensures b in lists'[i] <==> b in zones[a := z] && zones[a := z][b].cls == i && zones[a := z][b].nfree > 0
    {
      assert b in lists[i] <==> b in zones && zones[b].cls == i && zones[b].nfree > 0;
    }
  }

  lemma ListedAdded(zones: map<int, Zone>, lists: seq<seq<int>>, a: int, z: Zone)
    requires Listed(zones, lists) && z.cls < NZONES && z.nfree > 0
    requires a !in zones || (zones[a].cls == z.cls && zones[a].nfree == 0)
    ensures Listed(zones[a := z], lists[z.cls := [a] + lists[z.cls]])
  {
    var lists' := lists[z.cls := [a] + lists[z.cls]];
    forall i, b | 0 <= i < NZONES
      ensures b in lists'[i] <==> b in zones[a := z] && zones[a := z][b].cls == i && zones[a := z][b].nfree > 0
    {
      assert b in lists[i] <==> b in zones && zones[b].cls == i && zones[b].nfree > 0;
    }
  }

  lemma ListedSame(zones: map<int, Zone>, lists: seq<seq<int>>, a: int, z: Zone)
    requires Listed(zones, lists) && a in zones && z.cls == zones[a].cls && z.nfree > 0 && zones[a].nfree > 0
    ensures Listed(zones[a := z], lists)
  {
    forall i, b | 0 <= i < NZONES
      ensures b in lists[i] <==> b in zones[a := z] && zones[a := z][b].cls == i && zones[a := z][b].nfree > 0
    {
    }
  }

  lemma ListedUnlinked(zones: map<int, Zone>, lists: seq<seq<int>>, a: int)
    requires Listed(zones, lists) && a in zones && zones[a].cls < NZONES
    ensures var c := zones[a].cls; Listed(zones - {a}, lists[c := Without(lists[c], a)])
  {
    var c := zones[a].cls;
    WithoutIs(lists[c], a);
    var lists' := lists[c := Without(lists[c], a)];
    forall i, b | 0 <= i < NZONES
      ensures b in lists'[i] <==> b in zones - {a} && zones[b].cls == i && zones[b].nfree > 0
    {
      assert b in lists[i] <==> b in zones && zones[b].cls == i && zones[b].nfree > 0;
    }
  }

  // ----- the pages

  // The parts of the invariant that concern pages and their marks.
  ghost predicate PagesOk(S: Slab, all: set<int>) {
    && ZoneSize(S.zoneSize) && Members(S.spare) !! S.zones.Keys && Owned(S, all) && Mapped(S)
  }

  lemma SamePages(S: Slab, S': Slab, all: set<int>)
    requires PagesOk(S, all) && S'.zoneSize == S.zoneSize && S'.zones.Keys == S.zones.Keys && S'.spare == S.spare
    requires S'.usage == S.usage && S'.store == S.store && S'.large == S.large && S'.transit == S.transit
    ensures PagesOk(S', all)
  {
    assert Zoned(S') == Zoned(S);
  }

  // A zone moves between the used and the spare ones.
  lemma MovedPages(S: Slab, S': Slab, all: set<int>)
    requires PagesOk(S, all) && S'.zoneSize == S.zoneSize && Zoned(S') == Zoned(S) && Members(S'.spare) !! S'.zones.Keys
    requires S'.usage == S.usage && S'.store == S.store && S'.large == S.large && S'.transit == S.transit
    ensures PagesOk(S', all)
  {
  }

  lemma {:induction false} SmallUsageIs(usage: map<int, Usage>, a: int, k: int)
    ensures var u := SmallUsage(usage, a, k);
            && SmallAt(u, a, k)
            && (forall p :: p in usage && !(a <= p < a + k) ==> p in u && u[p] == usage[p])
    decreases k
  {
    if k > 0 {
      SmallUsageIs(usage, a, k - 1);
      var u := SmallUsage(usage, a, k);
      forall o: nat | o < k
        ensures MarkAt(u, a, o)
      {
        if o < k - 1 { assert MarkAt(SmallUsage(usage, a, k - 1), a, o); }
      }
    }
  }

  ghost predicate FreeMark(usage: map<int, Usage>, a: int, o: nat) {
    a + o in usage && usage[a + o] == FreePage
  }

  // Those pages are marked free.
  ghost predicate FreeAt(usage: map<int, Usage>, a: int, n: int) {
    forall o: nat :: o < n ==> FreeMark(usage, a, o)
  }

  lemma {:induction false} FreeUsageIs(usage: map<int, Usage>, a: int, k: int)
    ensures var u := FreeUsage(usage, a, k);
            && FreeAt(u, a, k)
            && (forall p :: p in usage && !(a <= p < a + k) ==> p in u && u[p] == usage[p])
    decreases k
  {
    if k > 0 {
      FreeUsageIs(usage, a, k - 1);
      var u := FreeUsage(usage, a, k);
      forall o: nat | o < k
        ensures FreeMark(u, a, o)
      {
        if o < k - 1 { assert FreeMark(FreeUsage(usage, a, k - 1), a, o); }
      }
    }
  }

  // Two blocks outside the page allocator share no page.
  lemma OutApart(S: Slab, all: set<int>, b: P.Pages, c: P.Pages)
    requires Owned(S, all) && b in S.store.out && c in S.store.out && b != c
    ensures b.count > 0 && c.count > 0 && (b.start + b.count <= c.start || c.start + c.count <= b.start)
  {
    assert P.Range(b.start, b.count) !! P.Range(c.start, c.count);
    var x := if b.start < c.start then c.start else b.start;
    assert x in P.Range(b.start, b.count) <==> b.start <= x < b.start + b.count;
    assert x in P.Range(c.start, c.count) <==> c.start <= x < c.start + c.count;
  }

  // Marks changed only inside block b leave those of all other blocks alone.
  ghost predicate OnlyInside(usage: map<int, Usage>, usage': map<int, Usage>, b: P.Pages) {
    forall p :: p in usage && !(b.start <= p < b.start + b.count) ==> p in usage' && usage'[p] == usage[p]
  }

  lemma SmallStays(usage: map<int, Usage>, usage': map<int, Usage>, b: P.Pages, a: int, k: int)
    requires SmallAt(usage, a, k) && OnlyInside(usage, usage', b) && (a + k <= b.start || b.start + b.count <= a)
    ensures SmallAt(usage', a, k)
  {
    forall o: nat | o < k
      ensures MarkAt(usage', a, o)
    {
      assert MarkAt(usage, a, o);
    }
  }

  lemma LargeStays(usage: map<int, Usage>, usage': map<int, Usage>, b: P.Pages, c: P.Pages)
    requires c.start in usage && OnlyInside(usage, usage', b)
    requires c.count > 0 && (c.start + c.count <= b.start || b.start + b.count <= c.start)
    ensures c.start in usage' && usage'[c.start] == usage[c.start]
  {
  }

  lemma MarksStay(S: Slab, all: set<int>, b: P.Pages, usage': map<int, Usage>)
    requires Owned(S, all) && Mapped(S) && b in S.store.out && OnlyInside(S.usage, usage', b)
    ensures forall a :: a in Zoned(S) && P.Pages(a, ZonePages(S)) != b ==> SmallAt(usage', a, ZonePages(S))
    ensures forall c :: c in S.large && c != b ==> c.start in usage' && usage'[c.start] == S.usage[c.start]
  {
    hide P.Whole, SmallAt, OnlyInside;
    forall a | a in Zoned(S) && P.Pages(a, ZonePages(S)) != b
      ensures SmallAt(usage', a, ZonePages(S))
    {
      BlocksIn(Zoned(S), a, ZonePages(S));
      OutApart(S, all, P.Pages(a, ZonePages(S)), b);
      SmallStays(S.usage, usage', b, a, ZonePages(S));
    }
    forall c | c in S.large && c != b
      ensures c.start in usage' && usage'[c.start] == S.usage[c.start]
    {
      OutApart(S, all, c, b);
      LargeStays(S.usage, usage', b, c);
    }
  }

  lemma BlocksAdd(starts: set<int>, a: int, n: int)
    ensures Blocks(starts + {a}, n) == Blocks(starts, n) + {P.Pages(a, n)}
    ensures a !in starts ==> P.Pages(a, n) !in Blocks(starts, n)
  {
  }

  lemma BlocksIn(starts: set<int>, a: int, n: int)
    ensures P.Pages(a, n) in Blocks(starts, n) <==> a in starts
  {
  }

  // A block in transit becomes a zone.
  lemma FoundPages(S: Slab, all: set<int>, b: P.Pages, n: int)
    requires Inv(S, all) && b in S.transit && b.count == ZonePages(S) && 0 < n < Limit(S.zoneSize)
    ensures PagesOk(FoundF(S, b, n), all) && b.start !in Zoned(S)
  {
    assert |S.lists| == NZONES;
    FoundPagesOf(S, all, b, n);
  }

  lemma FoundPagesOf(S: Slab, all: set<int>, b: P.Pages, n: int)
    requires PagesOk(S, all) && b in S.transit && b.count == ZonePages(S) && 0 < n < Limit(S.zoneSize)
    requires |S.lists| == NZONES
    ensures PagesOk(FoundF(S, b, n), all) && b.start !in Zoned(S)
  {
    hide P.Whole, FreshZone, SmallUsage, SmallAt;
    var S', k := FoundF(S, b, n), ZonePages(S);
    BlocksIn(Zoned(S), b.start, k);
    BlocksAdd(Zoned(S), b.start, k);
    assert b == P.Pages(b.start, k);
    assert Zoned(S') == Zoned(S) + {b.start};
    SmallUsageIs(S.usage, b.start, k);
    MarksStay(S, all, b, S'.usage);
    forall a | a in Zoned(S')
      ensures SmallAt(S'.usage, a, k)
    {
      if a != b.start { assert P.Pages(a, k) != b; }
    }
    forall c | c in S.large
      ensures c.start in S'.usage && S'.usage[c.start] == Large(c.count)
    {
      assert c != b;
    }
  }

  // The first spare zone goes into transit.
  lemma ReleasePages(S: Slab, all: set<int>)
    requires PagesOk(S, all) && S.spare != [] && Distinct(S.spare)
    ensures PagesOk(ReleaseF(S), all)
  {
    hide P.Whole, FreeUsage;
    var S', a, k := ReleaseF(S), S.spare[0], ZonePages(S);
    assert S.spare == [a] + S.spare[1..];
    var b := P.Pages(a, k);
    assert Zoned(S) == Zoned(S') + {a} && a !in Zoned(S');
    BlocksAdd(Zoned(S'), a, k);
    FreeUsageIs(S.usage, a, k);
    MarksStay(S, all, b, S'.usage);
    forall c | c in Zoned(S')
      ensures SmallAt(S'.usage, c, k)
    {
      assert P.Pages(c, k) != b;
    }
    forall c | c in S.large
      ensures c.start in S'.usage && S'.usage[c.start] == Large(c.count)
    {
      assert c != b;
    }
  }

  // ----- every critical section keeps the invariant

  lemma Parts(S: Slab, all: set<int>)
    requires Inv(S, all)
    ensures PagesOk(S, all) && ZonesOk(S.zones, S.zoneSize) && Listed(S.zones, S.lists) && ZoneSize(S.zoneSize)
    ensures |S.lists| == NZONES && Distinct(S.spare) && |S.spare| <= 2 && Members(S.spare) !! S.zones.Keys
  {
  }

  lemma Whole(S: Slab, all: set<int>)
    requires PagesOk(S, all) && ZonesOk(S.zones, S.zoneSize) && Listed(S.zones, S.lists)
    requires Distinct(S.spare) && |S.spare| <= 2
    ensures Inv(S, all)
  {
  }

  lemma ZoneAt(zones: map<int, Zone>, zoneSize: int, a: int)
    requires ZonesOk(zones, zoneSize) && a in zones
    ensures ZoneOk(zones[a], zoneSize) && zones[a].cls < NZONES
  {
  }

  lemma ZonesSet(zones: map<int, Zone>, zoneSize: int, a: int, z: Zone)
    requires ZonesOk(zones, zoneSize) && ZoneOk(z, zoneSize)
    ensures ZonesOk(zones[a := z], zoneSize) && ZonesOk(zones - {a}, zoneSize)
  {
    hide ZoneOk;
  }

  // The first zone of a class has room.
  lemma HeadHasRoom(S: Slab, all: set<int>, c: nat)
    requires Inv(S, all) && c < NZONES && S.lists[c] != []
    ensures var a := S.lists[c][0];
            && a in S.zones && S.zones[a].cls == c && S.zones[a].nfree > 0 && ZoneOk(S.zones[a], S.zoneSize)
            && (S.zones[a].uindex + 1 == S.zones[a].nmax ==> S.zones[a].free != [])
  {
    hide Owned, Mapped, ZoneOk;
    var a := S.lists[c][0];
    assert a in S.lists[c];
    ZoneAt(S.zones, S.zoneSize, a);
    TakeChunkLaw(S.zones[a], S.zoneSize);
  }

  // Chunk j of zone a comes into a caller's hands, and nothing else changes hands.
  ghost predicate Gained(S: Slab, S': Slab, a: int, j: nat) {
    !Live(S, a, j) && forall b, i :: Live(S', b, i) <==> Live(S, b, i) || (b == a && i == j)
  }

  // No zone but the one at a is touched.
  ghost predicate OnlyZone(S: Slab, S': Slab, a: int) {
    forall b :: b != a ==> (b in S'.zones <==> b in S.zones) && (b in S.zones ==> S'.zones[b] == S.zones[b])
  }

  // No page changes hands, and no mark is written.
  ghost predicate SamePlaces(S: Slab, S': Slab) {
    && S'.zoneSize == S.zoneSize && S'.store == S.store && S'.usage == S.usage
    && S'.large == S.large && S'.transit == S.transit
  }

  // An allocation from a listed zone hands out a chunk of its class that nobody has.
  lemma ServeLaw(S: Slab, all: set<int>, c: nat)
    requires Inv(S, all) && c < NZONES && S.lists[c] != []
    ensures CanServe(S, c)
    ensures var (S', a, j) := ServeF(S, c);
            && Inv(S', all) && Gained(S, S', a, j) && a in S'.zones && S'.zones[a].chunk == ChunkOf(c)
               && j < S'.zones[a].nmax
            && a == S.lists[c][0] && S'.spare == S.spare && SamePlaces(S, S') && OnlyZone(S, S', a)
  {
    HeadHasRoom(S, all, c);
    ServeKeeps(S, all, c);
  }

  lemma ServeKeeps(S: Slab, all: set<int>, c: nat)
    requires Inv(S, all) && c < NZONES && S.lists[c] != [] && S.lists[c][0] in S.zones
    requires var z := S.zones[S.lists[c][0]];
             z.cls == c && z.nfree > 0 && ZoneOk(z, S.zoneSize) && (z.uindex + 1 == z.nmax ==> z.free != [])
    ensures var (S', a, j) := ServeF(S, c);
            && Inv(S', all) && Gained(S, S', a, j) && a in S'.zones && S'.zones[a].chunk == ChunkOf(c)
               && j < S'.zones[a].nmax
            && a == S.lists[c][0] && S'.spare == S.spare && SamePlaces(S, S') && OnlyZone(S, S', a)
  {
    hide Inv, PagesOk, ZonesOk, Listed, TakeChunk, ChunkOf, ChunkCount, Offset;
    Parts(S, all);
    var a := S.lists[c][0];
    TakeChunkLaw(S.zones[a], S.zoneSize);
    var (z, j) := TakeChunk(S.zones[a]);
    ListedServed(S.zones, S.lists, c, z);
    ZonesSet(S.zones, S.zoneSize, a, z);
    var S' := ServeF(S, c).0;
    assert S'.zones.Keys == S.zones.Keys;
    SamePages(S, S', all);
    Whole(S', all);
  }

  lemma RenewLaw(S: Slab, all: set<int>, n: int)
    requires Inv(S, all) && S.spare != [] && 0 < n < Limit(S.zoneSize)
    ensures |S.lists| == NZONES && ZoneSize(S.zoneSize)
    ensures var S', a := RenewF(S, n), S.spare[0];
            && Inv(S', all) && Gained(S, S', a, 0) && a in S'.zones && S'.zones[a].chunk == ZoneIndex(n).chunk >= n
            && S'.spare == S.spare[1..] && SamePlaces(S, S') && OnlyZone(S, S', a)
  {
    hide Inv, PagesOk, ZonesOk, Listed, FreshZone, ZoneIndex, Distinct, Limit;
    Parts(S, all);
    SpareFirst(S.spare);
    FreshClass(S.zoneSize, n);
    var S0, S', a := S.(spare := S.spare[1..]), RenewF(S, n), S.spare[0];
    var z := FreshZone(S.zoneSize, n);
    ListedAdded(S.zones, S.lists, a, z);
    ZonesSet(S.zones, S.zoneSize, a, z);
    assert Zoned(S') == Zoned(S) && Members(S'.spare) !! S'.zones.Keys;
    MovedPages(S, S', all);
    Whole(S', all);
  }

  lemma SpareFirst(s: seq<int>)
    requires s != [] && Distinct(s)
    ensures Distinct(s[1..]) && Members(s) == Members(s[1..]) + {s[0]} && s[0] !in Members(s[1..])
  {
    assert s == [s[0]] + s[1..];
  }

  lemma FreshClass(zoneSize: int, n: int)
    requires ZoneSize(zoneSize) && 0 < n < Limit(zoneSize)
    ensures var z := FreshZone(zoneSize, n);
            && ZoneOk(z, zoneSize) && z.nfree > 0 && z.cls < NZONES && z.chunk == ZoneIndex(n).chunk >= n
            && z.uindex == 0 && z.free == []
  {
    hide ChunkCount, Offset, ZoneIndex, ChunkOf;
    FreshOk(zoneSize, n);
  }

  lemma FoundLaw(S: Slab, all: set<int>, b: P.Pages, n: int)
    requires Inv(S, all) && b in S.transit && b.count == ZonePages(S) && 0 < n < Limit(S.zoneSize)
    ensures |S.lists| == NZONES && ZoneSize(S.zoneSize)
    ensures var S' := FoundF(S, b, n);
            && Inv(S', all) && Gained(S, S', b.start, 0) && b.start in S'.zones
            && S'.zones[b.start].chunk == ZoneIndex(n).chunk >= n && OnlyZone(S, S', b.start)
            && S'.spare == S.spare && S'.store == S.store && S'.large == S.large && S'.transit == S.transit - {b}
            && OnlyInside(S.usage, S'.usage, b)
  {
    hide Inv, PagesOk, ZonesOk, Listed, FreshZone, ZoneIndex, Distinct, Limit, SmallUsage;
    Parts(S, all);
    FoundPages(S, all, b, n);
    FreshClass(S.zoneSize, n);
    var S', z := FoundF(S, b, n), FreshZone(S.zoneSize, n);
    ListedAdded(S.zones, S.lists, b.start, z);
    ZonesSet(S.zones, S.zoneSize, b.start, z);
    SmallUsageIs(S.usage, b.start, b.count);
    Whole(S', all);
  }

  // ----- rt_free of a chunk

  // The invariant, except that there may be three spare zones.
  ghost predicate Almost(S: Slab, all: set<int>) {
    PagesOk(S, all) && ZonesOk(S.zones, S.zoneSize) && Listed(S.zones, S.lists) && Distinct(S.spare)
  }

  ghost predicate Lost(S: Slab, S': Slab, a: int, j: nat) {
    forall b, i :: Live(S', b, i) <==> Live(S, b, i) && !(b == a && i == j)
  }

  lemma BackLaw(S: Slab, all: set<int>, a: int, j: nat)
    requires Inv(S, all) && Live(S, a, j)
    ensures |S.lists| == NZONES && a in S.zones && S.zones[a].cls < NZONES
    ensures var S' := BackF(S, a, j);
            && Inv(S', all) && Lost(S, S', a, j) && a in S'.zones && S'.zones[a].nfree > 0
               && S'.zones[a].cls == S.zones[a].cls
  {
    hide Inv, PagesOk, ZonesOk, Listed, ZoneOk;
    Parts(S, all);
    ZoneAt(S.zones, S.zoneSize, a);
    GiveChunkLaw(S.zones[a], S.zoneSize, j);
    var z := GiveChunk(S.zones[a], j);
    ZonesSet(S.zones, S.zoneSize, a, z);
    RoomNotNegative(S.zones[a], S.zoneSize);
    if S.zones[a].nfree == 0 { ListedAdded(S.zones, S.lists, a, z); } else { ListedSame(S.zones, S.lists, a, z); }
    var S' := BackF(S, a, j);
    assert S'.zones.Keys == S.zones.Keys;
    SamePages(S, S', all);
    Whole(S', all);
  }

  lemma RoomNotNegative(z: Zone, zoneSize: int)
    requires ZoneOk(z, zoneSize)
    ensures z.nfree >= 0
  {
  }

  // A zone with no chunk in use leaves the zones in use.
  lemma RetireLaw(S: Slab, all: set<int>, a: int)
    requires Inv(S, all) && a in S.zones && S.zones[a].nfree == S.zones[a].nmax
    ensures |S.lists| == NZONES && S.zones[a].cls < NZONES
    ensures var S' := RetireF(S, a);
            && Almost(S', all) && |S'.spare| <= 3 && S'.spare[0] == a
            && forall b, i :: Live(S', b, i) <==> Live(S, b, i)
  {
    hide Inv, PagesOk, ZonesOk, Listed, ZoneOk;
    Parts(S, all);
    ZoneAt(S.zones, S.zoneSize, a);
    ZonesSet(S.zones, S.zoneSize, a, S.zones[a]);
    ListedUnlinked(S.zones, S.lists, a);
    NoneLive(S.zones[a], S.zoneSize);
    var S' := RetireF(S, a);
    assert S'.zones.Keys == S.zones.Keys - {a};
    assert a !in S.spare by { NotSpare(S, a); }
    MembersCons(a, S.spare);
    assert Zoned(S') == Zoned(S) && Members(S'.spare) !! S'.zones.Keys;
    MovedPages(S, S', all);
  }

  lemma NotSpare(S: Slab, a: int)
    requires Members(S.spare) !! S.zones.Keys && a in S.zones
    ensures a !in S.spare
  {
    assert a in S.spare ==> a in Members(S.spare);
  }

  lemma MembersCons(a: int, s: seq<int>)
    ensures Members([a] + s) == Members(s) + {a} && (Distinct(s) && a !in s ==> Distinct([a] + s))
  {
  }

  lemma ReleaseLaw(S: Slab, all: set<int>)
    requires Almost(S, all) && |S.spare| == 3
    ensures var S', b := ReleaseF(S), P.Pages(S.spare[0], ZonePages(S));
            && Inv(S', all) && b in S'.transit && b !in S.transit
            && forall c, i :: Live(S', c, i) <==> Live(S, c, i)
  {
    hide ZonesOk, Listed, ZoneOk, FreeUsage;
    ReleasePages(S, all);
    SpareFirst(S.spare);
    var S', b := ReleaseF(S), P.Pages(S.spare[0], ZonePages(S));
    BlocksIn(Zoned(S), S.spare[0], ZonePages(S));
    Whole(S', all);
  }

  lemma SettleLaw(S: Slab, all: set<int>, a: int)
    requires Inv(S, all) && a in S.zones && S.zones[a].nfree > 0
    ensures |S.lists| == NZONES && S.zones[a].cls < NZONES
    ensures var (S', gone) := SettleF(S, a);
            var retired, b := (forall i :: !Live(S, a, i)) && OtherRoom(S, a), P.Pages(a, ZonePages(S));
            && Inv(S', all) && (forall b, i :: Live(S', b, i) <==> Live(S, b, i)) && OnlyZone(S, S', a)
            && (a in S'.zones <==> !retired) && (gone <==> retired && |S.spare| == 2)
            && S'.zoneSize == S.zoneSize && S'.store == S.store && S'.large == S.large
            && (if gone then
                  && S'.spare == S.spare && S'.transit == S.transit + {b} && OnlyInside(S.usage, S'.usage, b)
                  && FreeAt(S'.usage, a, b.count)
                else SamePlaces(S, S') && S'.spare == if retired then [a] + S.spare else S.spare)
  {
    hide Inv, ZoneOk, Listed, ZonesOk, PagesOk, RetireF, ReleaseF, Live, OtherRoom, OnlyInside, FreeAt;
    Parts(S, all);
    ZoneAt(S.zones, S.zoneSize, a);
    AllFreeIs(S, a);
    OtherListed(S, a);
    if S.zones[a].nfree == S.zones[a].nmax && S.lists[S.zones[a].cls] != [a] {
      RetireLaw(S, all, a);
      RetireSpare(S, a);
      if |S.spare| == 2 {
        ReleaseLaw(RetireF(S, a), all);
        ReleaseIs(RetireF(S, a), a);
      } else {
        Whole(RetireF(S, a), all);
      }
    }
  }

  // A zone has all its chunks free exactly if none is in a caller's hands.
  lemma AllFreeIs(S: Slab, a: int)
    requires a in S.zones && ZoneOk(S.zones[a], S.zoneSize)
    ensures S.zones[a].nfree == S.zones[a].nmax <==> forall i :: !Live(S, a, i)
  {
    hide ChunkCount, ChunkOf, Offset;
    var z := S.zones[a];
    if z.nfree == z.nmax { NoneLive(z, S.zoneSize); }
    if forall i :: !Live(S, a, i) {
      forall j: nat | j < z.uindex + 1
        ensures j in z.free
      {
        assert !Live(S, a, j);
      }
      Enough(z.free, z.uindex + 1);
      TooMany(z.free, z.uindex + 1);
    }
  }

  lemma {:induction false} Enough(free: seq<nat>, n: nat)
    requires Distinct(free) && forall j: nat :: j < n ==> j in free
    ensures |free| >= n
    decreases n
  {
    if n > 0 {
      RemoveDistinct(free, n - 1);
      Enough(Remove(free, n - 1), n - 1);
    }
  }

  // A zone with room is the only one listed of its class exactly if no other one has room.
  lemma OtherListed(S: Slab, a: int)
    requires Listed(S.zones, S.lists) && a in S.zones && S.zones[a].cls < NZONES && S.zones[a].nfree > 0
    ensures S.lists[S.zones[a].cls] != [a] <==> OtherRoom(S, a)
  {
    var c := S.zones[a].cls;
    var s := S.lists[c];
    assert a in s && Distinct(s);
    if s != [a] {
      var b := if s[0] == a then s[1] else s[0];
      assert b in s && b != a;
      assert b in S.zones && S.zones[b].cls == c && S.zones[b].nfree > 0;
    }
    if OtherRoom(S, a) {
      var b :| b in S.zones && b != a && S.zones[b].cls == c && S.zones[b].nfree > 0;
      assert b in s;
    }
  }

  lemma ReleaseIs(S: Slab, a: int)
    requires S.spare != [] && S.spare[0] == a
    ensures var S', b := ReleaseF(S), P.Pages(a, ZonePages(S));
            && S'.zones == S.zones && S'.spare == S.spare[1..] && S'.zoneSize == S.zoneSize && S'.store == S.store
            && S'.large == S.large && S'.transit == S.transit + {b} && OnlyInside(S.usage, S'.usage, b)
            && FreeAt(S'.usage, a, b.count)
  {
    hide FreeUsage;
    FreeUsageIs(S.usage, a, ZonePages(S));
  }

  // No chunk of zone a but chunk j is in a caller's hands.
  ghost predicate LastChunk(S: Slab, a: int, j: nat) {
    forall i :: Live(S, a, i) ==> i == j
  }

  // Another zone of the same class has room.
  ghost predicate OtherRoom(S: Slab, a: int)
    requires a in S.zones
  {
    exists b :: b in S.zones && b != a && S.zones[b].cls == S.zones[a].cls && S.zones[b].nfree > 0
  }

  // rt_free takes exactly its chunk out of callers' hands. The zone is given up exactly if none of its chunks
  // is in use any more and another zone of its class has room; then it becomes a spare one or, if two are
  // spare already, its pages are marked free and go back. Nothing else changes.
  lemma GiveLaw(S: Slab, all: set<int>, a: int, j: nat)
    requires Inv(S, all) && Live(S, a, j)
    ensures |S.lists| == NZONES && a in S.zones && S.zones[a].cls < NZONES
    ensures var (S', gone) := GiveF(S, a, j);
            var retired, b := LastChunk(S, a, j) && OtherRoom(S, a), P.Pages(a, ZonePages(S));
            && Inv(S', all) && Lost(S, S', a, j) && OnlyZone(S, S', a)
            && (a in S'.zones <==> !retired) && (gone <==> retired && |S.spare| == 2)
            && S'.zoneSize == S.zoneSize && S'.store == S.store && S'.large == S.large
            && (if gone then
                  && S'.spare == S.spare && S'.transit == S.transit + {b} && OnlyInside(S.usage, S'.usage, b)
                  && FreeAt(S'.usage, a, b.count)
                else SamePlaces(S, S') && S'.spare == if retired then [a] + S.spare else S.spare)
  {
    hide Inv, BackF, SettleF, Live, LastChunk, OtherRoom, Lost, OnlyZone, OnlyInside, FreeAt;
    BackLaw(S, all, a, j);
    BackSpare(S, a, j);
    var S1 := BackF(S, a, j);
    SettleLaw(S1, all, a);
    LastIs(S, S1, a, j);
    RoomIs(S, S1, a);
    ThenLost(S, S1, GiveF(S, a, j).0, a, j);
  }

  lemma LastIs(S: Slab, S1: Slab, a: int, j: nat)
    requires Lost(S, S1, a, j)
    ensures LastChunk(S, a, j) <==> forall i :: !Live(S1, a, i)
  {
    hide Live;
    if forall i :: !Live(S1, a, i) {
      forall i | Live(S, a, i)
        ensures i == j
      {
        assert !Live(S1, a, i);
      }
    }
  }

  lemma RoomIs(S: Slab, S1: Slab, a: int)
    requires OnlyZone(S, S1, a) && a in S.zones && a in S1.zones && S1.zones[a].cls == S.zones[a].cls
    ensures OtherRoom(S, a) <==> OtherRoom(S1, a)
  {
  }

  lemma ThenLost(S: Slab, S1: Slab, S': Slab, a: int, j: nat)
    requires Lost(S, S1, a, j) && OnlyZone(S, S1, a) && OnlyZone(S1, S', a)
    requires forall b, i :: Live(S', b, i) <==> Live(S1, b, i)
    ensures Lost(S, S', a, j) && OnlyZone(S, S', a)
  {
    hide Live;
  }

  lemma BackSpare(S: Slab, a: int, j: nat)
    requires a in S.zones && S.zones[a].cls < |S.lists|
    ensures var S' := BackF(S, a, j);
            && S'.spare == S.spare && |S'.lists| == |S.lists| && a in S'.zones && S'.zones[a].cls == S.zones[a].cls
            && SamePlaces(S, S') && OnlyZone(S, S', a)
  {
  }

  lemma RetireSpare(S: Slab, a: int)
    requires a in S.zones && S.zones[a].cls < |S.lists|
    ensures RetireF(S, a).spare == [a] + S.spare && a !in RetireF(S, a).zones
    ensures SamePlaces(S, RetireF(S, a)) && OnlyZone(S, RetireF(S, a), a)
  {
  }

  // ----- pages and large blocks

  ghost predicate SameZones(S: Slab, S': Slab) {
    S'.zoneSize == S.zoneSize && S'.zones == S.zones && S'.lists == S.lists && S'.spare == S.spare
  }

  lemma GrabLaw(S: Slab, all: set<int>, n: int)
    requires Inv(S, all) && n > 0
    ensures var (S', r) := GrabF(S, n);
            && Inv(S', all) && r == P.Alloc(S.store.runs, n).1 && SameZones(S, S') && S'.usage == S.usage
            && S'.large == S.large && S'.transit == S.transit + (if r.Some? then {P.Pages(r.value, n)} else {})
            && (r.Some? ==> P.Pages(r.value, n) !in S.transit)
            && forall b, i :: Live(S', b, i) <==> Live(S, b, i)
  {
    hide Listed, ZonesOk, P.Whole, P.Of;
    P.ApplyWhole(S.store, P.Taken(n), all);
    var (S', r) := GrabF(S, n);
    if r.Some? {
      var b := P.Pages(r.value, n);
      NewBlock(S, all, n);
      assert Zoned(S') == Zoned(S);
    }
  }

  lemma NewBlock(S: Slab, all: set<int>, n: int)
    requires Owned(S, all) && n > 0 && P.Alloc(S.store.runs, n).1.Some?
    ensures P.Pages(P.Alloc(S.store.runs, n).1.value, n) !in S.store.out
  {
    var a := P.Alloc(S.store.runs, n).1.value;
    P.TakeLaw(S.store.runs, n);
    assert a in P.Range(a, n) && a in P.Of(S.store.runs);
  }

  lemma ReturnLaw(S: Slab, all: set<int>, b: P.Pages)
    requires Inv(S, all) && b in S.transit
    ensures var S' := ReturnF(S, b);
            && Inv(S', all) && P.Of(S'.store.runs) == P.Of(S.store.runs) + P.Range(b.start, b.count)
            && SameZones(S, S') && S'.usage == S.usage && S'.large == S.large && S'.transit == S.transit - {b}
            && forall c, i :: Live(S', c, i) <==> Live(S, c, i)
  {
    hide Listed, ZonesOk, P.Whole, P.Of, P.Range, P.Free, SmallAt;
    P.ApplyWhole(S.store, P.Given(b), all);
    OutFree(S.store, all, b);
    P.FreeLaw(S.store.runs, b.start, b.count);
    var S' := ReturnF(S, b);
    assert Zoned(S') == Zoned(S);
  }

  lemma OutFree(store: P.Store, all: set<int>, b: P.Pages)
    requires P.Whole(store, all) && b in store.out
    ensures P.Sound(store.runs) && b.count > 0 && P.Range(b.start, b.count) !! P.Of(store.runs)
  {
  }

  lemma MarkLaw(S: Slab, all: set<int>, b: P.Pages)
    requires Inv(S, all) && b in S.transit
    ensures Inv(MarkF(S, b), all) && forall c, i :: Live(MarkF(S, b), c, i) <==> Live(S, c, i)
    ensures var S' := MarkF(S, b);
            && SameZones(S, S') && S'.store == S.store && OnlyInside(S.usage, S'.usage, b)
            && b in S'.large && S'.large == S.large + {b} && S'.transit == S.transit - {b}
  {
    hide Listed, ZonesOk, P.Whole, SmallAt;
    var S' := MarkF(S, b);
    assert Zoned(S') == Zoned(S);
    OutPositive(S, all, b);
    MarksStay(S, all, b, S'.usage);
    ZonesNot(S, b);
  }

  lemma UnmarkLaw(S: Slab, all: set<int>, b: P.Pages)
    requires Inv(S, all) && b in S.large
    ensures Inv(UnmarkF(S, b), all) && forall c, i :: Live(UnmarkF(S, b), c, i) <==> Live(S, c, i)
    ensures b.start in S.usage && S.usage[b.start] == Large(b.count)
    ensures var S' := UnmarkF(S, b);
            && SameZones(S, S') && S'.store == S.store && OnlyInside(S.usage, S'.usage, b)
            && S'.usage[b.start] == Large(0) && S'.large == S.large - {b} && S'.transit == S.transit + {b}
  {
    hide Listed, ZonesOk, P.Whole, SmallAt;
    var S' := UnmarkF(S, b);
    assert Zoned(S') == Zoned(S);
    OutPositive(S, all, b);
    MarksStay(S, all, b, S'.usage);
    ZonesNot(S, b);
  }

  lemma OutPositive(S: Slab, all: set<int>, b: P.Pages)
    requires Owned(S, all) && b in S.store.out
    ensures b.count > 0
  {
  }

  lemma ZonesNot(S: Slab, b: P.Pages)
    requires b !in Blocks(Zoned(S), ZonePages(S))
    ensures forall a :: a in Zoned(S) ==> P.Pages(a, ZonePages(S)) != b
  {
    forall a | a in Zoned(S)
      ensures P.Pages(a, ZonePages(S)) != b
    {
      BlocksIn(Zoned(S), a, ZonePages(S));
    }
  }
}
