// The counters used_mem and max_mem of slab.c over whole runs of the slab allocator.
module SlabStats {
  import opened Wrappers
  import opened Rings
  import opened SlabClasses
  import P = SlabPages
  import opened SlabZones
  import opened SlabRuns

  datatype Stats = Stats(used: int, max: int)

  function Larger(a: int, b: int): int { if a < b then b else a }

  // ----- what the program counts

  function Risen(st: Stats, n: int): Stats {
    Stats(st.used + n, Larger(st.max, st.used + n))
  }

  function Fallen(st: Stats, n: int): Stats {
    Stats(st.used - n, st.max)
  }

  // Each critical section adds or subtracts the z_chunksize of its zone, or the length of a large block,
  // which rt_free takes from memusage.
  ghost function StatsF(S: Slab, all: set<int>, st: Stats, s: Step): (st': Stats)
    requires Inv(S, all) && Allowed(S, s)
  {
    Readable(S, all, s);
    match s
    case Serve(c) => Risen(st, S.zones[S.lists[c][0]].chunk)
    case Renew(n) => Risen(st, FreshZone(S.zoneSize, n).chunk)
    case Found(b, n) => Risen(st, FreshZone(S.zoneSize, n).chunk)
    case Give(a, j) => Fallen(st, S.zones[a].chunk)
    case Mark(b) => Risen(st, b.count * PAGE)
    case Unmark(b) => Fallen(st, S.usage[b.start].count * PAGE)
    case _ => st
  }

  lemma Readable(S: Slab, all: set<int>, s: Step)
    requires Inv(S, all) && Allowed(S, s)
    ensures ZoneSize(S.zoneSize)
    ensures s.Serve? ==> CanServe(S, s.c)
    ensures s.Give? ==> s.a in S.zones
    ensures s.Unmark? ==> s.b.start in S.usage && S.usage[s.b.start] == Large(s.b.count)
  {
    if s.Serve? { ServeLaw(S, all, s.c); }
  }

  // ----- what is in callers' hands

  function ZoneUse(z: Zone): int { (z.nmax - z.nfree) * z.chunk }

  // These are the bytes of the chunks of a zone in callers' hands.
  lemma ZoneUseIs(S: Slab, all: set<int>, a: int)
    requires Inv(S, all) && a in S.zones
    ensures ZoneUse(S.zones[a]) == |LiveIn(S.zones[a])| * S.zones[a].chunk
  {
    hide Inv, LiveIn;
    FreeCount(S, all, a);
  }

  ghost function ZonesUse(zones: map<int, Zone>): int
    decreases |zones|
  {
    if exists a :: a in zones then var a :| a in zones; ZoneUse(zones[a]) + ZonesUse(zones - {a}) else 0
  }

  ghost function LargeUse(large: set<P.Pages>): int {
    if large == {} then 0 else var b :| b in large; b.count * PAGE + LargeUse(large - {b})
  }

  ghost function InUse(S: Slab): int { ZonesUse(S.zones) + LargeUse(S.large) }

  lemma {:induction false} ZonesUseWithout(zones: map<int, Zone>, a: int)
    requires a in zones
    ensures ZonesUse(zones) == ZoneUse(zones[a]) + ZonesUse(zones - {a})
    decreases |zones|
  {
    hide ZoneUse;
    var b :| b in zones && ZonesUse(zones) == ZoneUse(zones[b]) + ZonesUse(zones - {b});
    if b != a {
      ZonesUseWithout(zones - {b}, a);
      ZonesUseWithout(zones - {a}, b);
      assert zones - {b} - {a} == zones - {a} - {b};
    }
  }

  lemma ZonesUsePut(zones: map<int, Zone>, a: int, z: Zone)
    ensures ZonesUse(zones[a := z]) == ZoneUse(z) + ZonesUse(zones - {a})
    ensures a !in zones ==> zones - {a} == zones
  {
    hide ZoneUse;
    ZonesUseWithout(zones[a := z], a);
    assert zones[a := z] - {a} == zones - {a};
    if a !in zones { assert zones - {a} == zones; }
  }

  lemma {:induction false} LargeUseWithout(large: set<P.Pages>, b: P.Pages)
    requires b in large
    ensures LargeUse(large) == b.count * PAGE + LargeUse(large - {b})
  {
    var c :| c in large && LargeUse(large) == c.count * PAGE + LargeUse(large - {c});
    if c != b {
      LargeUseWithout(large - {c}, b);
      LargeUseWithout(large - {b}, c);
      assert large - {c} - {b} == large - {b} - {c};
    }
  }

  // ----- the counters are exact

  // What a step adds to the bytes in callers' hands is what the program adds to used_mem.
  lemma StepUse(S: Slab, all: set<int>, s: Step)
    requires Inv(S, all) && Allowed(S, s)
    ensures StatsF(S, all, Stats(0, 0), s).used == InUse(StepF(S, all, s)) - InUse(S)
  {
    Readable(S, all, s);
    match s
    case Serve(c) => ServeUse(S, all, c);
    case Renew(n) => RenewUse(S, all, n);
    case Found(b, n) => FoundUse(S, all, b, n);
    case Give(a, j) => GiveUse(S, all, a, j);
    case _ => PagesUse(S, all, s);
  }

  lemma OneMore(z: Zone, z': Zone)
    requires z'.nmax == z.nmax && z'.chunk == z.chunk && z'.nfree == z.nfree - 1
    ensures ZoneUse(z') == ZoneUse(z) + z.chunk
  {
    Distribute(z.nmax - z.nfree, 1, z.chunk);
  }

  lemma ServeUse(S: Slab, all: set<int>, c: nat)
    requires Inv(S, all) && Allowed(S, Serve(c)) && CanServe(S, c)
    ensures InUse(ServeF(S, c).0) == InUse(S) + S.zones[S.lists[c][0]].chunk
  {
    hide Inv, ZoneUse;
    var a := S.lists[c][0];
    var z := TakeChunk(S.zones[a]).0;
    OneMore(S.zones[a], z);
    ZonesUseWithout(S.zones, a);
    ZonesUsePut(S.zones, a, z);
  }

  lemma NewZone(zones: map<int, Zone>, a: int, z: Zone)
    requires a !in zones && z.nfree == z.nmax - 1
    ensures ZonesUse(zones[a := z]) == ZonesUse(zones) + z.chunk
  {
    ZonesUsePut(zones, a, z);
    assert zones - {a} == zones;
  }

  lemma OneUsed(zoneSize: int, n: int)
    requires ZoneSize(zoneSize) && 0 < n < Limit(zoneSize)
    ensures FreshZone(zoneSize, n).nfree == FreshZone(zoneSize, n).nmax - 1
  {
    hide ChunkCount, ZoneIndex;
  }

  lemma RenewUse(S: Slab, all: set<int>, n: int)
    requires Inv(S, all) && Allowed(S, Renew(n)) && ZoneSize(S.zoneSize) && |S.lists| == NZONES
    ensures InUse(RenewF(S, n)) == InUse(S) + FreshZone(S.zoneSize, n).chunk
  {
    hide ZoneUse, ZonesOk, Listed, Owned, Mapped, FreshZone;
    assert S.spare[0] in Members(S.spare);
    OneUsed(S.zoneSize, n);
    NewZone(S.zones, S.spare[0], FreshZone(S.zoneSize, n));
  }

  lemma FoundUse(S: Slab, all: set<int>, b: P.Pages, n: int)
    requires Inv(S, all) && Allowed(S, Found(b, n)) && ZoneSize(S.zoneSize) && |S.lists| == NZONES
    ensures InUse(FoundF(S, b, n)) == InUse(S) + FreshZone(S.zoneSize, n).chunk
  {
    hide ZoneUse, ZonesOk, Listed, Mapped, FreshZone, SmallUsage, P.Whole;
    if b.start in S.zones { BlocksIn(Zoned(S), b.start, ZonePages(S)); }
    OneUsed(S.zoneSize, n);
    NewZone(S.zones, b.start, FreshZone(S.zoneSize, n));
  }

  lemma GiveUse(S: Slab, all: set<int>, a: int, j: nat)
    requires Inv(S, all) && Allowed(S, Give(a, j)) && a in S.zones && S.zones[a].cls < |S.lists|
    ensures InUse(GiveF(S, a, j).0) == InUse(S) - S.zones[a].chunk
  {
    hide Inv, FreeUsage;
    var z := GiveChunk(S.zones[a], j);
    OneMore(z, S.zones[a]);
    ZonesUseWithout(S.zones, a);
    ZonesUsePut(S.zones, a, z);
    assert S.zones[a := z] - {a} == S.zones - {a};
  }

  lemma PagesUse(S: Slab, all: set<int>, s: Step)
    requires Inv(S, all) && Allowed(S, s) && (s.Grab? || s.Return? || s.Mark? || s.Unmark?)
    ensures StatsF(S, all, Stats(0, 0), s).used == InUse(StepF(S, all, s)) - InUse(S)
  {
    hide ZonesUse, ZonesOk, Listed, P.Whole;
    if s.Mark? {
      LargeUseWithout(S.large + {s.b}, s.b);
      assert s.b !in S.large && S.large + {s.b} - {s.b} == S.large;
    } else if s.Unmark? {
      Readable(S, all, s);
      LargeUseWithout(S.large, s.b);
    }
  }

  // ----- runs

  ghost function RunStats(S: Slab, all: set<int>, st: Stats, steps: seq<Step>): (st': Stats)
    requires Inv(S, all) && AllowedRun(S, all, steps)
    decreases |steps|
  {
    if steps == [] then st else RunStats(StepF(S, all, steps[0]), all, StatsF(S, all, st, steps[0]), steps[1..])
  }

  // The most bytes in callers' hands at any time of a run.
  ghost function Peak(S: Slab, all: set<int>, steps: seq<Step>): int
    requires Inv(S, all) && AllowedRun(S, all, steps)
    decreases |steps|
  {
    if steps == [] then InUse(S) else Larger(InUse(S), Peak(StepF(S, all, steps[0]), all, steps[1..]))
  }

  // Only what adds to used_mem can raise max_mem; the other steps do not add.
  lemma StepStats(S: Slab, all: set<int>, st: Stats, s: Step)
    requires Inv(S, all) && Allowed(S, s) && st.used == InUse(S) <= st.max
    ensures StatsF(S, all, st, s) == Stats(InUse(StepF(S, all, s)), Larger(st.max, InUse(StepF(S, all, s))))
  {
    hide InUse, StepF, FreshZone, Inv, CanServe;
    StepUse(S, all, s);
    if s.Give? { ChunkPositive(S, all, s.a); }
    if s.Unmark? {
      Readable(S, all, s);
      LargePositive(S, all, s.b);
    }
  }

  lemma ChunkPositive(S: Slab, all: set<int>, a: int)
    requires Inv(S, all) && a in S.zones
    ensures S.zones[a].chunk > 0
  {
    hide Listed, Owned, Mapped;
    assert ZoneOk(S.zones[a], S.zoneSize);
  }

  lemma LargePositive(S: Slab, all: set<int>, b: P.Pages)
    requires Inv(S, all) && b in S.large
    ensures b.count > 0
  {
    hide ZonesOk, Listed, Mapped;
    OutPositive(S, all, b);
  }

  // In every interleaving used_mem is exactly the number of bytes in callers' hands, and max_mem the most
  // there ever were.
  lemma {:induction false} StatsLaw(S: Slab, all: set<int>, st: Stats, steps: seq<Step>)
    requires Inv(S, all) && AllowedRun(S, all, steps) && st.used == InUse(S) <= st.max
    ensures RunStats(S, all, st, steps)
         == Stats(InUse(Run(S, all, steps)), Larger(st.max, Peak(S, all, steps)))
    decreases |steps|
  {
    hide Inv, Allowed, StepF, StatsF, InUse;
    if steps != [] {
      StepStats(S, all, st, steps[0]);
      StatsLaw(StepF(S, all, steps[0]), all, StatsF(S, all, st, steps[0]), steps[1..]);
    }
  }

  // From initialisation on both start at zero.
  lemma StatsFromInit(zoneSize: int, usage: map<int, Usage>, store: P.Store, all: set<int>, steps: seq<Step>)
    requires ZoneSize(zoneSize) && P.Whole(store, all)
    ensures Inv(Init(zoneSize, usage, store), all)
    ensures var S := Init(zoneSize, usage, store);
            AllowedRun(S, all, steps) ==>
              RunStats(S, all, Stats(0, 0), steps) == Stats(InUse(Run(S, all, steps)), Peak(S, all, steps))
  {
    hide Inv, AllowedRun, Peak, RunStats, Run;
    InitInv(zoneSize, usage, store, all);
    var S := Init(zoneSize, usage, store);
    if AllowedRun(S, all, steps) {
      StatsLaw(S, all, Stats(0, 0), steps);
      PeakFrom(S, all, steps);
    }
  }

  lemma PeakFrom(S: Slab, all: set<int>, steps: seq<Step>)
    requires Inv(S, all) && AllowedRun(S, all, steps)
    ensures InUse(S) <= Peak(S, all, steps)
  {
  }
}
