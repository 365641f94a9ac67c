// rt-thread/src/slab.c, the zones: zone_array and zone_free are singly linked lists through the z_next
// field of the zone headers, which is a map here, rewritten in place; the other header fields of a zone
// are one record. The loops of rt_malloc and rt_free over zones and pages are those of the program.
module SlabZoneTable {
  import opened Wrappers
  import opened Rings
  import opened SlabClasses
  import P = SlabPages
  import opened SlabZones

  const NULL: int := -1
  const ARRAY: int := -2         // stands for the link zone_array[i]

  ghost function At(list: seq<int>, i: nat): int {
    if i < |list| then list[i] else NULL
  }

  ghost predicate LinkedAt(next: map<int, int>, list: seq<int>, i: nat)
    requires i < |list|
  {
    list[i] >= 0 && list[i] in next && next[list[i]] == At(list, i + 1)
  }

  // The z_next links from `head` on lead through `list`.
  ghost predicate Threaded(next: map<int, int>, head: int, list: seq<int>) {
    head == At(list, 0) && forall i :: 0 <= i < |list| ==> LinkedAt(next, list, i)
  }

  lemma ThreadedFrame(next: map<int, int>, next': map<int, int>, head: int, list: seq<int>)
    requires Threaded(next, head, list) && forall a :: a in list && a in next ==> a in next' && next'[a] == next[a]
    ensures Threaded(next', head, list)
  {
    forall i | 0 <= i < |list|
      ensures LinkedAt(next', list, i)
    {
      assert LinkedAt(next, list, i) && list[i] in list;
    }
  }

  lemma ThreadedPush(next: map<int, int>, head: int, list: seq<int>, a: int)
    requires Threaded(next, head, list) && a !in list && a >= 0
    ensures Threaded(next[a := head], a, [a] + list)
  {
    var next', list' := next[a := head], [a] + list;
    forall i | 0 <= i < |list'|
      ensures LinkedAt(next', list', i)
    {
      if i > 0 { assert LinkedAt(next, list, i - 1) && list[i - 1] in list; }
    }
  }

  lemma ThreadedTail(next: map<int, int>, head: int, list: seq<int>)
    requires Threaded(next, head, list) && list != []
    ensures head == list[0] >= 0 && head in next && Threaded(next, next[head], list[1..])
  {
    assert LinkedAt(next, list, 0);
    var rest := list[1..];
    forall i | 0 <= i < |rest|
      ensures LinkedAt(next, rest, i)
    {
      assert LinkedAt(next, list, i + 1);
    }
  }

  // Which link leads to entry k, and what writing through it changes.
  ghost function Link(list: seq<int>, k: nat): int
    requires k <= |list|
  {
    if k == 0 then ARRAY else list[k - 1]
  }

  lemma ThreadedUnlink(next: map<int, int>, head: int, list: seq<int>, k: nat)
    requires Threaded(next, head, list) && Distinct(list) && k < |list|
    ensures list[k] in next
    ensures var l, x := Link(list, k), next[list[k]];
            && (l == ARRAY <==> k == 0)
            && Threaded(if l == ARRAY then next else next[l := x], if l == ARRAY then x else head, Drop(list, k))
  {
    assert LinkedAt(next, list, k) && (k > 0 ==> LinkedAt(next, list, k - 1));
    var l, x, list' := Link(list, k), next[list[k]], Drop(list, k);
    assert forall i :: 0 <= i < |list'| ==> list'[i] == list[if i < k then i else i + 1];
    var next' := if l == ARRAY then next else next[l := x];
    forall i | 0 <= i < |list'|
      ensures LinkedAt(next', list', i)
    {
      assert LinkedAt(next, list, if i < k then i else i + 1);
    }
  }

  // Where the link to entry k leads.
  lemma LinkedHere(next: map<int, int>, head: int, list: seq<int>, k: nat)
    requires Threaded(next, head, list) && k <= |list|
    ensures Link(list, k) == ARRAY ==> At(list, k) == head
    ensures Link(list, k) != ARRAY ==> Link(list, k) in next && next[Link(list, k)] == At(list, k)
    ensures k < |list| ==> list[k] in next && list[k] != NULL && Link(list, k + 1) == list[k] != ARRAY
  {
    if k > 0 { assert LinkedAt(next, list, k - 1); }
    if k < |list| { assert LinkedAt(next, list, k); }
  }

  lemma OnlyOne(next: map<int, int>, head: int, list: seq<int>, a: int)
    requires Threaded(next, head, list) && Distinct(list) && a in list && a >= 0
    ensures a in next && (next[a] != NULL || head != a <==> list != [a])
  {
    var k :| 0 <= k < |list| && list[k] == a;
    assert LinkedAt(next, list, k);
    if k + 1 < |list| { assert LinkedAt(next, list, k + 1); }
    if k == 0 && |list| == 1 { assert list == [a]; }
  }

  class ZoneTable {
    const zoneSize: int
    const heads: array<int>          // zone_array
    var next: map<int, int>          // z_next
    var zones: map<int, Zone>
    var free: int                    // zone_free
    var freeCount: int               // zone_free_cnt
    var usage: map<int, Usage>       // memusage
    ghost var lists: seq<seq<int>>
    ghost var spare: seq<int>
    ghost var store: P.Store
    ghost var large: set<P.Pages>
    ghost var transit: set<P.Pages>
    ghost var all: set<int>

    ghost function View(): Slab
      reads this
    {
      Slab(zoneSize, zones, lists, spare, usage, store, large, transit)
    }

    ghost predicate Linked()
      reads `next, `lists, `spare, `free, `freeCount, `zones, heads
    {
      && heads.Length == |lists| == NZONES
      && (forall i :: 0 <= i < NZONES ==> Threaded(next, heads[i], lists[i]))
      && Threaded(next, free, spare) && freeCount == |spare|
      && (forall a :: a in zones ==> a >= 0)
    }

    ghost predicate Valid()
      reads this, heads
    {
      Inv(View(), all) && Linked()
    }

    // The tables after rt_system_heap_init; the page blocks already taken are in transit.
    constructor (zoneSize: int, usage: map<int, Usage>, ghost store: P.Store, ghost all: set<int>)
      requires ZoneSize(zoneSize) && P.Whole(store, all)
      ensures Valid() && fresh(heads) && this.all == all
      ensures View() == Slab(zoneSize, map[], seq(NZONES, _ => []), [], usage, store, {}, store.out)
    {
      this.zoneSize := zoneSize;
      heads := new int[NZONES](_ => NULL);
      next := map[];
      zones := map[];
      free := NULL;
      freeCount := 0;
      this.usage := usage;
      lists := seq(NZONES, _ => []);
      spare := [];
      this.store := store;
      large := {};
      transit := store.out;
      this.all := all;
      new;
      assert Zoned(View()) == {} && Blocks({}, ZonePages(View())) == {};
    }

    // ----- rt_malloc of a size that zones are used for

    // No zone is on two lists.
    lemma OnOneList(c: nat, a: int)
      requires Valid() && c < NZONES && a in lists[c]
      ensures a in zones && a >= 0 && a !in spare && Distinct(lists[c])
      ensures forall i :: 0 <= i < NZONES && i != c ==> a !in lists[i]
    {
      hide Owned, Mapped, ZonesOk;
      assert Listed(zones, lists);
      NotSpare(View(), a);
    }

    // Changing the link of a zone on no other list leaves the other lists alone.
    lemma OthersStay(next': map<int, int>, c: nat, a: int)
      requires Linked() && c < NZONES && (forall b :: b in next && b != a ==> b in next' && next'[b] == next[b])
      ensures (forall i :: 0 <= i < NZONES && i != c ==> a !in lists[i]) ==>
                forall i :: 0 <= i < NZONES && i != c ==> Threaded(next', heads[i], lists[i])
      ensures a !in spare ==> Threaded(next', free, spare)
    {
      if forall i :: 0 <= i < NZONES && i != c ==> a !in lists[i] {
        forall i | 0 <= i < NZONES && i != c
          ensures Threaded(next', heads[i], lists[i])
        {
          ThreadedFrame(next, next', heads[i], lists[i]);
        }
      }
      if a !in spare { ThreadedFrame(next, next', free, spare); }
    }

    // The first zone of class c serves.
    method Serve(c: nat) returns (a: int, j: nat)
      requires Valid() && c < NZONES && heads[c] != NULL
      modifies this, heads
      ensures Valid() && all == old(all)
      ensures CanServe(old(View()), c) && (View(), a, j) == ServeF(old(View()), c)
    {
      hide Inv, Linked, TakeChunk, Listed;
      ghost var S := View();
      NotEmpty(c);
      ServeLaw(S, all, c);
      a := heads[c];
      ghost var z0 := zones[a];
      var z := zones[a].(nfree := zones[a].nfree - 1);
      assert z.(nfree := z.nfree + 1) == z0;
      if z.nfree == 0 {
        Unlist(c, a);
      }
      z, j := TakeFrom(z);
      Rewrite(a, z);
    }

    // A header of a zone in use is changed.
    method Rewrite(a: int, z: Zone)
      requires Linked() && a in zones
      modifies `zones
      ensures Linked() && zones == old(zones)[a := z]
    {
      zones := zones[a := z];
    }

    // The first zone of class c leaves the list.
    method Unlist(c: nat, a: int)
      requires Valid() && c < NZONES && lists[c] != [] && a == lists[c][0]
      modifies `next, `lists, heads
      ensures Linked() && lists == old(lists)[c := old(lists)[c][1..]]
    {
      hide Inv, Threaded;
      assert a in lists[c];
      OnOneList(c, a);
      ThreadedTail(next, heads[c], lists[c]);
      ThreadedFrameTail(c, a);
      OthersStay(next[a := NULL], c, a);
      heads[c] := next[a];
      next := next[a := NULL];
      lists := lists[c := lists[c][1..]];
    }

    lemma NotEmpty(c: nat)
      requires Linked() && c < NZONES
      ensures heads.Length == |lists| == NZONES
      ensures heads[c] != NULL <==> lists[c] != []
      ensures lists[c] != [] ==> heads[c] == lists[c][0]
    {
      assert Threaded(next, heads[c], lists[c]);
      if lists[c] != [] { assert LinkedAt(next, lists[c], 0); }
    }

    lemma ThreadedFrameTail(c: nat, a: int)
      requires Linked() && c < NZONES && lists[c] != [] && lists[c][0] == a && Distinct(lists[c]) && a in next
      ensures Threaded(next[a := NULL], next[a], lists[c][1..])
    {
      ThreadedTail(next, heads[c], lists[c]);
      assert lists[c] == [a] + lists[c][1..];
      ThreadedFrame(next, next[a := NULL], next[a], lists[c][1..]);
    }

    // A chunk of a zone whose free count has been lowered.
    method TakeFrom(z0: Zone) returns (z: Zone, j: nat)
      requires z0.nfree >= 0 && (z0.uindex + 1 == z0.nmax ==> z0.free != [])
      ensures (z, j) == TakeChunk(z0.(nfree := z0.nfree + 1)) && z.nfree == z0.nfree
    {
      z := z0;
      if z.uindex + 1 != z.nmax {
        z := z.(uindex := z.uindex + 1);
        j := z.uindex;
      } else {
        j := z.free[0];
        z := z.(free := z.free[1..]);
      }
    }

    // A zone is set up at page a for requests of n bytes, and listed for its class.
    method MakeZone(a: int, n: int)
      requires Linked() && a >= 0 && a !in spare && (forall i :: 0 <= i < NZONES ==> a !in lists[i])
      requires ZoneSize(zoneSize) && 0 < n < Limit(zoneSize)
      modifies `zones, `next, `lists, heads
      ensures Linked() && zones == old(zones)[a := FreshZone(zoneSize, n)]
      ensures var c := FreshZone(zoneSize, n).cls;
              |old(lists)| == NZONES && lists == old(lists)[c := [a] + old(lists)[c]]
    {
      hide FreshZone, Threaded, Limit;
      var z := FreshZone(zoneSize, n);
      zones := zones[a := z];
      PushZone(z.cls, a);
    }

    // z->z_next = zone_array[c]; zone_array[c] = z
    method PushZone(c: nat, a: int)
      requires Linked() && c < NZONES && a >= 0 && a !in spare && (forall i :: 0 <= i < NZONES ==> a !in lists[i])
      modifies `next, `lists, heads
      ensures Linked() && |old(lists)| == NZONES && lists == old(lists)[c := [a] + old(lists)[c]]
    {
      hide Threaded;
      ThreadedPush(next, heads[c], lists[c], a);
      OthersStay(next[a := heads[c]], c, a);
      next := next[a := heads[c]];
      heads[c] := a;
      lists := lists[c := [a] + lists[c]];
    }

    // A zone outside the lists of zones with room.
    lemma OnNoList(a: int)
      requires Inv(View(), all) && (a !in zones || zones[a].nfree == 0)
      ensures |lists| == NZONES && forall i :: 0 <= i < NZONES ==> a !in lists[i]
    {
      hide Owned, Mapped, ZonesOk;
    }

    // The first spare zone serves.
    method Renew(n: int) returns (a: int)
      requires Valid() && free != NULL && 0 < n < Limit(zoneSize)
      modifies this, heads
      ensures Valid() && all == old(all)
      ensures old(spare) != [] && a == old(spare)[0] && ZoneSize(zoneSize) && |old(lists)| == NZONES
      ensures View() == RenewF(old(View()), n)
    {
      hide Inv, Threaded, FreshZone, Limit;
      ghost var S := View();
      SpareHead();
      RenewLaw(S, all, n);
      SpareOff(spare[0]);
      ThreadedTail(next, free, spare);
      a := free;
      free := next[a];
      freeCount := freeCount - 1;
      spare := spare[1..];
      MakeZone(a, n);
    }

    lemma SpareHead()
      requires Threaded(next, free, spare)
      ensures free != NULL <==> spare != []
      ensures spare != [] ==> free == spare[0] >= 0
    {
      if spare != [] { assert LinkedAt(next, spare, 0); }
    }

    lemma SpareOff(a: int)
      requires Inv(View(), all) && spare != [] && a == spare[0]
      ensures a !in spare[1..] && |lists| == NZONES && forall i :: 0 <= i < NZONES ==> a !in lists[i]
    {
      hide Owned, Mapped, ZonesOk, Listed;
      SpareFirst(spare);
      assert a in Members(spare) && a !in zones;
      OnNoList(a);
      MembersAre(spare[1..], a);
    }

    static lemma MembersAre(s: seq<int>, a: int)
      ensures a in s <==> a in Members(s)
    {
    }

    // The pages of block b become a zone.
    method Found(b: P.Pages, n: int)
      requires Valid() && b in transit && b.start >= 0 && b.count == zoneSize / PAGE && 0 < n < Limit(zoneSize)
      modifies this, heads
      ensures Valid() && all == old(all) && ZoneSize(zoneSize) && |old(lists)| == NZONES
      ensures View() == FoundF(old(View()), b, n)
    {
      hide Inv, Threaded, FreshZone, Limit, SmallUsage;
      ghost var S := View();
      FoundLaw(S, all, b, n);
      NewZone(b.start, b);
      var off := 0;
      SmallNone(usage, b.start);
      while off < zoneSize / PAGE
        invariant 0 <= off <= zoneSize / PAGE && usage == SmallUsage(S.usage, b.start, off)
        invariant Linked() && View() == S.(usage := usage) && all == old(all)
      {
        SmallOne(S.usage, b.start, off + 1);
        usage := usage[b.start + off := Small(off)];
        off := off + 1;
      }
      transit := transit - {b};
      MakeZone(b.start, n);
    }

    static lemma SmallNone(usage: map<int, Usage>, a: int)
      ensures SmallUsage(usage, a, 0) == usage
    {
    }

    static lemma SmallOne(usage: map<int, Usage>, a: int, k: int)
      requires k > 0
      ensures SmallUsage(usage, a, k) == SmallUsage(usage, a, k - 1)[a + k - 1 := Small(k - 1)]
    {
    }

    lemma NewZone(a: int, b: P.Pages)
      requires Inv(View(), all) && b in transit && b.start == a && b.count == zoneSize / PAGE
      ensures a !in spare && |lists| == NZONES && forall i :: 0 <= i < NZONES ==> a !in lists[i]
    {
      hide Mapped, ZonesOk, Listed, P.Whole;
      BlocksIn(Zoned(View()), a, ZonePages(View()));
      assert b == P.Pages(a, ZonePages(View()));
      assert a !in zones && (a in spare ==> a in Members(spare));
      OnNoList(a);
    }

    // ----- rt_free of a chunk

    // rt_free of chunk j of zone a, up to the release of the lock; `gone` tells that the pages of the
    // first spare zone are to be given back.
    method Give(a: int, j: nat) returns (gone: bool)
      requires Valid() && Live(View(), a, j)
      modifies this, heads
      ensures Valid() && all == old(all) && a in old(zones) && old(zones)[a].cls < |old(lists)|
      ensures (View(), gone) == GiveF(old(View()), a, j)
    {
      hide Inv, Linked, BackF, SettleF, Live;
      BackLaw(View(), all, a, j);
      Back(a, j);
      gone := Settle(a);
    }

    // A zone without a chunk in use is retired, unless it is the only one listed of its class.
    method Settle(a: int) returns (gone: bool)
      requires Valid() && a in zones && zones[a].nfree > 0
      modifies this, heads
      ensures Valid() && all == old(all) && a in old(zones) && old(zones)[a].cls < |old(lists)|
      ensures (View(), gone) == SettleF(old(View()), a)
    {
      hide Inv, Linked, RetireF, ReleaseF;
      SettleLaw(View(), all, a);
      Alone(a);
      var c := zones[a].cls;
      RetireSpare(View(), a);
      if zones[a].nfree == zones[a].nmax && (next[a] != NULL || heads[c] != a) {
        Retire(a, c);
        Counted();
        if freeCount > 2 {
          Release();
          return true;
        }
      }
      return false;
    }

    lemma Counted()
      requires Linked()
      ensures freeCount == |spare|
    {
    }

    // The chunk joins the free ones of its zone, which is listed if it was not.
    method Back(a: int, j: nat)
      requires Valid() && Live(View(), a, j)
      modifies `zones, `next, `lists, heads
      ensures Linked() && a in old(zones) && old(zones)[a].cls < |old(lists)| && View() == BackF(old(View()), a, j)
    {
      hide Inv, Threaded;
      ghost var S := View();
      BackLaw(S, all, a, j);
      var z := zones[a];
      zones := zones[a := GiveChunk(z, j)];
      if z.nfree == 0 {
        InUse(S, a);
        PushZone(z.cls, a);
      }
    }

    lemma InUse(S: Slab, a: int)
      requires Inv(S, all) && a in S.zones && S.zones[a].nfree == 0
      ensures a !in S.spare && |S.lists| == NZONES && forall i :: 0 <= i < NZONES ==> a !in S.lists[i]
    {
      hide Owned, Mapped, ZonesOk;
      NotSpare(S, a);
    }

    // Whether a zone is the only one listed of its class.
    lemma Alone(a: int)
      requires Valid() && a in zones && zones[a].nfree > 0 && zones[a].cls < NZONES
      ensures heads.Length == |lists| == NZONES && a in next && freeCount == |spare|
      ensures next[a] != NULL || heads[zones[a].cls] != a <==> lists[zones[a].cls] != [a]
    {
      hide Owned, Mapped, ZonesOk, Threaded;
      var c := zones[a].cls;
      assert Listed(zones, lists) && a in lists[c];
      OnlyOne(next, heads[c], lists[c], a);
    }

    // *pz
    function Deref(link: int, c: nat): int
      requires c < heads.Length && (link != ARRAY ==> link in next)
      reads `next, heads
    {
      if link == ARRAY then heads[c] else next[link]
    }

    // The loop that finds the link to zone a ends, because a is on the list.
    method FindLink(a: int, c: nat) returns (pz: int, ghost k: nat)
      requires Linked() && c < NZONES && a in lists[c] && Distinct(lists[c])
      ensures k < |lists[c]| && lists[c][k] == a && pz == Link(lists[c], k)
    {
      hide Threaded, Distinct;
      k := 0;
      pz := ARRAY;
      LinkedHere(next, heads[c], lists[c], 0);
      ghost var m := IndexOf(lists[c], a);
      while Deref(pz, c) != a
        invariant k <= m && pz == Link(lists[c], k) && (pz != ARRAY ==> pz in next)
        invariant Deref(pz, c) == At(lists[c], k)
        decreases |lists[c]| - k
      {
        LinkedHere(next, heads[c], lists[c], k);
        LinkedHere(next, heads[c], lists[c], k + 1);
        pz := Deref(pz, c);
        k := k + 1;
      }
    }

    // The zone leaves zone_array and becomes the first spare one.
    method Retire(a: int, c: nat)
      requires Valid() && a in zones && zones[a].cls == c < NZONES && zones[a].nfree > 0
      modifies `zones, `next, `lists, `spare, `free, `freeCount, heads
      ensures Linked() && |old(lists)| == NZONES && View() == RetireF(old(View()), a)
    {
      hide Inv, Threaded, Distinct;
      ClassList(a, c);
      OnOneList(c, a);
      var pz; ghost var k;
      pz, k := FindLink(a, c);
      IndexUnique(lists[c], k);
      ThreadedUnlink(next, heads[c], lists[c], k);
      Unlink(pz, a, c, k);
      PushSpare(a);
      zones := zones - {a};
    }

    lemma ClassList(a: int, c: nat)
      requires Inv(View(), all) && a in zones && zones[a].cls == c < NZONES && zones[a].nfree > 0
      ensures |lists| == NZONES && a in lists[c] && Distinct(lists[c])
    {
      hide Owned, Mapped, ZonesOk;
    }

    // *pz = z->z_next
    method Unlink(pz: int, a: int, c: nat, ghost k: nat)
      requires Valid() && c < NZONES && k < |lists[c]| && lists[c][k] == a && pz == Link(lists[c], k)
      modifies `next, `lists, heads
      ensures Linked() && lists == old(lists)[c := Without(old(lists)[c], a)]
      ensures a !in spare && forall i :: 0 <= i < NZONES ==> a !in lists[i]
    {
      hide Inv, Threaded;
      assert a in lists[c];
      OnOneList(c, a);
      IndexUnique(lists[c], k);
      ThreadedUnlink(next, heads[c], lists[c], k);
      WithoutIs(lists[c], a);
      if pz == ARRAY {
        heads[c] := next[a];
      } else {
        assert lists[c][k - 1] == pz && pz in lists[c];
        OnOneList(c, pz);
        OthersStay(next[pz := next[a]], c, pz);
        next := next[pz := next[a]];
      }
      lists := lists[c := Drop(lists[c], k)];
    }

    method PushSpare(a: int)
      requires Linked() && a >= 0 && a !in spare && forall i :: 0 <= i < NZONES ==> a !in lists[i]
      modifies `next, `spare, `free, `freeCount
      ensures Linked() && spare == [a] + old(spare)
    {
      hide Threaded;
      ThreadedPush(next, free, spare, a);
      AllStay(next[a := free], a);
      next := next[a := free];
      free := a;
      freeCount := freeCount + 1;
      spare := [a] + spare;
    }

    lemma AllStay(next': map<int, int>, a: int)
      requires Linked() && (forall i :: 0 <= i < NZONES ==> a !in lists[i])
      requires forall b :: b in next && b != a ==> b in next' && next'[b] == next[b]
      ensures forall i :: 0 <= i < NZONES ==> Threaded(next', heads[i], lists[i])
    {
      forall i | 0 <= i < NZONES
        ensures Threaded(next', heads[i], lists[i])
      {
        ThreadedFrame(next, next', heads[i], lists[i]);
      }
    }

    // The first spare zone leaves the list and its pages lose their marks.
    method Release()
      requires Linked() && spare != []
      modifies `spare, `free, `freeCount, `usage, `transit
      ensures Linked() && old(spare) != [] && View() == ReleaseF(old(View()))
    {
      hide Threaded, FreeUsage;
      ghost var S := View();
      SpareHead();
      ThreadedTail(next, free, spare);
      var a := free;
      free := next[a];
      freeCount := freeCount - 1;
      spare := spare[1..];
      var i := 0;
      FreeNone(usage, a);
      while i < zoneSize / PAGE
        invariant 0 <= i && (i <= zoneSize / PAGE || i == 0) && usage == FreeUsage(S.usage, a, i)
        invariant Linked() && View() == S.(usage := usage, spare := S.spare[1..])
      {
        FreeOne(S.usage, a, i + 1);
        usage := usage[a + i := FreePage];
        i := i + 1;
      }
      FreeShort(S.usage, a, zoneSize / PAGE);
      transit := transit + {P.Pages(a, zoneSize / PAGE)};
    }

    static lemma FreeNone(usage: map<int, Usage>, a: int)
      ensures FreeUsage(usage, a, 0) == usage
    {
    }

    static lemma FreeShort(usage: map<int, Usage>, a: int, k: int)
      ensures k <= 0 ==> FreeUsage(usage, a, k) == usage
    {
    }

    static lemma FreeOne(usage: map<int, Usage>, a: int, k: int)
      requires k > 0
      ensures FreeUsage(usage, a, k) == FreeUsage(usage, a, k - 1)[a + k - 1 := FreePage]
    {
    }
  }
}
