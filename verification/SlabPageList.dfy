// rt-thread/src/slab.c, rt_page_alloc, rt_page_free and rt_page_init: a singly linked list of runs of
// free pages. The first page of a run holds `next` and `page`, which are maps from page numbers to
// values here, rewritten in place. The loops walk with a pointer to the link that leads to the current
// run: rt_page_list itself, or the `next` of the run before.
module SlabPageList {
  import opened Wrappers
  import opened SlabPages

  const NULL: int := -1
  const LIST: int := -2          // stands for the link rt_page_list

  // Where the k-th link leads, and which link that is.
  ghost function To(runs: seq<Pages>, k: nat): int {
    if k < |runs| then runs[k].start else NULL
  }

  ghost function Link(runs: seq<Pages>, k: nat): int
    requires k <= |runs|
  {
    if k == 0 then LIST else runs[k - 1].start
  }

  // What the first page of run i says.
  ghost predicate Node(next: map<int, int>, page: map<int, int>, runs: seq<Pages>, i: nat)
    requires i < |runs|
  {
    var b := runs[i];
    b.start >= 0 && b.start in next && b.start in page && next[b.start] == To(runs, i + 1) && page[b.start] == b.count
  }

  ghost predicate Listed(first: int, next: map<int, int>, page: map<int, int>, runs: seq<Pages>) {
    first == To(runs, 0) && forall i :: 0 <= i < |runs| ==> Node(next, page, runs, i)
  }

  // What writing x through a link changes.
  ghost function FirstAfter(first: int, link: int, x: int): int {
    if link == LIST then x else first
  }

  ghost function NextAfter(next: map<int, int>, link: int, x: int): map<int, int> {
    if link == LIST then next else next[link := x]
  }

  // Run k gives way to run m, which may start elsewhere.
  lemma ListedReplace(first: int, next: map<int, int>, page: map<int, int>, runs: seq<Pages>, k: nat, m: Pages)
    requires Listed(first, next, page, runs) && Sound(runs) && k < |runs| && m.start >= 0
    requires forall j :: 0 <= j < |runs| && j != k ==> runs[j].start != m.start
    ensures var l := Link(runs, k);
            Listed(FirstAfter(first, l, m.start), NextAfter(next[m.start := To(runs, k + 1)], l, m.start),
                page[m.start := m.count], runs[k := m])
  {
    assert k > 0 ==> Node(next, page, runs, k - 1);
    var next', page', runs' := NextAfter(next[m.start := To(runs, k + 1)], Link(runs, k), m.start),
        page[m.start := m.count], runs[k := m];
    forall i | 0 <= i < |runs'|
      ensures Node(next', page', runs', i)
    {
      assert Node(next, page, runs, i);
      OthersApart(runs, k, i);
    }
  }

  // Run k is taken out.
  lemma ListedRemove(first: int, next: map<int, int>, page: map<int, int>, runs: seq<Pages>, k: nat)
    requires Listed(first, next, page, runs) && Sound(runs) && k < |runs|
    ensures var l := Link(runs, k);
            Listed(FirstAfter(first, l, To(runs, k + 1)), NextAfter(next, l, To(runs, k + 1)), page,
                runs[..k] + runs[k + 1..])
  {
    var runs' := runs[..k] + runs[k + 1..];
    assert forall i :: 0 <= i < |runs'| ==> runs'[i] == runs[if i < k then i else i + 1];
    assert k > 0 ==> Node(next, page, runs, k - 1);
    var next' := NextAfter(next, Link(runs, k), To(runs, k + 1));
    forall i | 0 <= i < |runs'|
      ensures Node(next', page, runs', i)
    {
      assert Node(next, page, runs, if i < k then i else i + 1);
      OthersApart(runs, k, if i < k then i else i + 1);
    }
  }

  // Only run k - 1 starts where the k-th link lies.
  lemma OthersApart(runs: seq<Pages>, k: nat, i: nat)
    requires Sound(runs) && k <= |runs| && i < |runs|
    ensures k > 0 ==> (runs[i].start == Link(runs, k) <==> i == k - 1)
  {
    if k > 0 && i != k - 1 { assert i < k - 1 || k - 1 < i; }
  }

  // Run m is put before run k, or at the end.
  lemma ListedInsert(first: int, next: map<int, int>, page: map<int, int>, runs: seq<Pages>, k: nat, m: Pages)
    requires Listed(first, next, page, runs) && Sound(runs) && k <= |runs| && m.start >= 0
    requires forall j :: 0 <= j < |runs| ==> runs[j].start != m.start
    ensures var l := Link(runs, k);
            Listed(FirstAfter(first, l, m.start), NextAfter(next[m.start := To(runs, k)], l, m.start),
                page[m.start := m.count],
                   runs[..k] + [m] + runs[k..])
  {
    var runs' := runs[..k] + [m] + runs[k..];
    assert runs'[k] == m && forall i :: 0 <= i < |runs'| && i != k ==> runs'[i] == runs[if i < k then i else i - 1];
    assert k > 0 ==> Node(next, page, runs, k - 1);
    var next', page' := NextAfter(next[m.start := To(runs, k)], Link(runs, k), m.start), page[m.start := m.count];
    forall i | 0 <= i < |runs'|
      ensures Node(next', page', runs', i)
    {
      if i != k {
        assert Node(next, page, runs, if i < k then i else i - 1);
        OthersApart(runs, k, if i < k then i else i - 1);
      }
    }
  }

  lemma Rejoin(runs: seq<Pages>, k: nat, x: seq<Pages>)
    requires 0 < k <= |runs|
    ensures runs[1..][k - 1..] == runs[k..] && [runs[0]] + (runs[1..][..k - 1] + x) == runs[..k] + x
    ensures forall j :: 0 <= j < k - 1 ==> runs[1..][j] == runs[j + 1]
  {
  }

  lemma Nothing(runs: seq<Pages>, x: seq<Pages>)
    ensures runs[0..] == runs && runs[..0] + x == x
  {
  }

  lemma TakeStep(runs: seq<Pages>, n: int)
    requires runs != [] && runs[0].count < n
    ensures Take(runs, n) == ([runs[0]] + Take(runs[1..], n).0, Take(runs[1..], n).1)
  {
  }

  // The loop of rt_page_alloc has passed k runs.
  lemma {:induction false} TakePast(runs: seq<Pages>, n: int, k: nat)
    requires k <= |runs| && forall j :: 0 <= j < k ==> runs[j].count < n
    ensures Take(runs, n) == (runs[..k] + Take(runs[k..], n).0, Take(runs[k..], n).1)
  {
    hide Take;
    if k == 0 {
      Nothing(runs, Take(runs, n).0);
    } else {
      Rejoin(runs, k, Take(runs[k..], n).0);
      TakePast(runs[1..], n, k - 1);
      TakeStep(runs, n);
    }
  }

  // The loop of rt_page_free goes on after run b.
  ghost predicate Passed(b: Pages, a: int, n: int) {
    b.start + b.count != a && b.start <= a + n && b.start != a + n
  }

  lemma FreeStep(runs: seq<Pages>, a: int, n: int)
    requires runs != [] && Passed(runs[0], a, n)
    ensures Free(runs, a, n) == [runs[0]] + Free(runs[1..], a, n)
  {
  }

  lemma {:induction false} FreePast(runs: seq<Pages>, a: int, n: int, k: nat)
    requires k <= |runs| && forall j :: 0 <= j < k ==> Passed(runs[j], a, n)
    ensures Free(runs, a, n) == runs[..k] + Free(runs[k..], a, n)
  {
    hide Free, Passed;
    if k == 0 {
      Nothing(runs, Free(runs, a, n));
    } else {
      Rejoin(runs, k, Free(runs[k..], a, n));
      FreePast(runs[1..], a, n, k - 1);
      FreeStep(runs, a, n);
    }
  }

  class PageList {
    var first: int
    var next: map<int, int>
    var page: map<int, int>
    ghost var runs: seq<Pages>

    ghost predicate Valid()
      reads this
    {
      Sound(runs) && Listed(first, next, page, runs)
    }

    // rt_page_init
    constructor (start: int, count: int)
      requires start >= 0 && count > 0
      ensures Valid() && runs == [Pages(start, count)]
    {
      first := NULL;
      next := map[];
      page := map[];
      runs := [];
      new;
      PageFree(start, count);
    }

    // *prev = x
    method Write(link: int, x: int)
      modifies `first, `next
      ensures first == FirstAfter(old(first), link, x) && next == NextAfter(old(next), link, x)
    {
      if link == LIST {
        first := x;
      } else {
        next := next[link := x];
      }
    }

    lemma AtRun(k: nat)
      requires Listed(first, next, page, runs) && k <= |runs|
      ensures To(runs, k) == NULL <==> k == |runs|
      ensures k < |runs| ==>
                var b := runs[k].start;
                b in next && b in page && next[b] == To(runs, k + 1) && page[b] == runs[k].count && b == To(runs, k)
      ensures k < |runs| ==> Link(runs, k + 1) == runs[k].start
    {
      if k < |runs| { assert Node(next, page, runs, k); }
    }

    // rt_page_alloc
    method PageAlloc(npages: int) returns (r: Option<int>)
      requires Valid() && npages >= 0
      modifies this
      ensures Valid() && (runs, r) == Alloc(old(runs), npages)
    {
      hide Sound, Listed, To, Link;
      if npages == 0 {
        return None;
      }
      ghost var k: nat := 0;
      AtStart();
      var prev := LIST;
      var b := first;
      while b != NULL
        invariant Valid() && runs == old(runs) && k <= |runs| && b == To(runs, k) && prev == Link(runs, k)
        invariant forall j :: 0 <= j < k ==> runs[j].count < npages
        decreases |runs| - k
      {
        AtRun(k);
        if page[b] >= npages {
          Give(prev, b, npages, k);
          return Some(b);
        }
        prev := b;
        b := next[b];
        k := k + 1;
      }
      AtRun(k);
      TakePast(runs, npages, |runs|);
      assert runs[|runs|..] == [] && runs[..|runs|] + [] == runs;
      return None;
    }

    // Run k is long enough: it is cut, or leaves the list.
    method Give(prev: int, b: int, npages: int, ghost k: nat)
      requires Valid() && k < |runs| && b == runs[k].start && prev == Link(runs, k) && 0 < npages <= runs[k].count
      requires forall j :: 0 <= j < k ==> runs[j].count < npages
      modifies this
      ensures Valid() && (runs, Some(b)) == Take(old(runs), npages)
    {
      hide Sound, Listed, To, Link, Take;
      TakeLaw(runs, npages);
      AtRun(k);
      TakePast(runs, npages, k);
      TakeHere(runs, npages, k);
      if page[b] > npages {
        var n := b + npages;
        SplitApart(k, npages);
        ListedReplace(first, next, page, runs, k, Pages(n, page[b] - npages));
        next := next[n := next[b]];
        page := page[n := page[b] - npages];
        Write(prev, n);
      } else {
        ListedRemove(first, next, page, runs, k);
        Write(prev, next[b]);
      }
      runs := Take(runs, npages).0;
    }

    lemma AtStart()
      requires Listed(first, next, page, runs)
      ensures first == To(runs, 0) && Link(runs, 0) == LIST
    {
    }

    // The rest of a cut run starts at no other run's start.
    lemma SplitApart(k: nat, n: int)
      requires Valid() && k < |runs| && 0 < n < runs[k].count
      ensures runs[k].start + n >= 0 && forall j :: 0 <= j < |runs| && j != k ==> runs[j].start != runs[k].start + n
    {
      assert Node(next, page, runs, k);
      forall j | 0 <= j < |runs| && j != k
        ensures runs[j].start != runs[k].start + n
      {
        assert j < k || k < j;
      }
    }

    static lemma TakeHere(runs: seq<Pages>, n: int, k: nat)
      requires k < |runs| && runs[k].count >= n
      requires Take(runs, n) == (runs[..k] + Take(runs[k..], n).0, Take(runs[k..], n).1)
      ensures var b := runs[k];
              Take(runs, n) == (if b.count > n then runs[k := Pages(b.start + n, b.count - n)] else runs[..k]
                  + runs[k + 1..], Some(b.start))
    {
      assert runs[k..][0] == runs[k] && runs[k..][1..] == runs[k + 1..];
      var b := runs[k];
      assert runs[k := Pages(b.start + n, b.count - n)] == runs[..k]
          + ([Pages(b.start + n, b.count - n)] + runs[k + 1..]);
    }

    // rt_page_free of pages that are not free
    method PageFree(n: int, npages: int)
      requires Valid() && n >= 0 && npages > 0 && Range(n, npages) !! Of(runs)
      modifies this
      ensures Valid() && runs == Free(old(runs), n, npages)
    {
      hide Sound, Listed, To, Link, Of, Range, Passed, Free;
      FreeLaw(runs, n, npages);
      ghost var k: nat := 0;
      AtStart();
      var prev := LIST;
      var b := first;
      while b != NULL
        invariant Valid() && runs == old(runs) && k <= |runs| && b == To(runs, k) && prev == Link(runs, k)
        invariant forall j :: 0 <= j < k ==> Passed(runs[j], n, npages)
        decreases |runs| - k
      {
        AtRun(k);
        FreePast(runs, n, npages, k);
        if b + page[b] == n {
          Extend(b, n, npages, k);
          return;
        }
        if b == n + npages {
          FreeFront(runs, n, npages, k);
          NotStart(runs, n, npages);
          ListedReplace(first, next, page, runs, k, Pages(n, page[b] + npages));
          page := page[n := page[b] + npages];
          next := next[n := next[b]];
          Write(prev, n);
          runs := runs[k := Pages(n, runs[k].count + npages)];
          return;
        }
        if b > n + npages {
          FreeBefore(runs, n, npages, k);
          Insert(prev, b, n, npages, k);
          return;
        }
        StepOver(runs[k], n, npages);
        prev := b;
        b := next[b];
        k := k + 1;
      }
      AtRun(k);
      FreePast(runs, n, npages, k);
      FreeAtEnd(runs, n, npages);
      Insert(prev, b, n, npages, k);
    }

    static lemma StepOver(b: Pages, n: int, npages: int)
      requires b.start + b.count != n && b.start != n + npages && b.start <= n + npages
      ensures Passed(b, n, npages)
    {
    }

    // No run starts where the freed pages do.
    static lemma NotStart(runs: seq<Pages>, n: int, npages: int)
      requires Sound(runs) && npages > 0 && Range(n, npages) !! Of(runs)
      ensures forall j :: 0 <= j < |runs| ==> runs[j].start != n
    {
      OfIs(runs, n);
      assert n in Range(n, npages);
    }

    static lemma FreeFront(runs: seq<Pages>, n: int, npages: int, k: nat)
      requires Sound(runs) && k < |runs| && npages > 0 && runs[k].start == n + npages
      requires runs[k].start + runs[k].count != n
      requires Free(runs, n, npages) == runs[..k] + Free(runs[k..], n, npages)
      ensures Free(runs, n, npages) == runs[k := Pages(n, runs[k].count + npages)]
    {
      assert runs[k..][0] == runs[k] && runs[k..][1..] == runs[k + 1..];
      assert runs[k := Pages(n, runs[k].count + npages)] == runs[..k]
          + ([Pages(n, runs[k].count + npages)] + runs[k + 1..]);
    }

    static lemma FreeBefore(runs: seq<Pages>, n: int, npages: int, k: nat)
      requires Sound(runs) && k < |runs| && npages > 0 && runs[k].start > n + npages
      requires Free(runs, n, npages) == runs[..k] + Free(runs[k..], n, npages)
      ensures Free(runs, n, npages) == runs[..k] + [Pages(n, npages)] + runs[k..]
    {
      assert runs[k..][0] == runs[k];
    }

    static lemma FreeAtEnd(runs: seq<Pages>, n: int, npages: int)
      requires Free(runs, n, npages) == runs[..|runs|] + Free(runs[|runs|..], n, npages)
      ensures Free(runs, n, npages) == runs[..|runs|] + [Pages(n, npages)] + runs[|runs|..]
    {
      assert runs[|runs|..] == [];
    }

    // The pages become a run of their own, before run k.
    method Insert(prev: int, b: int, n: int, npages: int, ghost k: nat)
      requires Valid() && k <= |runs| && b == To(runs, k) && prev == Link(runs, k) && n >= 0 && npages > 0
      requires Range(n, npages) !! Of(runs)
      requires Sound(runs[..k] + [Pages(n, npages)] + runs[k..])
      modifies this
      ensures Valid() && runs == old(runs[..k] + [Pages(n, npages)] + runs[k..])
    {
      hide Sound, Listed, To, Link, Of, Range;
      NotStart(runs, n, npages);
      ListedInsert(first, next, page, runs, k, Pages(n, npages));
      page := page[n := npages];
      next := next[n := b];
      Write(prev, n);
      runs := runs[..k] + [Pages(n, npages)] + runs[k..];
    }

    // The pages are joined with run k, which ends where they start, and with the one after it if they
    // close the gap.
    method Extend(b: int, n: int, npages: int, ghost k: nat)
      requires Valid() && k < |runs| && b == runs[k].start && b + runs[k].count == n && npages > 0
      requires Sound(Free(runs, n, npages))
      requires Free(runs, n, npages) == runs[..k] + Free(runs[k..], n, npages)
      modifies this
      ensures Valid() && runs == Free(old(runs), n, npages)
    {
      hide Sound, Listed, To, Link;
      ghost var m := Pages(b, runs[k].count + npages);
      AtRun(k);
      StartsLow(k);
      ExtendOne(first, next, page, runs, k, m);
      FreeBehind(runs, n, npages, k);
      page := page[b := page[b] + npages];
      ghost var runs1 := runs[k := m];
      if b + page[b] == next[b] {
        GapClosed(runs, k, next[b]);
        MergeTwo(first, next, page, runs1, k);
        var c := next[b];
        page := page[b := page[b] + page[c]];
        next := next[b := next[c]];
      } else {
        GapLeft(runs, k, b + page[b]);
      }
      runs := Free(runs, n, npages);
    }

    lemma StartsLow(k: nat)
      requires Valid() && k < |runs|
      ensures runs[k].start >= 0 && runs[k].count > 0
    {
      assert Node(next, page, runs, k);
    }

    static lemma ExtendOne(first: int, next: map<int, int>, page: map<int, int>, runs: seq<Pages>, k: nat, m: Pages)
      requires Listed(first, next, page, runs) && Sound(runs) && k < |runs| && m.start == runs[k].start
      ensures Listed(first, next, page[m.start := m.count], runs[k := m])
    {
      var page', runs' := page[m.start := m.count], runs[k := m];
      forall i | 0 <= i < |runs'|
        ensures Node(next, page', runs', i)
      {
        assert Node(next, page, runs, i);
        OthersApart(runs, k + 1, i);
      }
    }

    // Runs k and k + 1 become one; all starts differ.
    static lemma MergeTwo(first: int, next: map<int, int>, page: map<int, int>, runs: seq<Pages>, k: nat)
      requires Listed(first, next, page, runs) && k + 1 < |runs|
      requires forall i, j :: 0 <= i < j < |runs| ==> runs[i].start < runs[j].start
      ensures var b, c := runs[k].start, runs[k + 1].start;
              && b in next && next[b] == c && c in next && c in page && b in page
              && Listed(first, next[b := next[c]], page[b := page[b] + page[c]],
                        runs[..k] + [Pages(b, runs[k].count + runs[k + 1].count)] + runs[k + 2..])
    {
      var runs' := runs[..k] + [Pages(runs[k].start, runs[k].count + runs[k + 1].count)] + runs[k + 2..];
      assert Node(next, page, runs, k) && Node(next, page, runs, k + 1);
      assert runs'[k].start == runs[k].start && forall i :: 0 <= i < |runs'| && i != k ==>
          runs'[i] == runs[if i < k then i else i + 1];
      var b, c := runs[k].start, runs[k + 1].start;
      var next', page' := next[b := next[c]], page[b := page[b] + page[c]];
      forall i | 0 <= i < |runs'|
        ensures Node(next', page', runs', i)
      {
        if i != k { assert Node(next, page, runs, if i < k then i else i + 1); }
      }
    }

    static lemma FreeBehind(runs: seq<Pages>, n: int, npages: int, k: nat)
      requires Sound(runs) && k < |runs| && runs[k].start + runs[k].count == n
      requires Free(runs, n, npages) == runs[..k] + Free(runs[k..], n, npages)
      ensures var b, runs1 := runs[k], runs[k := Pages(runs[k].start, runs[k].count + npages)];
              && (k + 1 < |runs| && n + npages == runs[k + 1].start ==>
                    Free(runs, n, npages) == runs1[..k] + [Pages(b.start, runs1[k].count + runs1[k + 1].count)]
                        + runs1[k + 2..])
              && (k + 1 == |runs| || n + npages != runs[k + 1].start ==> Free(runs, n, npages) == runs1)
              && (forall i, j :: 0 <= i < j < |runs1| ==> runs1[i].start < runs1[j].start)
    {
      hide Sound, Free;
      StartsGrow(runs, k, npages);
      FreeTail(runs[k..], n, npages);
      Tails(runs, k);
      if k + 1 < |runs| && n + npages == runs[k + 1].start {
        SpliceTwo(runs, k, npages);
      } else {
        SpliceOne(runs, k, Pages(runs[k].start, runs[k].count + npages));
      }
    }

    static lemma StartsGrow(runs: seq<Pages>, k: nat, npages: int)
      requires Sound(runs) && k < |runs|
      ensures var runs1 := runs[k := Pages(runs[k].start, runs[k].count + npages)];
              forall i, j :: 0 <= i < j < |runs1| ==> runs1[i].start < runs1[j].start
    {
    }

    static lemma FreeTail(tail: seq<Pages>, n: int, npages: int)
      requires tail != [] && tail[0].start + tail[0].count == n
      ensures var b, rest := tail[0], tail[1..];
              Free(tail, n, npages) ==
                if rest != [] && n + npages == rest[0].start then [Pages(b.start, b.count + npages + rest[0].count)]
                    + rest[1..]
                else [Pages(b.start, b.count + npages)] + rest
    {
    }

    static lemma Tails(runs: seq<Pages>, k: nat)
      requires k < |runs|
      ensures runs[k..][0] == runs[k] && runs[k..][1..] == runs[k + 1..]
      ensures k + 1 < |runs| ==> runs[k..][1..][0] == runs[k + 1] && runs[k..][1..][1..] == runs[k + 2..]
    {
    }

    static lemma SpliceOne(runs: seq<Pages>, k: nat, m: Pages)
      requires k < |runs|
      ensures runs[k := m] == runs[..k] + ([m] + runs[k + 1..])
    {
    }

    static lemma SpliceTwo(runs: seq<Pages>, k: nat, npages: int)
      requires k + 1 < |runs|
      ensures var b, runs1 := runs[k], runs[k := Pages(runs[k].start, runs[k].count + npages)];
              runs1[..k] + [Pages(b.start, runs1[k].count + runs1[k + 1].count)] + runs1[k + 2..]
              == runs[..k] + ([Pages(b.start, b.count + npages + runs[k + 1].count)] + runs[k + 2..])
    {
    }

    static lemma GapClosed(runs: seq<Pages>, k: nat, x: int)
      requires k < |runs| && x == To(runs, k + 1) && x >= 0
      ensures k + 1 < |runs| && runs[k + 1].start == x
    {
    }

    static lemma GapLeft(runs: seq<Pages>, k: nat, x: int)
      requires k < |runs| && x != To(runs, k + 1)
      ensures k + 1 == |runs| || runs[k + 1].start != x
    {
    }
  }
}
