// The page allocator of slab.c as values: the list of runs of free pages, in address order. Pages are
// numbered; SlabPageList.dfy ties the in-place list to the functions of this module.
module SlabPages {
  import opened Wrappers

  datatype Pages = Pages(start: int, count: int)

  function Range(a: int, n: int): (r: set<int>)
    ensures forall p :: p in r <==> a <= p < a + n
    decreases n
  {
    if n <= 0 then {} else Range(a, n - 1) + {a + n - 1}
  }

  lemma RangeJoin(a: int, n: int, m: int)
    requires n >= 0 && m >= 0
    ensures Range(a, n) + Range(a + n, m) == Range(a, n + m)
  {
  }

  // The pages of a list of runs.
  ghost function Of(runs: seq<Pages>): set<int> {
    if runs == [] then {} else Range(runs[0].start, runs[0].count) + Of(runs[1..])
  }

  // Strictly ordered by address, disjoint and fully coalesced: a gap lies between any two runs.
  ghost predicate Sound(runs: seq<Pages>) {
    && (forall i :: 0 <= i < |runs| ==> runs[i].count > 0)
    && (forall i, j :: 0 <= i < j < |runs| ==> runs[i].start + runs[i].count < runs[j].start)
  }

  // rt_page_alloc: the first run with enough pages gives its first ones.
  function Take(runs: seq<Pages>, n: int): (r: (seq<Pages>, Option<int>))
  {
    if runs == [] then (runs, None)
    else
      var b := runs[0];
      if b.count > n then ([Pages(b.start + n, b.count - n)] + runs[1..], Some(b.start))
      else if b.count == n then (runs[1..], Some(b.start))
      else
        var (rest, a) := Take(runs[1..], n);
        ([b] + rest, a)
  }

  function Alloc(runs: seq<Pages>, n: int): (r: (seq<Pages>, Option<int>))
  {
    if n == 0 then (runs, None) else Take(runs, n)
  }

  // rt_page_free: the pages are joined with the run that ends where they start, or else with the one
  // that starts where they end, or else are a run of their own.
  function Free(runs: seq<Pages>, a: int, n: int): (r: seq<Pages>)
  {
    if runs == [] then [Pages(a, n)]
    else
      var b, rest := runs[0], runs[1..];
      if b.start + b.count == a then
        if rest != [] && a + n == rest[0].start then [Pages(b.start, b.count + n + rest[0].count)] + rest[1..]
        else [Pages(b.start, b.count + n)] + rest
      else if b.start == a + n then [Pages(a, b.count + n)] + rest
      else if b.start > a + n then [Pages(a, n)] + runs
      else [b] + Free(rest, a, n)
  }

  // ----- the pages of a list

  lemma {:induction false} OfIs(runs: seq<Pages>, p: int)
    ensures p in Of(runs) <==> exists i :: 0 <= i < |runs| && runs[i].start <= p < runs[i].start + runs[i].count
  {
    if runs != [] {
      OfIs(runs[1..], p);
      if p in Of(runs[1..]) {
        var i :| 0 <= i < |runs[1..]| && runs[1..][i].start <= p < runs[1..][i].start + runs[1..][i].count;
        assert runs[i + 1] == runs[1..][i];
      }
      if i :| 0 < i < |runs| && runs[i].start <= p < runs[i].start + runs[i].count {
        assert runs[i] == runs[1..][i - 1];
      }
    }
  }

  lemma TailSound(runs: seq<Pages>)
    requires Sound(runs) && runs != []
    ensures Sound(runs[1..]) && runs[0].count > 0
    ensures forall p :: p in Of(runs[1..]) ==> runs[0].start + runs[0].count < p
    ensures runs[1..] != [] ==> runs[0].start + runs[0].count < runs[1].start
  {
    forall p | p in Of(runs[1..])
      ensures runs[0].start + runs[0].count < p
    {
      OfIs(runs[1..], p);
    }
  }

  lemma ConsSound(b: Pages, rest: seq<Pages>)
    requires Sound(rest) && b.count > 0 && (rest != [] ==> b.start + b.count < rest[0].start)
    ensures Sound([b] + rest)
    ensures Of([b] + rest) == Range(b.start, b.count) + Of(rest)
  {
    var runs := [b] + rest;
    assert runs[1..] == rest;
    forall i, j | 0 <= i < j < |runs|
      ensures runs[i].start + runs[i].count < runs[j].start
    {
      if i == 0 && j > 1 { assert rest[0].start < rest[j - 1].start; }
    }
  }

  lemma FirstPage(runs: seq<Pages>)
    requires Sound(runs) && runs != []
    ensures runs[0].start in Of(runs) && forall p :: p in Of(runs) ==> runs[0].start <= p
  {
    TailSound(runs);
    assert runs[0].start in Range(runs[0].start, runs[0].count);
  }

  lemma Unfold(runs: seq<Pages>)
    requires runs != []
    ensures runs == [runs[0]] + runs[1..] && Of(runs) == Range(runs[0].start, runs[0].count) + Of(runs[1..])
  {
  }

  // A longer first run holds a page that the other list lacks.
  lemma Longer(r: seq<Pages>, s: seq<Pages>)
    requires Sound(r) && Sound(s) && r != [] && s != [] && r[0].start == s[0].start && r[0].count < s[0].count
    ensures Of(r) != Of(s)
  {
    TailSound(r);
    assert r[0].start + r[0].count in Of(s);
    assert r[0].start + r[0].count !in Of(r);
  }

  // The list is determined by the pages it holds.
  lemma {:induction false} Canonical(r: seq<Pages>, s: seq<Pages>)
    requires Sound(r) && Sound(s) && Of(r) == Of(s)
    ensures r == s
  {
    if r == [] || s == [] {
      if r != [] { FirstPage(r); }
      if s != [] { FirstPage(s); }
    } else {
      FirstPage(r);
      FirstPage(s);
      TailSound(r);
      TailSound(s);
      var a := r[0].start;
      if r[0].count < s[0].count { Longer(r, s); }
      if s[0].count < r[0].count { Longer(s, r); }
      assert Of(r[1..]) == Of(r) - Range(a, r[0].count);
      assert Of(s[1..]) == Of(s) - Range(a, s[0].count);
      Canonical(r[1..], s[1..]);
      Unfold(r);
      Unfold(s);
    }
  }

  // ----- rt_page_alloc

  ghost predicate Fits(runs: seq<Pages>, a: int, n: int) {
    Range(a, n) <= Of(runs)
  }

  // n consecutive free pages lie in one run.
  lemma {:induction false} InOneRun(runs: seq<Pages>, a: int, n: int)
    requires Sound(runs) && runs != [] && n > 0 && Fits(runs, a, n)
    ensures Range(a, n) <= Range(runs[0].start, runs[0].count) || Fits(runs[1..], a, n)
  {
    TailSound(runs);
    var e := runs[0].start + runs[0].count;
    if a < e {
      FirstPage(runs);
      assert a in Range(a, n);
      assert e !in Of(runs) && (a + n > e ==> e in Range(a, n));
    } else {
      forall p | p in Range(a, n)
        ensures p in Of(runs[1..])
      {
      }
    }
  }

  // The lowest n consecutive free pages, and nothing else, are taken; or there are none.
  ghost predicate Lowest(runs: seq<Pages>, n: int, runs': seq<Pages>, r: Option<int>) {
    && (r.None? ==> runs' == runs && forall a {:trigger Fits(runs, a, n)} :: !Fits(runs, a, n))
    && (r.Some? ==> Fits(runs, r.value, n) && Of(runs') == Of(runs) - Range(r.value, n)
                    && forall a {:trigger Fits(runs, a, n)} :: Fits(runs, a, n) ==> r.value <= a)
  }

  // rt_page_alloc takes the lowest n consecutive free pages there are; it fails only if there are none.
  lemma {:induction false} TakeLaw(runs: seq<Pages>, n: int)
    requires Sound(runs) && n > 0
    ensures Sound(Take(runs, n).0) && Lowest(runs, n, Take(runs, n).0, Take(runs, n).1)
    ensures Take(runs, n).0 != [] ==> runs != [] && runs[0].start <= Take(runs, n).0[0].start
  {
    hide Range, Sound, Of, Fits, Lowest;
    if runs == [] {
      NoneFits(n);
    } else {
      TailSound(runs);
      var b, rest := runs[0], runs[1..];
      if b.count > n {
        TakeFront(runs, n);
        ConsSound(Pages(b.start + n, b.count - n), rest);
        LowestFirst(runs, n, Take(runs, n).0);
      } else if b.count == n {
        TakeAll(runs);
        LowestFirst(runs, n, rest);
      } else {
        TakeLaw(rest, n);
        TakeLater(runs, n, Take(rest, n).0, Take(rest, n).1);
      }
    }
  }

  lemma NoneFits(n: int)
    requires n > 0
    ensures Lowest([], n, [], None) && Sound([])
  {
    forall a
      ensures !Fits([], a, n)
    {
      assert a in Range(a, n);
    }
  }

  lemma TakeFront(runs: seq<Pages>, n: int)
    requires Sound(runs) && runs != [] && 0 < n < runs[0].count
    ensures var b := runs[0]; Range(b.start + n, b.count - n) + Of(runs[1..]) == Of(runs) - Range(b.start, n)
  {
    TailSound(runs);
  }

  lemma TakeAll(runs: seq<Pages>)
    requires Sound(runs) && runs != []
    ensures Of(runs[1..]) == Of(runs) - Range(runs[0].start, runs[0].count)
  {
    TailSound(runs);
  }

  lemma LowestFirst(runs: seq<Pages>, n: int, runs': seq<Pages>)
    requires Sound(runs) && runs != [] && 0 < n <= runs[0].count && Of(runs') == Of(runs) - Range(runs[0].start, n)
    ensures Lowest(runs, n, runs', Some(runs[0].start))
  {
    FirstPage(runs);
    forall a | Fits(runs, a, n)
      ensures runs[0].start <= a
    {
      assert a in Range(a, n);
    }
  }

  // The first run is too short.
  lemma TakeLater(runs: seq<Pages>, n: int, rest': seq<Pages>, r: Option<int>)
    requires Sound(runs) && runs != [] && n > runs[0].count
    requires Sound(rest') && Lowest(runs[1..], n, rest', r)
             && (rest' != [] ==> runs[1..] != [] && runs[1].start <= rest'[0].start)
    ensures Sound([runs[0]] + rest') && Lowest(runs, n, [runs[0]] + rest', r)
  {
    TailSound(runs);
    Unfold(runs);
    var b, rest := runs[0], runs[1..];
    ConsSound(b, rest');
    forall a | Fits(runs, a, n)
      ensures Fits(rest, a, n)
    {
      InOneRun(runs, a, n);
      assert a in Range(a, n) && a + n - 1 in Range(a, n);
    }
    if r.Some? {
      assert Of(rest') == Of(rest) - Range(r.value, n);
      assert r.value in Range(r.value, n);
      assert Fits(runs, r.value, n);
      assert Range(b.start, b.count) !! Range(r.value, n);
      assert Of([b] + rest') == Of(runs) - Range(r.value, n);
    }
  }

  // ----- rt_page_free

  // rt_page_free of pages that are not free adds exactly those.
  lemma {:induction false} FreeLaw(runs: seq<Pages>, a: int, n: int)
    requires Sound(runs) && n > 0 && Range(a, n) !! Of(runs)
    ensures Sound(Free(runs, a, n)) && Of(Free(runs, a, n)) == Of(runs) + Range(a, n)
    ensures Free(runs, a, n) != []
            && (Free(runs, a, n)[0].start == a || (runs != [] && Free(runs, a, n)[0].start == runs[0].start))
  {
    hide Range, Sound, Of;
    if runs == [] {
      FreeFirst(a, n);
      NonePages();
    } else {
      TailSound(runs);
      var b, rest := runs[0], runs[1..];
      Unfold(runs);
      Beside(runs, a, n);
      if b.start + b.count == a {
        FreeAfter(runs, a, n);
      } else if b.start == a + n {
        ConsSound(Pages(a, b.count + n), rest);
        RangeJoin(a, n, b.count);
      } else if b.start > a + n {
        ConsSound(Pages(a, n), runs);
      } else {
        FreeLaw(rest, a, n);
        ConsSound(b, Free(rest, a, n));
      }
    }
  }

  lemma NonePages()
    ensures Of([]) == {}
  {
  }

  lemma FreeFirst(a: int, n: int)
    requires n > 0
    ensures Sound([Pages(a, n)]) && Of([Pages(a, n)]) == Range(a, n)
  {
    ConsSound(Pages(a, n), []);
  }

  // The pages lie wholly before or wholly after the first run.
  lemma Beside(runs: seq<Pages>, a: int, n: int)
    requires Sound(runs) && runs != [] && n > 0 && Range(a, n) !! Of(runs)
    ensures a + n <= runs[0].start || runs[0].start + runs[0].count <= a
  {
    var b := runs[0];
    assert b.start in Range(b.start, b.count);
    assert b.start !in Range(a, n);
    assert a in Range(a, n);
    assert a !in Of(runs);
  }

  lemma FreeAfter(runs: seq<Pages>, a: int, n: int)
    requires Sound(runs) && runs != [] && n > 0 && Range(a, n) !! Of(runs) && runs[0].start + runs[0].count == a
    ensures Sound(Free(runs, a, n)) && Of(Free(runs, a, n)) == Of(runs) + Range(a, n)
  {
    hide Range, Sound, Of;
    TailSound(runs);
    Unfold(runs);
    var b, rest := runs[0], runs[1..];
    RangeJoin(b.start, b.count, n);
    if rest != [] {
      TailSound(rest);
      Unfold(rest);
      Beside(rest, a, n);
    }
    if rest != [] && a + n == rest[0].start {
      RangeJoin(b.start, b.count + n, rest[0].count);
      ConsSound(Pages(b.start, b.count + n + rest[0].count), rest[1..]);
    } else {
      ConsSound(Pages(b.start, b.count + n), rest);
    }
  }

  // Giving back what was taken restores the list.
  lemma FreeUndoesTake(runs: seq<Pages>, n: int)
    requires Sound(runs) && n > 0 && Take(runs, n).1.Some?
    ensures Free(Take(runs, n).0, Take(runs, n).1.value, n) == runs
  {
    TakeLaw(runs, n);
    var (runs', r) := Take(runs, n);
    FreeLaw(runs', r.value, n);
    Canonical(Free(runs', r.value, n), runs);
  }

  // ----- runs of allocations and releases

  datatype Change = Taken(n: int) | Given(block: Pages)

  // The pages of the heap: those on the list and those handed out.
  datatype Store = Store(runs: seq<Pages>, out: set<Pages>)

  ghost predicate Whole(s: Store, all: set<int>) {
    && Sound(s.runs)
    && (forall b :: b in s.out ==> b.count > 0 && Range(b.start, b.count) !! Of(s.runs))
    && (forall b, c :: b in s.out && c in s.out && b != c ==> Range(b.start, b.count) !! Range(c.start, c.count))
    && (forall p :: p in all <==> p in Of(s.runs) || exists b :: b in s.out && p in Range(b.start, b.count))
  }

  ghost predicate Legal(s: Store, c: Change) {
    match c
    case Taken(n) => n >= 0
    case Given(b) => b in s.out
  }

  ghost function Apply(s: Store, c: Change): Store {
    match c
    case Taken(n) =>
      var (runs', r) := Alloc(s.runs, n);
      Store(runs', if r.Some? then s.out + {Pages(r.value, n)} else s.out)
    case Given(b) => Store(Free(s.runs, b.start, b.count), s.out - {b})
  }

  lemma ApplyWhole(s: Store, c: Change, all: set<int>)
    requires Whole(s, all) && Legal(s, c)
    ensures Whole(Apply(s, c), all)
  {
    match c
    case Taken(n) =>
      if n > 0 {
        TakeLaw(s.runs, n);
        var (runs', r) := Take(s.runs, n);
        if r.Some? { HandOut(s, Pages(r.value, n), runs', all); }
      }
    case Given(b) =>
      FreeLaw(s.runs, b.start, b.count);
      TakeIn(s, b, Free(s.runs, b.start, b.count), all);
  }

  lemma HandOut(s: Store, b: Pages, runs': seq<Pages>, all: set<int>)
    requires Whole(s, all) && Sound(runs') && b.count > 0
    requires Range(b.start, b.count) <= Of(s.runs) && Of(runs') == Of(s.runs) - Range(b.start, b.count)
    ensures Whole(Store(runs', s.out + {b}), all)
  {
    hide Sound, Of, Range;
    forall p | p in all
      ensures p in Of(runs') || exists c :: c in s.out + {b} && p in Range(c.start, c.count)
    {
      if p !in Of(s.runs) {
        var c :| c in s.out && p in Range(c.start, c.count);
        assert c in s.out + {b};
      } else if p in Range(b.start, b.count) {
        assert b in s.out + {b};
      }
    }
  }

  lemma TakeIn(s: Store, b: Pages, runs': seq<Pages>, all: set<int>)
    requires Whole(s, all) && Sound(runs') && b in s.out && Of(runs') == Of(s.runs) + Range(b.start, b.count)
    ensures Whole(Store(runs', s.out - {b}), all)
  {
    hide Sound, Of, Range;
    forall p | p in all
      ensures p in Of(runs') || exists c :: c in s.out - {b} && p in Range(c.start, c.count)
    {
      if p !in Of(runs') {
        var c :| c in s.out && p in Range(c.start, c.count);
        assert c in s.out - {b};
      }
    }
  }

  ghost predicate LegalRun(s: Store, cs: seq<Change>)
    decreases |cs|
  {
    cs == [] || (Legal(s, cs[0]) && LegalRun(Apply(s, cs[0]), cs[1..]))
  }

  ghost function Run(s: Store, cs: seq<Change>): Store
    decreases |cs|
  {
    if cs == [] then s else Run(Apply(s, cs[0]), cs[1..])
  }

  // No run of allocations and releases loses or doubles a page.
  lemma {:induction false} RunLaw(s: Store, cs: seq<Change>, all: set<int>)
    requires Whole(s, all) && LegalRun(s, cs)
    ensures Whole(Run(s, cs), all)
    decreases |cs|
  {
    if cs != [] {
      ApplyWhole(s, cs[0], all);
      RunLaw(Apply(s, cs[0]), cs[1..], all);
    }
  }

  // When everything has been given back, the list is what rt_page_init made it.
  lemma BackToInit(first: int, n: int, cs: seq<Change>)
    requires n > 0 && LegalRun(Store(Free([], first, n), {}), cs) && Run(Store(Free([], first, n), {}), cs).out == {}
    ensures Run(Store(Free([], first, n), {}), cs).runs == [Pages(first, n)]
  {
    var s0 := Store(Free([], first, n), {});
    FreeLaw([], first, n);
    assert Whole(s0, Range(first, n));
    RunLaw(s0, cs, Range(first, n));
    ConsSound(Pages(first, n), []);
    Canonical(Run(s0, cs).runs, [Pages(first, n)]);
  }
}
