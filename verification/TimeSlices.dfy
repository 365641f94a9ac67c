// The time slices of clock.c: every clock tick takes one from the running thread, which yields at the end
// of its slice.
module TimeSlices {
  import opened Wrappers
  import opened Rings
  import opened Threads
  import opened ThreadLaws

  const WORD: nat := 0x1_0000_0000      // rt_tick_t

  // `full` and `left` hold init_tick and remaining_tick of the threads.
  datatype Sliced = Sliced(k: K, full: map<nat, nat>, left: map<nat, nat>)

  ghost predicate Counted(s: Sliced) {
    Inv(s.k) && forall t :: t in s.k.threads ==> t in s.full && t in s.left && s.full[t] < WORD && s.left[t] < WORD
  }

  // rt_tick_increase up to its rt_timer_check
  ghost function SliceF(s: Sliced): (s': Sliced)
    requires Counted(s)
  {
    ScheduleInv(s.k);
    var t := s.k.current;
    var n := (s.left[t] - 1) % WORD;
    if n == 0 then s.(left := s.left[t := s.full[t]], k := ScheduleF(s.k)) else s.(left := s.left[t := n])
  }

  lemma SliceCounted(s: Sliced)
    requires Counted(s)
    ensures Counted(SliceF(s)) && SliceF(s).full == s.full && SliceF(s).k.threads.Keys == s.k.threads.Keys
  {
    hide Lists, Focus, ScheduleF;
    ScheduleInv(s.k);
    ScheduleKeys(s.k);
  }

  ghost predicate Shared(s: Sliced) {
    Counted(s) && AtTop(s.k)
  }

  lemma SliceShared(s: Sliced)
    requires Shared(s)
    ensures Shared(SliceF(s))
  {
    hide Inv, ScheduleF;
    SliceCounted(s);
    YieldLaw(s.k);
  }

  // n ticks of the clock at which nothing else happens.
  ghost function Ticks(s: Sliced, n: nat): (s': Sliced)
    requires Shared(s)
    ensures Shared(s')
  {
    if n == 0 then s else SliceShared(Ticks(s, n - 1)); SliceF(Ticks(s, n - 1))
  }

  // How many ticks a thread with `left` ticks runs: counting down from zero wraps.
  function Length(left: nat): nat { if left == 0 then WORD else left }

  // The thread runs on to the end of its slice; then it yields, with a full slice for its next turn.
  lemma {:induction false} OneSlice(s: Sliced, n: nat)
    requires Shared(s) && s.k.current in s.left && n <= Length(s.left[s.k.current])
    ensures s.k.current in s.full && HasLists(s.k) && Exists(s.k, s.k.current)
    ensures forall l, t :: On(s.k.lists, l, t) ==> t in s.k.threads
    ensures var t := s.k.current;
            if n == 0 then Ticks(s, n) == s
            else if n < Length(s.left[t]) then Ticks(s, n) == s.(left := s.left[t := Length(s.left[t]) - n])
            else Ticks(s, n) == s.(left := s.left[t := s.full[t]], k := ScheduleF(s.k))
  {
    hide *;
    CurrentKnown(s);
    TicksAre(s, n);
    if n > 0 {
      OneSlice(s, n - 1);
      CountDown(s.left[s.k.current], n);
      SliceIs(s, Ticks(s, n - 1), n);
    }
  }

  lemma CurrentKnown(s: Sliced)
    requires Shared(s)
    ensures Counted(s) && s.k.current in s.full && s.k.current in s.left && s.left[s.k.current] < WORD
    ensures HasLists(s.k) && Exists(s.k, s.k.current) && forall l, t :: On(s.k.lists, l, t) ==> t in s.k.threads
  {
    hide Lists;
    Usable(s.k);
  }

  lemma TicksAre(s: Sliced, n: nat)
    requires Shared(s)
    ensures n == 0 ==> Ticks(s, n) == s
    ensures n > 0 ==> Counted(Ticks(s, n - 1)) && Ticks(s, n) == SliceF(Ticks(s, n - 1))
  {
    hide Inv, AtTop, SliceF;
    if n > 0 { SliceShared(Ticks(s, n - 1)); }
  }

  // What is left after n - 1 ticks, less one.
  lemma CountDown(left: nat, n: nat)
    requires left < WORD && 1 <= n <= Length(left)
    ensures ((if n == 1 then left else Length(left) - (n - 1)) - 1) % WORD == Length(left) - n
    ensures 1 <= n - 1 ==> n - 1 < Length(left)
  {
  }

  lemma SliceIs(s: Sliced, s1: Sliced, n: nat)
    requires Counted(s) && s.k.current in s.left && s.k.current in s.full
    requires HasLists(s.k) && Exists(s.k, s.k.current) && forall l, t :: On(s.k.lists, l, t) ==> t in s.k.threads
    requires 1 <= n <= Length(s.left[s.k.current]) && Counted(s1)
    requires var t := s.k.current;
             s1 == if n == 1 then s else s.(left := s.left[t := Length(s.left[t]) - (n - 1)])
    requires var l := s.left[s.k.current];
             ((if n == 1 then l else Length(l) - (n - 1)) - 1) % WORD == Length(l) - n
    ensures var t := s.k.current;
            SliceF(s1) == if n < Length(s.left[t]) then s.(left := s.left[t := Length(s.left[t]) - n])
            else s.(left := s.left[t := s.full[t]], k := ScheduleF(s.k))
  {
    hide Inv, ScheduleF, HasLists, Length;
    var t := s.k.current;
    assert s1.left[t := s.full[t]] == s.left[t := s.full[t]];
    assert n < Length(s.left[t]) ==>
        s1.left[t := Length(s.left[t]) - n] == s.left[t := Length(s.left[t]) - n];
  }

  lemma {:induction false} TicksOn(s: Sliced, a: nat, b: nat)
    requires Shared(s)
    ensures Ticks(s, a + b) == Ticks(Ticks(s, a), b)
    decreases b
  {
    hide Shared, SliceF;
    if b > 0 { TicksOn(s, a, b - 1); }
  }

  // When the turn of thread j of the line comes.
  function Start(turn: seq<nat>, left: map<nat, nat>, j: nat): (n: nat)
    requires j <= |turn| && forall t :: t in turn ==> t in left
  {
    if j == 0 then 0 else Start(turn, left, j - 1) + Length(left[turn[j - 1]])
  }

  lemma TurnKnown(s: Sliced)
    requires Shared(s)
    ensures s.k.current in s.k.threads && PrioList(s.k.threads[s.k.current].prio) in s.k.lists
    ensures Distinct(Turn(s.k)) && |Turn(s.k)| > 0 && forall t :: t in Turn(s.k) ==> t in s.full && t in s.left
  {
    TurnDistinct(s.k);
    TurnIs(s.k);
    var p := PrioList(s.k.threads[s.k.current].prio);
    forall t | t in Turn(s.k)
      ensures t in s.k.threads
    {
      if t != s.k.current { assert On(s.k.lists, p, t); }
    }
  }

  // After the first j turns of a round.
  ghost predicate AfterTurns(s: Sliced, s': Sliced, turn: seq<nat>, j: nat)
    requires j <= |turn| && AtTop(s.k)
  {
    && s'.k == Yields(s.k, j) && s'.full == s.full
    && (forall i :: 0 <= i < j ==> turn[i] in s.full && turn[i] in s'.left && s'.left[turn[i]] == s.full[turn[i]])
    && (forall i :: j <= i < |turn| ==>
          turn[i] in s.left && turn[i] in s'.left && s'.left[turn[i]] == s.left[turn[i]])
  }

  lemma {:induction false} Turns(s: Sliced, j: nat)
    requires Shared(s)
    ensures s.k.current in s.k.threads && PrioList(s.k.threads[s.k.current].prio) in s.k.lists
    ensures forall t :: t in Turn(s.k) ==> t in s.left
    ensures j <= |Turn(s.k)| ==> AfterTurns(s, Ticks(s, Start(Turn(s.k), s.left, j)), Turn(s.k), j)
    decreases j
  {
    hide Inv, ScheduleF, Yields, AtTop, Counted, SliceF, Turn, Ticks;
    TurnKnown(s);
    SharedParts(s);
    var turn := Turn(s.k);
    if j == 0 {
      NoTurn(s);
      assert forall i :: 0 <= i < |turn| ==> turn[i] in turn;
    } else if j <= |turn| {
      Turns(s, j - 1);
      var n := Start(turn, s.left, j - 1);
      var s1, t := Ticks(s, n), turn[j - 1];
      Front(s.k, j - 1);
      OneSlice(s1, Length(s1.left[t]));
      TicksOn(s, n, Length(s1.left[t]));
      OneMoreYield(s.k, j);
    }
  }

  lemma SharedParts(s: Sliced)
    requires Shared(s)
    ensures Inv(s.k) && AtTop(s.k)
  {
  }

  lemma NoTurn(s: Sliced)
    requires Shared(s)
    ensures Ticks(s, 0) == s && AtTop(s.k) && Yields(s.k, 0) == s.k
  {
  }

  // After j turns it is the turn of thread j of the line.
  lemma Front(k: K, j: nat)
    requires AtTop(k)
    ensures PrioList(k.threads[k.current].prio) in k.lists
    ensures j < |Turn(k)| ==> Yields(k, j).current == Turn(k)[j]
  {
    hide Inv, Yields, AtTop;
    RoundRobin(k, j);
  }

  lemma OneMoreYield(k: K, j: nat)
    requires AtTop(k) && j > 0
    ensures var k1 := Yields(k, j - 1);
            && HasLists(k1) && Exists(k1, k1.current) && (forall l, t :: On(k1.lists, l, t) ==> t in k1.threads)
            && Yields(k, j) == ScheduleF(k1)
  {
    hide Inv, ScheduleF;
    YieldLaw(Yields(k, j - 1));
  }

  // Threads that share the top priority run in the order of their line, each for exactly the ticks it has
  // left, and at the end of the round they are in line as before, with full slices.
  lemma RunsItsSlice(s: Sliced, j: nat, m: nat)
    requires Shared(s)
    ensures s.k.current in s.k.threads && PrioList(s.k.threads[s.k.current].prio) in s.k.lists
    ensures forall t :: t in Turn(s.k) ==> t in s.left && t in s.full
    ensures var turn := Turn(s.k);
            j < |turn| && m < Length(s.left[turn[j]]) ==>
              Ticks(s, Start(turn, s.left, j) + m).k.current == turn[j]
    ensures var turn := Turn(s.k);
            var s' := Ticks(s, Start(turn, s.left, |turn|));
            && s'.k.current in s'.k.threads && PrioList(s'.k.threads[s'.k.current].prio) in s'.k.lists
            && Turn(s'.k) == turn && forall t :: t in turn ==> t in s'.left && s'.left[t] == s.full[t]
  {
    hide Inv, ScheduleF, Yields, AtTop, Counted, SliceF, Ticks, Start, Shared;
    TurnKnown(s);
    SharedParts(s);
    var turn := Turn(s.k);
    if j < |turn| && m < Length(s.left[turn[j]]) {
      Turns(s, j);
      var n := Start(turn, s.left, j);
      Front(s.k, j);
      OneSlice(Ticks(s, n), m);
      TicksOn(s, n, m);
    }
    Turns(s, |turn|);
    EachRunsOnce(s.k, 0);
    TurnKnown(Ticks(s, Start(turn, s.left, |turn|)));
  }
}

// The thread's half of rt_tick_increase in place.
module ClockTick {
  import opened Threads
  import opened ThreadLaws
  import opened TimeSlices
  import S = Scheduler

  class Clock {
    const sched: S.Scheduler
    const full: map<nat, nat>        // init_tick of the threads
    var left: map<nat, nat>          // remaining_tick

    ghost function View(): Sliced
      reads this, sched
    {
      Sliced(sched.View(), full, left)
    }

    ghost predicate Valid()
      reads this, sched
    {
      sched.Valid() && Counted(View())
    }

    // _rt_thread_init gives every thread a full slice.
    constructor (sched: S.Scheduler, full: map<nat, nat>)
      requires sched.Valid() && forall t :: t in sched.threads ==> t in full && full[t] < WORD
      ensures Valid() && View() == Sliced(sched.View(), full, full)
    {
      this.sched, this.full, left := sched, full, full;
    }

    // rt_tick_increase up to its rt_timer_check
    method Slice()
      requires Valid()
      modifies this`left, sched
      ensures Valid() && Counted(old(View())) && View() == SliceF(old(View()))
    {
      hide Inv, S.LinksFor, S.BitsFor, S.MasksFor, ScheduleF;
      SliceCounted(View());
      Usable(sched.View());
      var thread := sched.current;
      left := left[thread := (left[thread] - 1) % WORD];
      if left[thread] == 0 {
        left := left[thread := full[thread]];
        assert left == old(left)[thread := full[thread]];
        sched.Schedule();
      }
    }
  }
}
