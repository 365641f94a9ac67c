// What each call of thread.c and scheduler.c does, seen from outside: which thread gets which state, where
// it goes, and that nobody else moves.
module ThreadEffects {
  import opened Wrappers
  import opened Rings
  import opened WaitQueue
  import opened Threads
  import opened ThreadLaws

  // Thread t has become th; all other threads are as they were, in the same order on the same lists.
  ghost predicate Moved(k: K, k': K, t: nat, th: Thread) {
    && k'.limit == k.limit && k'.current == k.current && k'.lock == k.lock && k'.threads == k.threads[t := th]
    && (forall l :: l in k.lists ==> l in k'.lists && Without(k'.lists[l], t) == Without(k.lists[l], t))
  }

  ghost predicate Last(k: K, l: List, t: nat) {
    l in k.lists && k.lists[l] != [] && k.lists[l][|k.lists[l]| - 1] == t
  }

  // Thread t is ready to run, behind all others of its priority; the current thread just runs on.
  ghost predicate MadeReady(k: K, k': K, t: nat, th: Thread) {
    && Moved(k, k', t, th.(stat := if t == k.current then Running else Ready))
    && (if t == k.current then Off(k'.lists, t) else Last(k', PrioList(th.prio), t))
  }

  lemma WithoutTwice(s: seq<nat>, t: nat)
    requires Distinct(s)
    ensures Without(Without(s, t), t) == Without(s, t)
    ensures Without(Without(s, t) + [t], t) == Without(s, t)
    ensures Without([t] + Without(s, t), t) == Without(s, t)
  {
    WithoutIs(s, t);
    var w := Without(s, t);
    FirstOnly(w, t);
  }

  lemma FirstOnly(w: seq<nat>, t: nat)
    requires t !in w
    ensures Without(w, t) == w && Without(w + [t], t) == w && Without([t] + w, t) == w
  {
    assert (w + [t])[|w|] == t && ([t] + w)[0] == t;
    assert IndexOf(w + [t], t) == |w|;
  }

  // Unlinking alone.
  lemma Unlinking(k: K, t: nat, th: Thread)
    requires Inv(k) && t in k.threads
    ensures var k0 := k.(lists := Unlinked(k.lists, t), threads := k.threads[t := th]);
            Moved(k, k0, t, th) && Off(k0.lists, t)
  {
    UnlinkedIs(k.lists, t);
    forall l | l in k.lists
      ensures Without(Without(k.lists[l], t), t) == Without(k.lists[l], t)
    {
      WithoutTwice(k.lists[l], t);
    }
    hide Lists, Focus, Without, Distinct;
  }

  // Inserting a thread that is off every list.
  lemma InsertMoved(k: K, k0: K, t: nat, th: Thread)
    requires Moved(k, k0, t, th) && Off(k0.lists, t) && Exists(k0, t) && HasLists(k0)
    ensures MadeReady(k, InsertF(k0, t), t, th)
  {
    hide Without, Insert, HasLists;
    assert k0.threads[t] == th;
    if t != k.current {
      var l := PrioList(th.prio);
      PrioListed(k0, th.prio);
      InsertLast(k0.lists[l], t);
      assert InsertF(k0, t).lists == k0.lists[l := k0.lists[l] + [t]];
    }
  }

  lemma PrioListed(k: K, p: nat)
    requires HasLists(k) && p < k.limit
    ensures PrioList(p) in k.lists
  {
  }

  lemma InsertLast(q: seq<nat>, t: nat)
    requires t !in q
    ensures Insert(q, |q|, t) == q + [t] && Without(q + [t], t) == Without(q, t)
  {
    FirstOnly(q, t);
  }

  // Unlinking and inserting again.
  lemma Reinserted(k: K, t: nat, th: Thread)
    requires Inv(k) && t in k.threads && th.prio < k.limit && th.initPrio < k.limit
    ensures var k0 := k.(lists := Unlinked(k.lists, t), threads := k.threads[t := th]);
            Exists(k0, t) && HasLists(k0) && MadeReady(k, InsertF(k0, t), t, th)
  {
    hide Inv, InsertF, MadeReady, Moved;
    Usable(k);
    Unlinking(k, t, th);
    InsertMoved(k, k.(lists := Unlinked(k.lists, t), threads := k.threads[t := th]), t, th);
  }

  lemma MovedThread(k: K, k': K, t: nat)
    ensures forall th: Thread :: MadeReady(k, k', t, th) ==>
              && k'.current == k.current && t in k'.threads
              && k'.threads[t] == th.(stat := if t == k.current then Running else Ready)
              && forall u :: u in k.threads && u != t ==> u in k'.threads && k'.threads[u] == k.threads[u]
  {
  }

  lemma MovedKeys(k: K, k': K, t: nat)
    ensures forall th: Thread :: MadeReady(k, k', t, th) && t in k.threads ==> k'.threads.Keys == k.threads.Keys
  {
  }

  // ----- the calls

  // rt_thread_suspend takes a ready or the running thread off, with its timer stopped, and no other.
  lemma SuspendLaw(k: K, t: nat)
    requires Inv(k) && t in k.threads
    ensures var (k', ok) := SuspendF(k, t);
            && (ok <==> k.threads[t].stat in {Ready, Running}) && (!ok ==> k' == k)
            && (ok ==> Moved(k, k', t, k.threads[t].(stat := Suspended, timed := false)) && Off(k'.lists, t))
  {
    hide Inv, Unlinked, Moved, Off;
    Unlinking(k, t, k.threads[t].(stat := Suspended, timed := false));
  }

  // rt_thread_sleep: the running thread is suspended, with its timer started.
  lemma SleepLaw(k: K)
    requires Inv(k) && k.threads[k.current].stat == Running
    ensures Moved(k, SleepF(k), k.current, k.threads[k.current].(stat := Suspended, timed := true))
    ensures Off(SleepF(k).lists, k.current)
  {
    hide Inv, Unlinked, Moved, Off;
    Usable(k);
    var th := k.threads[k.current].(stat := Suspended, timed := true);
    Unlinking(k, k.current, th);
    assert SleepF(k).threads == k.threads[k.current := th];
  }

  // rt_thread_resume makes a suspended thread ready, and no other.
  lemma ResumeLaw(k: K, t: nat)
    requires Inv(k) && t in k.threads
    ensures Exists(k, t) && HasLists(k)
    ensures var (k', ok) := ResumeF(k, t);
            && (ok <==> k.threads[t].stat == Suspended) && (!ok ==> k' == k)
            && (ok ==> MadeReady(k, k', t, k.threads[t].(timed := false)))
  {
    hide Inv, Unlinked, InsertF, MadeReady;
    Usable(k);
    Reinserted(k, t, k.threads[t].(timed := false));
  }

  // rt_thread_timeout makes its thread ready, with an error.
  lemma TimeoutLaw(k: K, t: nat)
    requires Inv(k) && t in k.threads
    ensures Exists(k, t) && HasLists(k)
    ensures MadeReady(k, TimeoutF(k, t), t, k.threads[t].(timed := false, error := Timeout))
  {
    hide Inv, Unlinked, InsertF, MadeReady;
    Usable(k);
    Reinserted(k, t, k.threads[t].(timed := false, error := Timeout));
  }

  // rt_thread_startup makes a new thread ready, at the priority it was created with.
  lemma StartupLaw(k: K, t: nat)
    requires Inv(k) && t in k.threads && k.threads[t].stat == Init
    ensures Exists(k, t) && HasLists(k)
    ensures MadeReady(k, StartupF(k, t), t, k.threads[t].(prio := k.threads[t].initPrio))
  {
    NewIsOff(k, t);
    NewTimer(k, t);
    Usable(k);
    UnlinkedIs(k.lists, t);
    hide Inv, MadeReady, Unlinked, InsertF;
    var th := k.threads[t].(prio := k.threads[t].initPrio);
    Reinserted(k, t, th.(stat := Suspended));
    var k1 := k.(threads := k.threads[t := th.(stat := Suspended)]);
    assert k1.(threads := k1.threads[t := k1.threads[t].(timed := false)]) == k1;
    StatNoMatter(k, StartupF(k, t), t, th, Suspended);
  }

  lemma NewTimer(k: K, t: nat)
    requires Inv(k) && t in k.threads && k.threads[t].stat == Init
    ensures !k.threads[t].timed
  {
  }

  lemma StatNoMatter(k: K, k': K, t: nat, th: Thread, stat: Stat)
    requires MadeReady(k, k', t, th.(stat := stat))
    ensures MadeReady(k, k', t, th)
  {
    assert th.(stat := stat).(stat := Ready) == th.(stat := Ready);
    assert th.(stat := stat).(stat := Running) == th.(stat := Running);
  }

  // RT_THREAD_CTRL_CHANGE_PRIORITY: a ready thread goes behind all others of its new priority; any other
  // stays where it is.
  lemma PriorityEffect(k: K, t: nat, p: nat)
    requires Inv(k) && t in k.threads && p < k.limit
    ensures Exists(k, t) && HasLists(k)
    ensures var k', th := ChangePriorityF(k, t, p), k.threads[t].(prio := p);
            if k.threads[t].stat == Ready then MadeReady(k, k', t, th)
            else k'.lists == k.lists && Moved(k, k', t, th)
  {
    hide Unlinked, InsertF, MadeReady, Lists, Without;
    Usable(k);
    Reinserted(k, t, k.threads[t].(prio := p));
  }

  // rt_thread_delete, uninterrupted, and rt_thread_exit with clean-up: the thread is closed and waits for
  // its clean-up.
  lemma CloseLaw(k: K, t: nat)
    requires Inv(k) && t in k.threads
    ensures HasLists(k)
    ensures var k' := CloseF(k, t);
            && Moved(k, k', t, k.threads[t].(stat := Closed, timed := false))
            && Defunct in k'.lists && k'.lists[Defunct] != [] && k'.lists[Defunct][0] == t
  {
    Usable(k);
    forall l | l in k.lists
      ensures Without(Without(k.lists[l], t), t) == Without(k.lists[l], t)
      ensures Without([t] + Without(k.lists[l], t), t) == Without(k.lists[l], t)
    {
      WithoutTwice(k.lists[l], t);
    }
    hide Lists, Focus, Without, Distinct;
    UnlinkedMembers(k.lists, t);
    var q := Unlinked(k.lists, t)[Defunct];
    assert Insert(q, 0, t) == [t] + q;
  }

  // rt_thread_exit without clean-up: the thread is closed and on no list.
  lemma ExitLaw(k: K)
    requires Inv(k)
    ensures Moved(k, ExitF(k), k.current, k.threads[k.current].(stat := Closed, timed := false))
    ensures Off(ExitF(k).lists, k.current)
  {
    hide Inv, Unlinked, Moved, Off;
    Usable(k);
    Unlinking(k, k.current, k.threads[k.current].(stat := Closed, timed := false));
  }

  // ----- rt_schedule

  // Everybody but the two threads that change places is where he was.
  ghost predicate Switched(k: K, k': K, from: nat, to: nat) {
    && k'.limit == k.limit && k'.lock == k.lock && k'.current == to
    && k'.lists.Keys == k.lists.Keys
    && forall l :: l in k.lists ==> Without(Without(k'.lists[l], from), to) == Without(Without(k.lists[l], from), to)
  }

  // rt_schedule switches to the first of the most urgent ready threads, and a running thread that gives
  // way goes behind all others of its priority; or it does nothing at all.
  lemma SwitchLaw(k: K)
    requires Inv(k)
    ensures HasLists(k) && Exists(k, k.current) && (forall l, t :: On(k.lists, l, t) ==> t in k.threads)
    ensures var k', from := ScheduleF(k), k.current;
            if k'.current == from then k' == k
            else
              var to := k'.current;
              && k.lock == 0 && to in k.threads && k.threads[to].stat == Ready
              && PrioList(k.threads[to].prio) in k.lists && k.lists[PrioList(k.threads[to].prio)][..1] == [to]
              && (forall t :: t in k.threads && k.threads[t].stat == Ready ==> k.threads[to].prio <= k.threads[t].prio)
              && Switched(k, k', from, to)
              && (if k.threads[from].stat == Running then
                    && k'.threads
                       == k.threads[from := k.threads[from].(stat := Ready)][to := k.threads[to].(stat := Running)]
                    && Last(k', PrioList(k.threads[from].prio), from)
                  else k'.threads == k.threads[to := k.threads[to].(stat := Running)])
  {
    Usable(k);
    TopLaw(k);
    CurrentOff(k);
    var top, from := FirstReady(k.lists, 0, k.limit), k.current;
    if ScheduleF(k).current != from {
      var to := k.lists[PrioList(top.value)][0];
      assert On(k.lists, PrioList(top.value), to);
      Switching(k, from, to);
    } else if top.Some? {
      assert On(k.lists, PrioList(top.value), k.lists[PrioList(top.value)][0]);
    }
  }

  lemma Switching(k: K, from: nat, to: nat)
    requires Inv(k) && HasLists(k) && Exists(k, k.current) && (forall l, t :: On(k.lists, l, t) ==> t in k.threads)
    requires from == k.current && to != from && ScheduleF(k).current == to && to in k.threads
    requires k.threads[from].stat == Running ==> Off(k.lists, from)
    ensures Switched(k, ScheduleF(k), from, to)
    ensures k.threads[from].stat == Running ==> Last(ScheduleF(k), PrioList(k.threads[from].prio), from)
  {
    hide ScheduleF, Without, FirstReady, HasLists, Inv;
    var k', p := ScheduleF(k), PrioList(k.threads[from].prio);
    ListsAfter(k, from, to);
    FromHere(k, from);
    forall l | l in k.lists
      ensures Without(Without(k'.lists[l], from), to) == Without(Without(k.lists[l], from), to)
      ensures k.threads[from].stat == Running && l == p ==>
                k'.lists[l] != [] && k'.lists[l][|k'.lists[l]| - 1] == from
    {
      SwitchedList(k.lists[l], from, to);
    }
  }

  lemma FromHere(k: K, from: nat)
    requires Inv(k) && from in k.threads
    ensures PrioList(k.threads[from].prio) in k.lists && forall l :: l in k.lists ==> Distinct(k.lists[l])
  {
    Usable(k);
  }

  // The lists after a switch.
  lemma ListsAfter(k: K, from: nat, to: nat)
    requires HasLists(k) && Exists(k, k.current) && (forall l, t :: On(k.lists, l, t) ==> t in k.threads)
    requires from == k.current && to != from && ScheduleF(k).current == to
    ensures var k', p := ScheduleF(k), PrioList(k.threads[from].prio);
            && k'.limit == k.limit && k'.lock == k.lock && k'.lists.Keys == k.lists.Keys
            && (forall l :: l in k.lists ==>
                  k'.lists[l] ==
                  Without(if k.threads[from].stat == Running && l == p then k.lists[l] + [from] else k.lists[l], to))
  {
    hide FirstReady, Without, Insert;
    var p := PrioList(k.threads[from].prio);
    PrioListed(k, k.threads[from].prio);
    AtEnd(k.lists[p], from);
  }

  lemma AtEnd(q: seq<nat>, t: nat)
    ensures Insert(q, |q|, t) == q + [t]
  {
  }

  lemma SwitchedList(q: seq<nat>, from: nat, to: nat)
    requires Distinct(q) && from != to
    ensures Without(Without(Without(q, to), from), to) == Without(Without(q, from), to)
    ensures from !in q ==>
              && Without(Without(Without(q + [from], to), from), to) == Without(Without(q, from), to)
              && Without(q + [from], to) != [] && Without(q + [from], to)[|Without(q + [from], to)| - 1] == from
  {
    hide Without;
    WithoutIs(q, to);
    WithoutIs(q, from);
    Swapped(q, from, to);
    WithoutTwice(Without(q, from), to);
    WithoutTwice(q, to);
    if from !in q {
      FirstOnly(q, from);
      Behind(q, from, to);
      FirstOnly(Without(q, to), from);
    }
  }

  lemma {:induction false} Behind(q: seq<nat>, from: nat, to: nat)
    requires from != to && from !in q
    ensures Without(q + [from], to) == Without(q, to) + [from]
  {
    hide Without;
    if q == [] {
      assert [] + [from] == [from];
      FirstOnly([from], to);
      FirstOnly([], to);
    } else {
      assert q == [q[0]] + q[1..] && (q + [from])[1..] == q[1..] + [from];
      WithoutCons(q + [from], to);
      WithoutCons(q, to);
      Behind(q[1..], from, to);
    }
  }

  lemma {:induction false} Swapped(q: seq<nat>, a: nat, b: nat)
    requires Distinct(q) && a != b
    ensures Without(Without(q, a), b) == Without(Without(q, b), a)
  {
    if q != [] {
      assert q == [q[0]] + q[1..];
      Swapped(q[1..], a, b);
      WithoutCons(q, a);
      WithoutCons(q, b);
      var ra, rb := Without(q[1..], a), Without(q[1..], b);
      if q[0] == a {
        WithoutIs(q, b);
        WithoutCons([a] + rb, a);
      } else if q[0] == b {
        WithoutCons([b] + ra, b);
      } else {
        WithoutCons([q[0]] + ra, b);
        WithoutCons([q[0]] + rb, a);
      }
    }
  }

  lemma WithoutCons(q: seq<nat>, t: nat)
    requires q != []
    ensures Without(q, t) == if q[0] == t then q[1..] else [q[0]] + Without(q[1..], t)
  {
    if t in q && q[0] != t {
      assert t in q[1..];
    }
  }
}
