// What holds of the threads after every call, in any order: states agree with lists, the most
// urgent thread runs, and equals take turns.
module ThreadLaws {
  import opened Wrappers
  import opened Rings
  import opened WaitQueue
  import opened Threads

  // ----- every call keeps the invariant

  lemma Usable(k: K)
    requires Inv(k)
    ensures HasLists(k) && Exists(k, k.current)
    ensures forall t :: t in k.threads ==> Exists(k, t)
    ensures forall l, t :: On(k.lists, l, t) ==> t in k.threads
  {
  }

  // The current thread is on no ready list; unless it is suspended or closed, it is on no list.
  lemma CurrentOff(k: K)
    requires Inv(k)
    ensures k.threads[k.current].stat == Running ==> Off(k.lists, k.current)
    ensures forall p :: !On(k.lists, PrioList(p), k.current)
  {
    forall l | l in k.lists && k.current in k.lists[l]
      ensures k.threads[k.current].stat != Running
    {
      assert On(k.lists, l, k.current);
    }
  }

  // A thread on no list may be inserted, whatever its state was.
  lemma InsertInv(k: K, t: nat)
    requires Lists(k) && t in k.threads && Off(k.lists, t) && !k.threads[t].timed
    requires k.current in k.threads && (k.current != t ==> k.threads[k.current].stat !in {Ready, Init})
    requires forall u :: u in k.threads && k.threads[u].stat == Running && u != t ==> u == k.current
    ensures Exists(k, t) && HasLists(k) && Inv(InsertF(k, t))
  {
    hide Linked, Distinct, Unlinked;
    UnlinkedIs(k.lists, t);
    var th := k.threads[t];
    if t == k.current {
      OffLaw(k, t, th.(stat := Running));
    } else {
      OnLaw(k, t, th.(stat := Ready), PrioList(th.prio), |k.lists[PrioList(th.prio)]|);
    }
  }

  // Taking a thread off its list before it is given a state to be inserted with.
  lemma Detached(k: K, t: nat, th: Thread)
    requires Lists(k) && t in k.threads && Sound(th, k.limit) && th.stat != Ready
    ensures var k' := k.(lists := Unlinked(k.lists, t), threads := k.threads[t := th]);
            Lists(k') && Off(k'.lists, t)
  {
    OffLaw(k, t, th);
    UnlinkedIs(k.lists, t);
  }

  // Inserting forgets the state the thread had.
  lemma InsertForgets(k: K, t: nat, stat: Stat)
    requires Exists(k, t) && HasLists(k)
    ensures InsertF(k.(threads := k.threads[t := k.threads[t].(stat := stat)]), t) == InsertF(k, t)
  {
    var k1 := k.(threads := k.threads[t := k.threads[t].(stat := stat)]);
    assert InsertF(k1, t).threads == InsertF(k, t).threads;
  }

  // The common part of resuming, timing out and changing priority.
  lemma ReinsertInv(k: K, t: nat, th: Thread)
    requires Inv(k) && t in k.threads && th.prio < k.limit && th.initPrio < k.limit && !th.timed
    requires t == k.current ==> th.stat !in {Ready, Init}
    ensures var k1 := k.(lists := Unlinked(k.lists, t), threads := k.threads[t := th]);
            Exists(k1, t) && HasLists(k1) && Inv(InsertF(k1, t))
  {
    hide Unlinked, InsertF, Distinct, On;
    var th0 := th.(stat := Closed);
    var k0 := k.(lists := Unlinked(k.lists, t), threads := k.threads[t := th0]);
    Detached(k, t, th0);
    InsertInv(k0, t);
    var k1 := k.(lists := Unlinked(k.lists, t), threads := k.threads[t := th]);
    assert k1.threads == k0.threads[t := k0.threads[t].(stat := th.stat)];
    InsertForgets(k0, t, th.stat);
    assert k1 == k0.(threads := k0.threads[t := k0.threads[t].(stat := th.stat)]);
  }

  lemma SuspendInv(k: K, t: nat)
    requires Inv(k) && t in k.threads
    ensures Inv(SuspendF(k, t).0) && (SuspendF(k, t).1 ==> Off(SuspendF(k, t).0.lists, t))
  {
    hide Unlinked, Distinct, On;
    var th := k.threads[t];
    if th.stat == Ready || th.stat == Running {
      Detached(k, t, th.(stat := Suspended, timed := false));
    }
  }

  lemma BlockInv(k: K, w: nat, flag: Flag, timed: bool)
    requires Inv(k) && k.threads[k.current].stat == Running
    ensures forall l, t :: On(k.lists, l, t) ==> t in k.threads
    ensures Inv(BlockF(k, w, flag, timed))
  {
    hide Unlinked, Distinct, Lists, Linked;
    CurrentOff(k);
    Usable(k);
    if WaitList(w) !in k.lists { NewList(k, WaitList(w)); }
    var lists1 := if WaitList(w) in k.lists then k.lists else k.lists[WaitList(w) := []];
    assert Lists(k.(lists := lists1));
    var pos := BlockIs(k, w, flag, timed, lists1);
    OnLaw(k.(lists := lists1), k.current, k.threads[k.current].(stat := Suspended, timed := timed), WaitList(w), pos);
  }

  lemma BlockIs(k: K, w: nat, flag: Flag, timed: bool, lists1: map<List, seq<nat>>) returns (pos: nat)
    requires Inv(k) && k.threads[k.current].stat == Running && forall l, t :: On(k.lists, l, t) ==> t in k.threads
    requires lists1 == if WaitList(w) in k.lists then k.lists else k.lists[WaitList(w) := []]
    ensures WaitList(w) in Unlinked(lists1, k.current) && pos <= |Unlinked(lists1, k.current)[WaitList(w)]|
    ensures Sound(k.threads[k.current].(stat := Suspended, timed := timed), k.limit)
    ensures BlockF(k, w, flag, timed) ==
              k.(lists := Linked(Unlinked(lists1, k.current), WaitList(w), pos, k.current),
                 threads := k.threads[k.current := k.threads[k.current].(stat := Suspended, timed := timed)])
  {
    hide Insert, Position, Lists, Focus, Unlinked;
    CurrentSound(k);
    UnlinkedMembers(k.lists, k.current);
    UnlinkedNew(k.lists, WaitList(w), k.current);
    var k1 := SuspendF(k, k.current).0;
    var queue := Unlinked(lists1, k.current)[WaitList(w)];
    assert Known(queue, Prios(k1)) by {
      forall u | u in queue ensures u in k.threads { assert On(k.lists, WaitList(w), u); }
    }
    pos := Position(flag, queue, Prios(k1), Prios(k1)[k.current]);
  }

  lemma CurrentSound(k: K)
    requires Inv(k)
    ensures k.current in k.threads && k.threads[k.current].prio < k.limit && k.threads[k.current].initPrio < k.limit
  {
  }

  lemma UnlinkedNew(lists: map<List, seq<nat>>, l: List, t: nat)
    ensures l !in lists ==> Unlinked(lists[l := []], t) == Unlinked(lists, t)[l := []]
    ensures l in lists ==> l in Unlinked(lists, t)
  {
  }

  // A wait list nobody has waited on yet is empty.
  lemma NewList(k: K, l: List)
    requires Lists(k) && l.WaitList? && l !in k.lists
    ensures Lists(k.(lists := k.lists[l := []]))
  {
    var k' := k.(lists := k.lists[l := []]);
    assert forall m :: m in k'.lists ==> m == l || (m in k.lists && k'.lists[m] == k.lists[m]);
    assert forall m, t :: On(k'.lists, m, t) <==> On(k.lists, m, t);
  }

  // rt_schedule keeps the invariant. When it does something, the running thread is one of the most
  // urgent, and the thread it took over from, if it was running, is the last of its priority.
  lemma ScheduleInv(k: K)
    requires Inv(k)
    ensures HasLists(k) && Exists(k, k.current) && (forall l, t :: On(k.lists, l, t) ==> t in k.threads)
    ensures Inv(ScheduleF(k))
  {
    hide Unlinked, Distinct, Linked, FirstReady;
    Usable(k);
    var top := FirstReady(k.lists, 0, k.limit);
    var cur := k.threads[k.current];
    if !(k.lock != 0 || top.None? || (cur.stat == Running && cur.prio < top.value)) {
      var to := k.lists[PrioList(top.value)][0];
      assert On(k.lists, PrioList(top.value), to);
      if cur.stat == Running {
        CurrentOff(k);
        UnlinkedIs(k.lists, k.current);
        OnLaw(k, k.current, cur.(stat := Ready), PrioList(cur.prio), |k.lists[PrioList(cur.prio)]|);
        var k2 := InsertF(k.(current := to), k.current);
        assert Lists(k2) by { SameLists(k2.(current := k.current), k2); }
        OffLaw(k2, to, k2.threads[to].(stat := Running));
      } else {
        assert Lists(k.(current := to)) by { SameLists(k, k.(current := to)); }
        OffLaw(k.(current := to), to, k.threads[to].(stat := Running));
      }
    }
  }

  // Which thread is current does not matter to the lists.
  lemma SameLists(k: K, k': K)
    requires Lists(k) && k' == k.(current := k'.current)
    ensures Lists(k')
  {
  }

  lemma ResumeInv(k: K, t: nat)
    requires Inv(k) && t in k.threads
    ensures Exists(k, t) && HasLists(k) && Inv(ResumeF(k, t).0)
  {
    Usable(k);
    hide Unlinked, InsertF, Distinct, On;
    if k.threads[t].stat == Suspended { ReinsertInv(k, t, k.threads[t].(timed := false)); }
  }

  lemma TimeoutInv(k: K, t: nat)
    requires Inv(k) && t in k.threads && k.threads[t].stat == Suspended
    ensures Exists(k, t) && HasLists(k) && Inv(TimeoutF(k, t))
  {
    Usable(k);
    hide Unlinked, InsertF, Distinct, On;
    ReinsertInv(k, t, k.threads[t].(timed := false, error := Timeout));
  }

  lemma StartupInv(k: K, t: nat)
    requires Inv(k) && t in k.threads && k.threads[t].stat == Init
    ensures Exists(k, t) && HasLists(k) && Inv(StartupF(k, t))
  {
    Usable(k);
    var th := k.threads[t].(prio := k.threads[t].initPrio, stat := Suspended);
    UnlinkedIs(k.lists, t);
    assert Off(k.lists, t) by { NewIsOff(k, t); }
    OffLaw(k, t, th);
    var k1 := k.(threads := k.threads[t := th]);
    assert k1 == k.(lists := Unlinked(k.lists, t), threads := k.threads[t := th]);
    ResumeInv(k1, t);
  }

  lemma NewIsOff(k: K, t: nat)
    requires Inv(k) && t in k.threads && k.threads[t].stat in {Init, Running}
    ensures Off(k.lists, t)
  {
    forall l | l in k.lists
      ensures t !in k.lists[l]
    {
      assert !On(k.lists, l, t);
    }
  }

  lemma ChangePriorityInv(k: K, t: nat, p: nat)
    requires Inv(k) && t in k.threads && p < k.limit
    ensures Exists(k, t) && HasLists(k) && Inv(ChangePriorityF(k, t, p))
  {
    Usable(k);
    if k.threads[t].stat == Ready {
      hide Unlinked, InsertF, Distinct, On;
      ReinsertInv(k, t, k.threads[t].(prio := p));
    } else {
      hide Distinct, On;
    }
  }

  lemma CloseInv(k: K, t: nat)
    requires Inv(k) && t in k.threads
    ensures HasLists(k) && Inv(CloseF(k, t))
  {
    Usable(k);
    UnlinkedMembers(k.lists, t);
    hide Unlinked, Distinct, On, Linked;
    OnLaw(k, t, k.threads[t].(stat := Closed, timed := false), Defunct, 0);
  }

  lemma ExitInv(k: K)
    requires Inv(k)
    ensures Inv(ExitF(k))
  {
    hide Unlinked, Distinct, On, Linked;
    OffLaw(k, k.current, k.threads[k.current].(stat := Closed, timed := false));
  }

  lemma SleepInv(k: K)
    requires Inv(k) && k.threads[k.current].stat == Running
    ensures Inv(SleepF(k))
  {
    hide Unlinked, Distinct, On, Linked;
    var th := k.threads[k.current];
    OffLaw(k, k.current, th.(stat := Suspended, timed := true));
    assert SleepF(k).threads == k.threads[k.current := th.(stat := Suspended, timed := true)];
  }

  // ----- runs

  // Any call a thread or an interrupt can make, as one step. Resume, Startup, Suspend and Delete have
  // gaps between their sections when interrupts are enabled; what may happen there is said below, under
  // the gaps of calls.
  datatype Call =
    | Schedule
    | Suspend(t: nat)
    | Block(w: nat, flag: Flag, timed: bool)
    | Sleep
    | Resume(t: nat)
    | TimerFires(t: nat)
    | Startup(t: nat)
    | ChangePriority(t: nat, p: nat)
    | Delete(t: nat)
    | Exit(keep: bool)
    | AssignError(t: nat, error: Error)
    | Enter
    | Leave

  // What the program asserts or takes for granted: a thread blocks and exits while it runs, a
  // thread's timer fires only while it is started.
  predicate Legal(k: K, c: Call) {
    match c
    case Schedule => true
    case Suspend(t) => t in k.threads
    case Block(_, _, _) => k.current in k.threads && k.threads[k.current].stat == Running
    case Sleep => k.current in k.threads && k.threads[k.current].stat == Running
    case Resume(t) => t in k.threads
    case TimerFires(t) => t in k.threads && k.threads[t].timed
    case Startup(t) => t in k.threads && k.threads[t].stat == Init
    case ChangePriority(t, p) => t in k.threads && p < k.limit
    case Delete(t) => t in k.threads
    case Exit(_) => k.current in k.threads
    case AssignError(t, _) => t in k.threads
    case Enter => true
    case Leave => true
  }

  ghost function CallF(k: K, c: Call): (k': K)
    requires Inv(k) && Legal(k, c)
  {
    Usable(k);
    match c
    case Schedule => ScheduleF(k)
    case Suspend(t) => SuspendF(k, t).0
    case Block(w, flag, timed) => BlockF(k, w, flag, timed)
    case Sleep => SleepF(k)
    case Resume(t) => ResumeF(k, t).0
    case TimerFires(t) =>
      TimeoutInv(k, t);
      ScheduleInv(TimeoutF(k, t));
      ScheduleF(TimeoutF(k, t))
    case Startup(t) => StartupF(k, t)
    case ChangePriority(t, p) => ChangePriorityF(k, t, p)
    case Delete(t) => CloseF(k, t)
    case Exit(keep) => if keep then CloseF(k, k.current) else ExitF(k)
    case AssignError(t, e) => ErrorF(k, t, e)
    case Enter => EnterF(k)
    case Leave => LeaveF(k)
  }

  lemma CallInv(k: K, c: Call)
    requires Inv(k) && Legal(k, c)
    ensures Inv(CallF(k, c))
  {
    match c
    case Schedule => ScheduleInv(k);
    case Suspend(t) => SuspendInv(k, t);
    case Block(w, flag, timed) => BlockInv(k, w, flag, timed);
    case Sleep => SleepInv(k);
    case Resume(t) => ResumeInv(k, t);
    case TimerFires(t) => TimeoutInv(k, t); ScheduleInv(TimeoutF(k, t));
    case Startup(t) => StartupInv(k, t);
    case ChangePriority(t, p) => ChangePriorityInv(k, t, p);
    case Delete(t) => CloseInv(k, t);
    case Exit(keep) => CloseInv(k, k.current); ExitInv(k);
    case AssignError(t, e) => AssignInv(k, t, e);
    case Enter => LockInv(k, EnterF(k));
    case Leave => LockInv(k, LeaveF(k));
  }

  lemma AssignInv(k: K, t: nat, e: Error)
    requires Inv(k) && t in k.threads
    ensures Inv(ErrorF(k, t, e))
  {
  }

  lemma LockInv(k: K, k': K)
    requires Inv(k) && k' == k.(lock := k'.lock)
    ensures Inv(k')
  {
  }

  ghost predicate LegalRun(k: K, cs: seq<Call>)
    requires Inv(k)
    decreases |cs|
  {
    cs == [] || (Legal(k, cs[0]) && (CallInv(k, cs[0]); LegalRun(CallF(k, cs[0]), cs[1..])))
  }

  ghost function Run(k: K, cs: seq<Call>): (k': K)
    requires Inv(k) && LegalRun(k, cs)
    ensures Inv(k')
    decreases |cs|
  {
    if cs == [] then k else CallInv(k, cs[0]); Run(CallF(k, cs[0]), cs[1..])
  }

  // ----- who runs

  ghost predicate AnyReady(k: K) {
    exists t :: t in k.threads && k.threads[t].stat == Ready
  }

  // After an unlocked rt_schedule the running thread is at least as urgent as every ready one, and
  // some thread does run unless there was neither a running thread nor a ready one. The current
  // thread gives way exactly to a ready thread that is as urgent, or to any if it cannot run on.
  lemma ScheduleLaw(k: K)
    requires Inv(k) && k.lock == 0
    ensures HasLists(k) && Exists(k, k.current) && (forall l, t :: On(k.lists, l, t) ==> t in k.threads)
    ensures var k' := ScheduleF(k);
            && Inv(k')
            && (k'.threads[k'.current].stat == Running <==> k.threads[k.current].stat == Running || AnyReady(k))
            && (k'.threads[k'.current].stat == Running ==>
                  forall t :: t in k'.threads && k'.threads[t].stat == Ready ==>
                      k'.threads[k'.current].prio <= k'.threads[t].prio)
            && (k'.current != k.current <==>
                  exists t :: t in k.threads && k.threads[t].stat == Ready
                              && (k.threads[k.current].stat == Running ==>
                                 k.threads[t].prio <= k.threads[k.current].prio))
  {
    hide Unlinked, Linked, FirstReady, Distinct;
    ScheduleInv(k);
    var top, cur := FirstReady(k.lists, 0, k.limit), k.threads[k.current];
    TopLaw(k);
    if top.Some? {
      var to := k.lists[PrioList(top.value)][0];
      assert On(k.lists, PrioList(top.value), to);
      assert k.threads[to].stat == Ready && k.threads[to].prio == top.value && to != k.current;
    }
  }

  lemma TopLaw(k: K)
    requires Inv(k)
    ensures HasLists(k)
    ensures var top := FirstReady(k.lists, 0, k.limit);
            && (top.Some? <==> AnyReady(k))
            && (top.Some? ==> forall t :: t in k.threads && k.threads[t].stat == Ready ==>
               top.value <= k.threads[t].prio)
  {
    Usable(k);
    var top := FirstReady(k.lists, 0, k.limit);
    forall t | t in k.threads && k.threads[t].stat == Ready
      ensures top.Some? && top.value <= k.threads[t].prio
    {
      assert On(k.lists, PrioList(k.threads[t].prio), t);
    }
    if top.Some? {
      var to := k.lists[PrioList(top.value)][0];
      assert On(k.lists, PrioList(top.value), to);
    }
  }

  // A thread that never blocks, such as the idle thread.
  ghost predicate Alive(k: K, idle: nat) {
    idle in k.threads && k.threads[idle].stat in {Ready, Running}
  }

  predicate Spares(k: K, c: Call, idle: nat) {
    match c
    case Suspend(t) => t != idle
    case Delete(t) => t != idle
    case Block(_, _, _) => k.current != idle
    case Sleep => k.current != idle
    case Exit(_) => k.current != idle
    case _ => true
  }

  lemma AliveKept(k: K, c: Call, idle: nat)
    requires Inv(k) && Legal(k, c) && Alive(k, idle) && Spares(k, c, idle)
    ensures Alive(CallF(k, c), idle)
  {
    Usable(k);
    if c.TimerFires? {
      TimeoutInv(k, c.t);
      ScheduleInv(TimeoutF(k, c.t));
      assert Alive(TimeoutF(k, c.t), idle);
      AliveScheduled(TimeoutF(k, c.t), idle);
    } else if c.Schedule? {
      ScheduleInv(k);
      AliveScheduled(k, idle);
    }
  }

  lemma AliveScheduled(k: K, idle: nat)
    requires Inv(k) && Alive(k, idle) && HasLists(k) && Exists(k, k.current)
    requires forall l, t :: On(k.lists, l, t) ==> t in k.threads
    ensures Alive(ScheduleF(k), idle)
  {
  }

  ghost predicate SparingRun(k: K, cs: seq<Call>, idle: nat)
    requires Inv(k) && LegalRun(k, cs)
    decreases |cs|
  {
    cs == [] || (Spares(k, cs[0], idle) && (CallInv(k, cs[0]); SparingRun(CallF(k, cs[0]), cs[1..], idle)))
  }

  // Whatever the threads and interrupts did before: with a thread that never blocks, an unlocked
  // rt_schedule leaves a thread running, and no ready thread is more urgent.
  lemma {:induction false} AlwaysSomeoneRuns(k: K, cs: seq<Call>, idle: nat)
    requires Inv(k) && LegalRun(k, cs) && Alive(k, idle) && SparingRun(k, cs, idle)
    ensures var k1 := Run(k, cs);
            && Alive(k1, idle)
            && HasLists(k1) && Exists(k1, k1.current) && (forall l, t :: On(k1.lists, l, t) ==> t in k1.threads)
            && (k1.lock == 0 ==>
                  var k2 := ScheduleF(k1);
                  && k2.current in k2.threads && k2.threads[k2.current].stat == Running
                  && forall t :: t in k2.threads && k2.threads[t].stat == Ready ==>
                     k2.threads[k2.current].prio <= k2.threads[t].prio)
    decreases |cs|
  {
    hide Inv, Alive, ScheduleF, CallF, HasLists, On;
    if cs == [] {
      ScheduleInv(k);
      if k.lock == 0 {
        ScheduleLaw(k);
        AliveRuns(k, idle);
      }
    } else {
      CallInv(k, cs[0]);
      AliveKept(k, cs[0], idle);
      AlwaysSomeoneRuns(CallF(k, cs[0]), cs[1..], idle);
    }
  }

  lemma AliveRuns(k: K, idle: nat)
    requires Inv(k) && Alive(k, idle)
    ensures k.current in k.threads && (k.threads[k.current].stat == Running || AnyReady(k))
    ensures ScheduleF.requires(k) ==> Inv(ScheduleF(k)) && ScheduleF(k).current in ScheduleF(k).threads
  {
    ScheduleInv(k);
  }

  // ----- round robin

  // The threads that share the top priority: the running one, then the ready ones in line.
  function Turn(k: K): (r: seq<nat>)
    requires k.current in k.threads && PrioList(k.threads[k.current].prio) in k.lists
  {
    [k.current] + k.lists[PrioList(k.threads[k.current].prio)]
  }

  ghost predicate AtTop(k: K) {
    && Inv(k) && k.lock == 0 && k.threads[k.current].stat == Running
    && forall t :: t in k.threads && k.threads[t].stat == Ready ==> k.threads[k.current].prio <= k.threads[t].prio
  }

  // rt_thread_yield moves the running thread to the end of the line.
  lemma YieldLaw(k: K)
    requires AtTop(k)
    ensures HasLists(k) && Exists(k, k.current) && (forall l, t :: On(k.lists, l, t) ==> t in k.threads)
    ensures var k' := ScheduleF(k);
            && AtTop(k') && PrioList(k.threads[k.current].prio) in k.lists
            && PrioList(k'.threads[k'.current].prio) in k'.lists
            && Turn(k') == Turn(k)[1..] + [Turn(k)[0]]
  {
    hide Inv, FirstReady, HasLists, Distinct;
    ScheduleLaw(k);
    TopHere(k);
    var p := k.threads[k.current].prio;
    var queue := k.lists[PrioList(p)];
    var k' := ScheduleF(k);
    if queue != [] {
      CurrentOff(k);
      var grown := Insert(queue, |queue|, k.current);
      assert grown == queue + [k.current];
      HeadDropped(grown);
      assert k'.lists[PrioList(p)] == Without(grown, queue[0]);
    }
  }

  lemma TopHere(k: K)
    requires AtTop(k)
    ensures HasLists(k) && PrioList(k.threads[k.current].prio) in k.lists
    ensures var p, top := k.threads[k.current].prio, FirstReady(k.lists, 0, k.limit);
            var queue := k.lists[PrioList(p)];
            && (queue == [] ==> top.None? || top.value > p)
            && (queue != [] ==>
               top == Some(p) && queue[0] in k.threads && queue[0] != k.current && k.threads[queue[0]].prio == p)
  {
    Usable(k);
    TopLaw(k);
    var p, top := k.threads[k.current].prio, FirstReady(k.lists, 0, k.limit);
    var queue := k.lists[PrioList(p)];
    if queue != [] {
      assert On(k.lists, PrioList(p), queue[0]);
    }
    if top.Some? {
      assert On(k.lists, PrioList(top.value), k.lists[PrioList(top.value)][0]);
    }
  }

  lemma HeadDropped(s: seq<nat>)
    requires s != []
    ensures Without(s, s[0]) == s[1..]
  {
  }

  ghost function Yields(k: K, n: nat): (k': K)
    requires AtTop(k)
    ensures AtTop(k')
  {
    if n == 0 then k else YieldLaw(Yields(k, n - 1)); ScheduleF(Yields(k, n - 1))
  }

  // Going round n places, one step at a time.
  function Round(j: nat, n: nat): (i: nat)
    requires n > 0
    ensures i < n
    ensures j < n ==> i == j
    ensures j == n ==> i == 0
  {
    if j == 0 then 0 else if Round(j - 1, n) + 1 == n then 0 else Round(j - 1, n) + 1
  }

  // The threads of the top priority run in turn, and line up again in the same order.
  lemma {:induction false} RoundRobin(k: K, j: nat)
    requires AtTop(k)
    ensures PrioList(k.threads[k.current].prio) in k.lists
    ensures var k', turn := Yields(k, j), Turn(k);
            var i := Round(j, |turn|);
            && PrioList(k'.threads[k'.current].prio) in k'.lists
            && k'.current == turn[i]
            && Turn(k') == turn[i..] + turn[..i]
  {
    hide Inv, ScheduleF;
    Lined(k);
    var turn := Turn(k);
    if j == 0 {
      assert turn[0..] + turn[..0] == turn;
    } else {
      RoundRobin(k, j - 1);
      YieldLaw(Yields(k, j - 1));
      Rotate(turn, Round(j - 1, |turn|));
    }
  }

  lemma Lined(k: K)
    requires AtTop(k)
    ensures k.current in k.threads && PrioList(k.threads[k.current].prio) in k.lists
  {
  }

  lemma Rotate(s: seq<nat>, i: nat)
    requires i < |s|
    ensures var i' := if i + 1 == |s| then 0 else i + 1;
            var r := s[i..] + s[..i];
            r[1..] + [r[0]] == s[i'..] + s[..i'] && s[i'] == (s[i'..] + s[..i'])[0]
  {
  }

  // In as many yields as threads share the top priority, each of them runs exactly once, and it is
  // every thread of that priority that can run.
  lemma EachRunsOnce(k: K, u: nat)
    requires AtTop(k)
    ensures PrioList(k.threads[k.current].prio) in k.lists
    ensures var n := |Turn(k)|;
            && Distinct(Turn(k)) && Yields(k, n).current == k.current && Turn(Yields(k, n)) == Turn(k)
            && ((u in k.threads && k.threads[u].prio == k.threads[k.current].prio
                 && k.threads[u].stat in {Ready, Running}) ==>
                  exists i :: 0 <= i < n && Yields(k, i).current == u
                              && forall j :: 0 <= j < n && j != i ==> Yields(k, j).current != u)
  {
    hide *;
    Lined(k);
    var turn := Turn(k);
    RoundRobin(k, |turn|);
    assert turn[0..] + turn[..0] == turn;
    TurnDistinct(k);
    TurnIs(k);
    forall j | 0 <= j < |turn|
      ensures Yields(k, j).current == turn[j]
    {
      RoundRobin(k, j);
    }
    if u in k.threads && k.threads[u].prio == k.threads[k.current].prio && k.threads[u].stat in {Ready, Running} {
      InTurn(k, u);
      ExactlyOne(turn, u);
      var i :| 0 <= i < |turn| && turn[i] == u && forall j :: 0 <= j < |turn| && j != i ==> turn[j] != u;
      assert Yields(k, i).current == u;
    }
  }

  lemma TurnIs(k: K)
    requires AtTop(k)
    ensures k.current in k.threads && PrioList(k.threads[k.current].prio) in k.lists
    ensures |Turn(k)| > 0 && Turn(k)[0] == k.current
  {
  }

  lemma ExactlyOne(s: seq<nat>, u: nat)
    requires Distinct(s) && u in s
    ensures exists i :: 0 <= i < |s| && s[i] == u && forall j :: 0 <= j < |s| && j != i ==> s[j] != u
  {
    var i :| 0 <= i < |s| && s[i] == u;
  }

  lemma InTurn(k: K, u: nat)
    requires AtTop(k) && u in k.threads && k.threads[u].prio == k.threads[k.current].prio
    requires k.threads[u].stat in {Ready, Running}
    ensures PrioList(k.threads[k.current].prio) in k.lists && u in Turn(k)
  {
    if k.threads[u].stat == Ready { assert On(k.lists, PrioList(k.threads[u].prio), u); }
  }

  lemma TurnDistinct(k: K)
    requires AtTop(k)
    ensures PrioList(k.threads[k.current].prio) in k.lists && Distinct(Turn(k))
  {
    CurrentOff(k);
  }

  // ----- what a reader of the lists may rely on, and where the program does not keep it

  // Every thread is where its state says, and on one list at most.
  lemma Membership(k: K, t: nat, l: List, m: List)
    requires Inv(k) && t in k.threads
    ensures k.threads[t].stat == Ready <==> exists p :: On(k.lists, PrioList(p), t)
    ensures On(k.lists, l, t) && On(k.lists, m, t) ==> l == m
    ensures On(k.lists, l, t) ==> multiset(k.lists[l])[t] == 1
    ensures k.threads[t].stat == Running ==> t == k.current && !On(k.lists, l, t)
  {
    if k.threads[t].stat == Ready { assert On(k.lists, PrioList(k.threads[t].prio), t); }
    if On(k.lists, l, t) { OnceInDistinct(k.lists[l], t); }
  }

  lemma {:induction false} OnceInDistinct(s: seq<nat>, t: nat)
    requires Distinct(s)
    ensures multiset(s)[t] == if t in s then 1 else 0
  {
    if s != [] {
      assert s == [s[0]] + s[1..];
      OnceInDistinct(s[1..], t);
    }
  }

  // Inserting a thread is right exactly when it is on no list and its timer is stopped.
  lemma InsertExact(k: K, t: nat)
    requires Inv(k) && t in k.threads
    ensures Exists(k, t) && HasLists(k)
    ensures Inv(InsertF(k, t)) <==> Off(k.lists, t) && !k.threads[t].timed
  {
    Usable(k);
    if Off(k.lists, t) && !k.threads[t].timed {
      InsertInv(k, t);
    } else if !Off(k.lists, t) {
      var l :| l in k.lists && t in k.lists[l];
      var k', prio := InsertF(k, t), PrioList(k.threads[t].prio);
      if t == k.current {
        assert On(k'.lists, l, t) && !Fits(k'.threads[t], l);
      } else {
        InsertMembers(k.lists[prio], |k.lists[prio]|, t);
        assert On(k'.lists, l, t);
        if l == prio { InsertedTwice(k.lists[prio], |k.lists[prio]|, t); } else { assert !Fits(k'.threads[t], l); }
      }
    } else {
      assert !Sound(InsertF(k, t).threads[t], k.limit);
    }
  }

  // ----- the gaps of calls

  // The first critical section of rt_thread_resume, which is followed by a second one with the insertion.
  function ResumeHalf(k: K, t: nat): (k': K)
    requires t in k.threads
  {
    k.(lists := Unlinked(k.lists, t), threads := k.threads[t := k.threads[t].(timed := false)])
  }

  // Called with interrupts enabled, rt_thread_resume has a gap between its critical sections. Whatever
  // interrupts do there, the insertion is right exactly if the thread is still on no list and its timer
  // is stopped.
  lemma ResumeInterrupted(k: K, t: nat, cs: seq<Call>)
    requires Inv(k) && t in k.threads && k.threads[t].stat == Suspended
    ensures var k1 := ResumeHalf(k, t);
            && Inv(k1) && Exists(k1, t) && HasLists(k1) && InsertF(k1, t) == ResumeF(k, t).0
            && (LegalRun(k1, cs) ==>
                  var k2 := Run(k1, cs);
                  && Exists(k2, t) && HasLists(k2)
                  && (Inv(InsertF(k2, t)) <==> Off(k2.lists, t) && !k2.threads[t].timed))
  {
    HalfInv(k, t);
    var k1 := ResumeHalf(k, t);
    if LegalRun(k1, cs) {
      RunThreads(k1, cs);
      InsertExact(Run(k1, cs), t);
    }
  }

  lemma HalfInv(k: K, t: nat)
    requires Inv(k) && t in k.threads && k.threads[t].stat == Suspended
    ensures var k1 := ResumeHalf(k, t);
            Inv(k1) && Off(k1.lists, t) && Exists(k1, t) && HasLists(k1) && InsertF(k1, t) == ResumeF(k, t).0
  {
    Detached(k, t, k.threads[t].(timed := false));
  }

  lemma CallKeys(k: K, c: Call)
    requires Inv(k) && Legal(k, c)
    ensures CallF(k, c).threads.Keys == k.threads.Keys
  {
    Usable(k);
    hide Lists, Unlinked, Linked, Focus;
    if c.TimerFires? {
      TimeoutLegal(k, c.t);
      ScheduleInv(TimeoutF(k, c.t));
      ScheduleKeys(TimeoutF(k, c.t));
    } else if c.Schedule? {
      ScheduleKeys(k);
    }
  }

  lemma TimeoutLegal(k: K, t: nat)
    requires Inv(k) && t in k.threads && k.threads[t].timed
    ensures Exists(k, t) && HasLists(k) && Inv(TimeoutF(k, t)) && TimeoutF(k, t).threads.Keys == k.threads.Keys
  {
    TimeoutInv(k, t);
  }

  lemma ScheduleKeys(k: K)
    requires HasLists(k) && Exists(k, k.current) && forall l, t :: On(k.lists, l, t) ==> t in k.threads
    ensures ScheduleF(k).threads.Keys == k.threads.Keys
  {
    var top := FirstReady(k.lists, 0, k.limit);
    if top.Some? { assert On(k.lists, PrioList(top.value), k.lists[PrioList(top.value)][0]); }
  }

  lemma {:induction false} RunThreads(k: K, cs: seq<Call>)
    requires Inv(k) && LegalRun(k, cs)
    ensures Run(k, cs).threads.Keys == k.threads.Keys
    decreases |cs|
  {
    hide Inv, CallF, Legal;
    if cs != [] {
      CallInv(k, cs[0]);
      CallKeys(k, cs[0]);
      RunThreads(CallF(k, cs[0]), cs[1..]);
    }
  }

  // If an interrupt resumes the same thread in the gap, the thread is inserted twice.
  lemma ResumeGap(k: K, t: nat)
    requires Inv(k) && t in k.threads && k.threads[t].stat == Suspended && t != k.current
    ensures var k1 := ResumeHalf(k, t);
            && Inv(k1) && Exists(k1, t) && HasLists(k1)
            && Inv(InsertF(k1, t)) && InsertF(k1, t) == ResumeF(k, t).0
            && var k2 := ResumeF(k1, t).0;
               Inv(k2) && Exists(k2, t) && HasLists(k2) && !Inv(InsertF(k2, t))
  {
    HalfInv(k, t);
    var k1 := ResumeHalf(k, t);
    UnlinkedIs(k1.lists, t);
    InsertExact(k1, t);
    ResumeInv(k1, t);
    var k2 := ResumeF(k1, t).0;
    InsertExact(k2, t);
    assert On(k2.lists, PrioList(k2.threads[t].prio), t);
  }

  // rt_thread_startup up to its rt_thread_resume.
  function StartupHalf(k: K, t: nat): (k': K)
    requires t in k.threads
  {
    k.(threads := k.threads[t := k.threads[t].(prio := k.threads[t].initPrio, stat := Suspended)])
  }

  // Nothing that happens after that can break the rt_thread_resume that follows.
  lemma StartupGap(k: K, t: nat, cs: seq<Call>)
    requires Inv(k) && t in k.threads && k.threads[t].stat == Init
    ensures var k1 := StartupHalf(k, t);
            && Inv(k1) && Exists(k1, t) && HasLists(k1) && ResumeF(k1, t).0 == StartupF(k, t)
            && (LegalRun(k1, cs) ==>
                  var k2 := Run(k1, cs);
                  Exists(k2, t) && HasLists(k2) && Inv(ResumeF(k2, t).0))
  {
    NewIsOff(k, t);
    UnlinkedIs(k.lists, t);
    var k1 := StartupHalf(k, t);
    OffLaw(k, t, k1.threads[t]);
    Usable(k1);
    hide Lists, Unlinked, Linked;
    if LegalRun(k1, cs) {
      RunThreads(k1, cs);
      ResumeInv(Run(k1, cs), t);
    }
  }

  // The critical section of rt_thread_suspend, whose test of the state comes before it.
  function SuspendRest(k: K, t: nat): (k': K)
    requires t in k.threads
  {
    k.(lists := Unlinked(k.lists, t), threads := k.threads[t := k.threads[t].(stat := Suspended, timed := false)])
  }

  // Whatever state the thread is in by then, lists and states stay in agreement.
  lemma SuspendGap(k: K, t: nat)
    requires Inv(k) && t in k.threads
    ensures Inv(SuspendRest(k, t)) && (SuspendF(k, t).1 ==> SuspendF(k, t).0 == SuspendRest(k, t))
  {
    OffLaw(k, t, k.threads[t].(stat := Suspended, timed := false));
    hide Lists, Unlinked;
  }

  // The first part of rt_thread_delete, for a thread that was started: it leaves its list.
  function DeleteHalf(k: K, t: nat): (k': K) { k.(lists := Unlinked(k.lists, t)) }

  // The rest of it: the timer is detached, the state written, and the thread linked to the defunct ones.
  function DeleteRest(k: K, t: nat): (k': K)
    requires t in k.threads && HasLists(k)
  {
    k.(lists := Linked(k.lists, Defunct, 0, t),
       threads := k.threads[t := k.threads[t].(stat := Closed, timed := false)])
  }

  // Linking a deleted thread to the defunct ones is right exactly if it is on no list.
  lemma DeleteExact(k: K, t: nat)
    requires Inv(k) && t in k.threads
    ensures HasLists(k) && (Inv(DeleteRest(k, t)) <==> Off(k.lists, t))
  {
    Usable(k);
    var k' := DeleteRest(k, t);
    if Off(k.lists, t) {
      UnlinkedIs(k.lists, t);
      OnLaw(k, t, k'.threads[t], Defunct, 0);
    } else {
      var l :| l in k.lists && t in k.lists[l];
      InsertMembers(k.lists[Defunct], 0, t);
      assert On(k'.lists, l, t);
      if l == Defunct { InsertedTwice(k.lists[l], 0, t); } else { assert !Fits(k'.threads[t], l); }
    }
  }

  // Whatever interrupts do between the first part and the last link of rt_thread_delete: the call ends
  // well exactly if nobody has put the thread on a list meanwhile. A ready thread is in the gap ready in
  // name only.
  lemma DeleteInterrupted(k: K, t: nat, cs: seq<Call>)
    requires Inv(k) && t in k.threads
    ensures HasLists(k) && HasLists(DeleteHalf(k, t)) && DeleteRest(DeleteHalf(k, t), t) == CloseF(k, t)
    ensures Inv(DeleteHalf(k, t)) <==> k.threads[t].stat != Ready
    ensures Inv(DeleteHalf(k, t)) && LegalRun(DeleteHalf(k, t), cs) ==>
              var k2 := Run(DeleteHalf(k, t), cs);
              t in k2.threads && HasLists(k2) && (Inv(DeleteRest(k2, t)) <==> Off(k2.lists, t))
  {
    Usable(k);
    DeleteHalfInv(k, t);
    var k1 := DeleteHalf(k, t);
    if Inv(k1) && LegalRun(k1, cs) {
      RunThreads(k1, cs);
      DeleteExact(Run(k1, cs), t);
    }
  }

  lemma DeleteHalfInv(k: K, t: nat)
    requires Inv(k) && t in k.threads
    ensures Inv(DeleteHalf(k, t)) <==> k.threads[t].stat != Ready
    ensures Off(DeleteHalf(k, t).lists, t) && HasLists(DeleteHalf(k, t))
  {
    UnlinkedIs(k.lists, t);
    Usable(k);
    var k1 := DeleteHalf(k, t);
    if k.threads[t].stat != Ready {
      OffLaw(k, t, k.threads[t]);
      assert k1 == k.(lists := Unlinked(k.lists, t), threads := k.threads[t := k.threads[t]]);
    } else {
      assert !On(k1.lists, PrioList(k1.threads[t].prio), t);
    }
  }

  // If the timer of a waiting thread fires in the gap, the thread is ready again, and the call links a
  // node that is linked already, exactly if the thread has not been switched to.
  lemma DeleteHitByTimer(k: K, t: nat)
    requires Inv(k) && t in k.threads && k.threads[t].timed && t != k.current
    ensures var k1 := DeleteHalf(k, t);
            && Inv(k1) && Legal(k1, TimerFires(t))
            && var k2 := CallF(k1, TimerFires(t));
               t in k2.threads && HasLists(k2) && (Inv(DeleteRest(k2, t)) <==> k2.current == t)
  {
    hide Lists, Unlinked, Linked, ScheduleF, TimeoutF, On;
    DeleteHalfInv(k, t);
    TimedIs(k, t);
    var k1 := DeleteHalf(k, t);
    TimeoutInv(k1, t);
    var k2 := TimeoutF(k1, t);
    TimeoutReady(k1, t);
    ScheduleInv(k2);
    StillReady(k2, t);
    var k3 := ScheduleF(k2);
    DeleteExact(k3, t);
    ReadyOn(k3, t);
  }

  lemma TimedIs(k: K, t: nat)
    requires Inv(k) && t in k.threads && k.threads[t].timed
    ensures k.threads[t].stat == Suspended
  {
  }

  lemma TimeoutReady(k: K, t: nat)
    requires Exists(k, t) && HasLists(k) && t != k.current
    ensures t in TimeoutF(k, t).threads && TimeoutF(k, t).threads[t].stat == Ready
  {
  }

  // A ready thread is on a list, a running one on none.
  lemma ReadyOn(k: K, t: nat)
    requires Inv(k) && t in k.threads
    ensures k.threads[t].stat == Ready ==> !Off(k.lists, t)
    ensures k.threads[t].stat == Running ==> Off(k.lists, t)
  {
    if k.threads[t].stat == Ready { assert On(k.lists, PrioList(k.threads[t].prio), t); }
    CurrentOff(k);
  }

  lemma StillReady(k: K, t: nat)
    requires Inv(k) && t in k.threads && k.threads[t].stat == Ready
    ensures HasLists(k) && Exists(k, k.current) && forall l, u :: On(k.lists, l, u) ==> u in k.threads
    ensures var k' := ScheduleF(k);
            t in k'.threads && k'.threads[t].stat == (if k'.current == t then Running else Ready)
  {
    Usable(k);
  }

  // rt_scheduler_lock_nest after n calls of rt_enter_critical and m of rt_exit_critical.
  function Nest(n: nat, m: nat): int {
    if m > 0 then Shallower(Nest(n, m - 1)) else if n > 0 then Deeper(Nest(n - 1, 0)) else 0
  }

  predicate StillLocked(n: nat, m: nat) { Nest(n, m) != 0 }

  lemma LockSteps(lock: int)
    ensures -0x8000 <= lock < 0x7FFF ==> Deeper(lock) == lock + 1
    ensures Deeper(0x7FFF) == -0x8000 && Shallower(-0x8000) == 0x7FFF
    ensures 0 < lock < 0x8000 ==> Shallower(lock) == lock - 1
    ensures -0x8000 < lock <= 0 ==> Shallower(lock) == 0
  {
  }

  lemma {:induction false} NestIs(n: nat, m: nat)
    requires m <= n <= 0x8000
    ensures Nest(n, m) == if m == 0 && n == 0x8000 then -0x8000 else n - m
  {
    hide Deeper, Shallower;
    LockSteps(0);
    if m > 0 {
      NestIs(n, m - 1);
      LockSteps(Nest(n, m - 1));
    } else if n > 0 {
      NestIs(n - 1, 0);
      LockSteps(Nest(n - 1, 0));
    }
  }

  lemma {:induction false} NestTooDeep(n: nat)
    requires 0x8000 <= n <= 0xFFFF
    ensures Nest(n, 0) == n - 0x1_0000
  {
    hide Deeper, Shallower;
    if n == 0x8000 {
      NestIs(n, 0);
    } else {
      NestTooDeep(n - 1);
      LockSteps(Nest(n - 1, 0));
    }
  }

  // The counter is a signed 16-bit number, although its comment speaks of the unsigned maximum: the
  // scheduler stays locked up to the matching rt_exit_critical exactly for nestings up to 32768.
  lemma LockDepth(n: nat)
    requires 1 <= n <= 0xFFFF
    ensures (forall m :: 0 <= m < n ==> StillLocked(n, m)) <==> n <= 0x8000
    ensures n <= 0x8000 ==> Nest(n, n) == 0
  {
    hide Deeper, Shallower;
    if n <= 0x8000 {
      forall m | 0 <= m < n
        ensures StillLocked(n, m)
      {
        NestIs(n, m);
      }
      NestIs(n, n);
    } else {
      NestTooDeep(n);
      LockSteps(Nest(n, 0));
      assert !StillLocked(n, 1);
    }
  }
}
