// What the calls of the kernel do to the suspend list of an IPC object, and the three calls of
// ipc.c on which all of them rest: suspending, resuming the first waiter, resuming all waiters.
module Waits {
  import opened Wrappers
  import opened Rings
  import opened WaitQueue
  import opened Threads
  import opened ThreadLaws
  import E = ThreadEffects

  // The suspend list w.
  function Queue(k: K, w: nat): (q: seq<nat>) {
    if WaitList(w) in k.lists then k.lists[WaitList(w)] else []
  }

  lemma QueueLaw(k: K, w: nat)
    requires Inv(k)
    ensures Distinct(Queue(k, w))
    ensures forall t :: t in Queue(k, w) ==> t in k.threads && k.threads[t].stat == Suspended
    ensures k.threads[k.current].stat == Running ==> k.current !in Queue(k, w)
    ensures forall v, t :: v != w && t in Queue(k, w) ==> t !in Queue(k, v)
  {
    forall t | t in Queue(k, w)
      ensures t in k.threads && k.threads[t].stat == Suspended
    {
      assert On(k.lists, WaitList(w), t);
    }
    forall v, t | v != w && t in Queue(k, w)
      ensures t !in Queue(k, v)
    {
      assert On(k.lists, WaitList(w), t);
      assert On(k.lists, WaitList(v), t) <==> t in Queue(k, v);
    }
  }

  lemma UnlinkedQueue(k: K, t: nat, k': K, w: nat)
    requires k'.lists == Unlinked(k.lists, t)
    ensures Queue(k', w) == Without(Queue(k, w), t)
  {
  }

  lemma InsertQueue(k: K, t: nat, w: nat)
    requires Exists(k, t) && HasLists(k)
    ensures Queue(InsertF(k, t), w) == Queue(k, w)
    ensures forall u :: u in k.threads ==> u in InsertF(k, t).threads && SameBut(k.threads[u], InsertF(k, t).threads[u])
    ensures InsertF(k, t).threads[t].stat == (if t == k.current then Running else Ready)
    ensures InsertF(k, t).threads.Keys == k.threads.Keys
    ensures InsertF(k, t).current == k.current && InsertF(k, t).limit == k.limit && InsertF(k, t).lock == k.lock
  {
  }

  // Only the state and the timer may differ.
  predicate SameBut(a: Thread, b: Thread) {
    a.prio == b.prio && a.initPrio == b.initPrio && a.error == b.error
  }

  lemma {:induction false} NotInWithout(q: seq<nat>, t: nat)
    requires t !in q
    ensures Without(q, t) == q
  {
  }

  // Whom a call takes off a suspend list, if it is on one.
  function Leaver(k: K, c: Call): Option<nat> {
    match c
    case Resume(t) => if t in k.threads && k.threads[t].stat == Suspended then Some(t) else None
    case TimerFires(t) => Some(t)
    case Delete(t) => Some(t)
    case Exit(_) => Some(k.current)
    case _ => None
  }

  // No call but a blocking one puts a thread on a suspend list; the others leave it as it is, but for
  // the one thread they concern.
  lemma CallQueue(k: K, c: Call, w: nat)
    requires Inv(k) && Legal(k, c) && !(c.Block? && c.w == w)
    ensures Queue(CallF(k, c), w) ==
              if Leaver(k, c).Some? then Without(Queue(k, w), Leaver(k, c).value) else Queue(k, w)
  {
    Usable(k);
    QueueLaw(k, w);
    match c
    case Schedule => ScheduleQueue(k, w);
    case Suspend(t) => SuspendQueue(k, t, w);
    case Block(v, flag, timed) => BlockOther(k, v, flag, timed, w);
    case Sleep => SuspendQueue(k, k.current, w);
    case Resume(t) => ResumeQueue(k, t, w);
    case TimerFires(t) =>
      TimeoutInv(k, t);
      TimeoutQueue(k, t, w);
      ScheduleQueue(TimeoutF(k, t), w);
    case Startup(t) => StartupQueue(k, t, w);
    case ChangePriority(t, p) => ChangePriorityQueue(k, t, p, w);
    case Delete(t) => CloseQueue(k, t, w);
    case Exit(keep) =>
      if keep { CloseQueue(k, k.current, w); } else { UnlinkedQueue(k, k.current, ExitF(k), w); }
    case AssignError(t, e) =>
    case Enter =>
    case Leave =>
  }

  lemma ScheduleQueue(k: K, w: nat)
    requires Inv(k)
    ensures HasLists(k) && Exists(k, k.current) && (forall l, t :: On(k.lists, l, t) ==> t in k.threads)
    ensures var k' := ScheduleF(k);
            && Queue(k', w) == Queue(k, w) && k'.threads.Keys == k.threads.Keys
            && (forall u :: u in k.threads ==>
                  SameBut(k.threads[u], k'.threads[u]) && k'.threads[u].timed == k.threads[u].timed)
            && (forall u :: u in k.threads && k.threads[u].stat !in {Ready, Running} ==> k'.threads[u] == k.threads[u])
            && (forall u :: u in k.threads && k'.threads[u].stat == Init ==> k.threads[u].stat == Init)
            && k'.limit == k.limit && k'.lock == k.lock
  {
    hide FirstReady, Without, Insert;
    Usable(k);
    QueueLaw(k, w);
    var top := FirstReady(k.lists, 0, k.limit);
    if top.Some? {
      var to := k.lists[PrioList(top.value)][0];
      assert On(k.lists, PrioList(top.value), to);
      assert to !in Queue(k, w);
      var k1 := k.(current := to);
      if k.current != to { InsertQueue(k1, k.current, w); }
      NotInWithout(Queue(k, w), to);
    }
  }

  lemma SuspendQueue(k: K, t: nat, w: nat)
    requires Inv(k) && t in k.threads
    ensures Queue(SuspendF(k, t).0, w) == Queue(k, w)
    ensures k.threads[t].stat == Running ==> SuspendF(k, t).1
  {
    QueueLaw(k, w);
    if k.threads[t].stat in {Ready, Running} {
      NotInWithout(Queue(k, w), t);
      UnlinkedQueue(k, t, SuspendF(k, t).0, w);
    }
  }

  lemma BlockOther(k: K, v: nat, flag: Flag, timed: bool, w: nat)
    requires Inv(k) && k.threads[k.current].stat == Running && v != w
    ensures forall l, t :: On(k.lists, l, t) ==> t in k.threads
    ensures Queue(BlockF(k, v, flag, timed), w) == Queue(k, w)
  {
    Usable(k);
    SuspendQueue(k, k.current, w);
  }

  lemma ResumeQueue(k: K, t: nat, w: nat)
    requires Inv(k) && t in k.threads
    ensures Exists(k, t) && HasLists(k)
    ensures Queue(ResumeF(k, t).0, w) == if k.threads[t].stat == Suspended then Without(Queue(k, w), t) else Queue(k, w)
  {
    Usable(k);
    if k.threads[t].stat == Suspended {
      var k1 := k.(lists := Unlinked(k.lists, t), threads := k.threads[t := k.threads[t].(timed := false)]);
      UnlinkedQueue(k, t, k1, w);
      InsertQueue(k1, t, w);
    }
  }

  lemma TimeoutQueue(k: K, t: nat, w: nat)
    requires Inv(k) && t in k.threads
    ensures Exists(k, t) && HasLists(k)
    ensures Queue(TimeoutF(k, t), w) == Without(Queue(k, w), t)
  {
    Usable(k);
    var k1 := k.(lists := Unlinked(k.lists, t),
        threads := k.threads[t := k.threads[t].(timed := false, error := Timeout)]);
    UnlinkedQueue(k, t, k1, w);
    InsertQueue(k1, t, w);
  }

  lemma StartupQueue(k: K, t: nat, w: nat)
    requires Inv(k) && t in k.threads && k.threads[t].stat == Init
    ensures Exists(k, t) && HasLists(k)
    ensures Queue(StartupF(k, t), w) == Queue(k, w)
  {
    Usable(k);
    QueueLaw(k, w);
    var th := k.threads[t];
    var k0 := k.(threads := k.threads[t := th.(prio := th.initPrio, stat := Suspended)]);
    var k1 := k0.(lists := Unlinked(k0.lists, t), threads := k0.threads[t := k0.threads[t].(timed := false)]);
    UnlinkedQueue(k0, t, k1, w);
    NotInWithout(Queue(k, w), t);
    InsertQueue(k1, t, w);
  }

  lemma ChangePriorityQueue(k: K, t: nat, p: nat, w: nat)
    requires Inv(k) && t in k.threads && p < k.limit
    ensures Exists(k, t) && HasLists(k)
    ensures Queue(ChangePriorityF(k, t, p), w) == Queue(k, w)
  {
    Usable(k);
    QueueLaw(k, w);
    if k.threads[t].stat == Ready {
      var k1 := k.(lists := Unlinked(k.lists, t), threads := k.threads[t := k.threads[t].(prio := p)]);
      UnlinkedQueue(k, t, k1, w);
      NotInWithout(Queue(k, w), t);
      InsertQueue(k1, t, w);
    }
  }

  lemma CloseQueue(k: K, t: nat, w: nat)
    requires Inv(k) && t in k.threads
    ensures HasLists(k) && Queue(CloseF(k, t), w) == Without(Queue(k, w), t)
  {
    Usable(k);
    UnlinkedQueue(k, t, k.(lists := Unlinked(k.lists, t)), w);
  }

  // Priorities and error codes change only where a call says so.
  lemma CallThreads(k: K, c: Call)
    requires Inv(k) && Legal(k, c)
    ensures CallF(k, c).threads.Keys == k.threads.Keys && CallF(k, c).limit == k.limit
    ensures forall u :: u in k.threads && !((c.Startup? || c.ChangePriority?) && c.t == u) ==>
              CallF(k, c).threads[u].prio == k.threads[u].prio
    ensures forall u :: u in k.threads ==>
              CallF(k, c).threads[u].error ==
                if c.TimerFires? && c.t == u then Timeout
                else if c.AssignError? && c.t == u then c.error else k.threads[u].error
    ensures forall u :: u in k.threads && CallF(k, c).threads[u].stat == Init ==> k.threads[u].stat == Init
    ensures forall u :: u in k.threads && CallF(k, c).threads[u].timed ==>
              (k.threads[u].timed && !(c.TimerFires? && c.t == u)) || ((c.Block? || c.Sleep?) && u == k.current)
  {
    hide Inv, TimeoutF, ScheduleF, BlockF, SleepF, SuspendF, StartupF, ResumeF, ChangePriorityF, CloseF, ExitF;
    Usable(k);
    if c.TimerFires? {
      TimerLegal(k, c.t);
      TimeoutInv(k, c.t);
      ScheduleQueue(TimeoutF(k, c.t), 0);
      TimeoutThreads(k, c.t);
    } else if c.Schedule? {
      ScheduleQueue(k, 0);
    } else {
      PlainThreads(k, c);
    }
  }

  lemma TimerLegal(k: K, t: nat)
    requires Inv(k) && Legal(k, TimerFires(t))
    ensures t in k.threads && k.threads[t].stat == Suspended
  {
  }

  // What a call other than a schedule and a timer does to the threads.
  ghost predicate Plain(k: K, c: Call, k': K)
    requires Inv(k)
  {
    && k'.threads.Keys == k.threads.Keys && k'.limit == k.limit
    && forall u :: u in k.threads ==>
      && (!((c.Startup? || c.ChangePriority?) && c.t == u) ==> k'.threads[u].prio == k.threads[u].prio)
      && k'.threads[u].error == (if c.AssignError? && c.t == u then c.error else k.threads[u].error)
      && (k'.threads[u].stat == Init ==> k.threads[u].stat == Init)
      && (k'.threads[u].timed ==> k.threads[u].timed || ((c.Block? || c.Sleep?) && u == k.current))
  }

  lemma PlainThreads(k: K, c: Call)
    requires Inv(k) && Legal(k, c) && !c.TimerFires? && !c.Schedule?
    ensures Plain(k, c, CallF(k, c))
  {
    if c.Resume? || c.Startup? || c.ChangePriority? {
      PlainInserts(k, c);
    } else {
      hide Lists, Unlinked, Linked, ResumeF, StartupF, ChangePriorityF, TimeoutF, ScheduleF;
      Usable(k);
    }
  }

  lemma PlainInserts(k: K, c: Call)
    requires Inv(k) && Legal(k, c) && (c.Resume? || c.Startup? || c.ChangePriority?)
    ensures Plain(k, c, CallF(k, c))
  {
    hide Lists, Unlinked, Linked, BlockF, SuspendF, TimeoutF, ScheduleF, CloseF, ExitF, SleepF;
    Usable(k);
  }

  lemma TimeoutThreads(k: K, t: nat)
    requires Exists(k, t) && HasLists(k)
    ensures var k' := TimeoutF(k, t);
            && k'.threads.Keys == k.threads.Keys && k'.limit == k.limit
            && (forall u :: u in k.threads ==> k'.threads[u].prio == k.threads[u].prio)
            && (forall u :: u in k.threads ==> k'.threads[u].error == if u == t then Timeout else k.threads[u].error)
            && (forall u :: u in k.threads ==> k'.threads[u].timed == (u != t && k.threads[u].timed))
            && (forall u :: u in k.threads && k'.threads[u].stat == Init ==> k.threads[u].stat == Init)
  {
  }

  // rt_ipc_list_suspend puts the current thread where its flag says.
  lemma BlockQueue(k: K, w: nat, flag: Flag, timed: bool)
    requires Inv(k) && k.threads[k.current].stat == Running
    ensures forall l, t :: On(k.lists, l, t) ==> t in k.threads
    ensures Known(Queue(k, w), Prios(k))
    ensures var k' := BlockF(k, w, flag, timed);
            && Queue(k', w) == Enqueue(flag, Queue(k, w), Prios(k), k.current)
            && k'.threads == k.threads[k.current := k.threads[k.current].(stat := Suspended, timed := timed)]
            && k'.current == k.current && k'.limit == k.limit && k'.lock == k.lock
  {
    Usable(k);
    QueueLaw(k, w);
    SuspendQueue(k, k.current, w);
    var k1 := SuspendF(k, k.current).0;
    assert Prios(k1) == Prios(k);
  }

  // ----- resuming waiters

  // rt_ipc_list_resume
  ghost function WakeF(k: K, w: nat): (k': K)
    requires Inv(k) && Queue(k, w) != []
  {
    QueueLaw(k, w);
    Usable(k);
    ResumeF(k, Queue(k, w)[0]).0
  }

  lemma WakeLaw(k: K, w: nat)
    requires Inv(k) && Queue(k, w) != []
    ensures var k', t := WakeF(k, w), Queue(k, w)[0];
            && Inv(k') && Queue(k', w) == Queue(k, w)[1..]
            && (forall v :: v != w ==> Queue(k', v) == Queue(k, v))
            && k'.threads.Keys == k.threads.Keys && k'.current == k.current && k'.lock == k.lock && k'.limit == k.limit
            && (forall u :: u in k.threads && u != t ==> k'.threads[u] == k.threads[u])
            && t in k.threads && SameBut(k.threads[t], k'.threads[t])
            && k'.threads[t].stat == (if t == k.current then Running else Ready)
  {
    var t := Queue(k, w)[0];
    QueueLaw(k, w);
    Usable(k);
    ResumeInv(k, t);
    ResumeQueue(k, t, w);
    HeadDropped(Queue(k, w));
    forall v | v != w
      ensures Queue(WakeF(k, w), v) == Queue(k, v)
    {
      ResumeQueue(k, t, v);
      NotInWithout(Queue(k, v), t);
    }
  }

  lemma ErrorInv(k: K, t: nat, e: Error)
    requires Inv(k) && t in k.threads
    ensures Inv(ErrorF(k, t, e)) && forall w :: Queue(ErrorF(k, t, e), w) == Queue(k, w)
  {
  }

  // One turn of rt_ipc_list_resume_all.
  ghost function FailF(k: K, w: nat): (k': K)
    requires Inv(k) && Queue(k, w) != []
    ensures Inv(k') && Queue(k', w) == Queue(k, w)[1..]
    ensures forall v :: v != w ==> Queue(k', v) == Queue(k, v)
  {
    QueueLaw(k, w);
    ErrorInv(k, Queue(k, w)[0], Failed);
    WakeLaw(ErrorF(k, Queue(k, w)[0], Failed), w);
    WakeF(ErrorF(k, Queue(k, w)[0], Failed), w)
  }

  // rt_ipc_list_resume_all
  ghost function WakeAllF(k: K, w: nat): (k': K)
    requires Inv(k)
    decreases |Queue(k, w)|
  {
    if Queue(k, w) == [] then k else WakeAllF(FailF(k, w), w)
  }

  // All waiters are resumed with an error; nothing else changes.
  lemma {:induction false} WakeAllLaw(k: K, w: nat)
    requires Inv(k)
    ensures Inv(WakeAllF(k, w)) && AllFailed(k, WakeAllF(k, w), w)
    decreases |Queue(k, w)|
  {
    hide Inv, FailF, AllFailed;
    if Queue(k, w) == [] {
      NobodyFailed(k, w);
    } else {
      FailInv(k, w);
      WakeAllLaw(FailF(k, w), w);
      FailedThen(k, WakeAllF(k, w), w);
    }
  }

  lemma NobodyFailed(k: K, w: nat)
    requires Queue(k, w) == []
    ensures AllFailed(k, k, w)
  {
  }

  lemma FailInv(k: K, w: nat)
    requires Inv(k) && Queue(k, w) != []
    ensures Inv(FailF(k, w)) && |Queue(FailF(k, w), w)| < |Queue(k, w)|
  {
    hide Inv, WakeF, Queue;
  }

  lemma FailedThen(k: K, k': K, w: nat)
    requires Inv(k) && Queue(k, w) != [] && AllFailed(FailF(k, w), k', w)
    ensures AllFailed(k, k', w)
  {
    hide Inv, Queue, FailF;
    FailedThread(k, w);
    FailedOthers(k, w);
  }

  lemma FailedOthers(k: K, w: nat)
    requires Inv(k) && Queue(k, w) != []
    ensures forall v :: v != w ==> Queue(FailF(k, w), v) == Queue(k, v)
  {
    hide Inv, WakeF, Queue;
  }

  lemma FailedThread(k: K, w: nat)
    requires Inv(k) && Queue(k, w) != []
    ensures var k1, t := FailF(k, w), Queue(k, w)[0];
            && t in k.threads && t !in Queue(k1, w)
            && (forall u :: u in Queue(k, w) <==> u == t || u in Queue(k1, w))
            && k1.threads.Keys == k.threads.Keys && k1.current == k.current && k1.lock == k.lock && k1.limit == k.limit
            && (forall u :: u in k.threads && u != t ==> k1.threads[u] == k.threads[u])
            && k1.threads[t].stat == (if t == k.current then Running else Ready)
            && k1.threads[t].error == Failed && k1.threads[t].prio == k.threads[t].prio
  {
    hide Inv, WakeF, Queue;
    var t := Queue(k, w)[0];
    QueueLaw(k, w);
    ErrorInv(k, t, Failed);
    WakeLaw(ErrorF(k, t, Failed), w);
    assert Queue(k, w) == [t] + Queue(k, w)[1..];
  }

  // ----- what they come to, seen from outside

  // The first waiter of list w is ready, with its timer stopped and its error code as it was; nobody else
  // has moved.
  ghost predicate FirstResumed(k: K, k': K, w: nat) {
    Queue(k, w) != []
    && var t := Queue(k, w)[0];
       && t in k.threads && k.threads[t].stat == Suspended
       && E.MadeReady(k, k', t, k.threads[t].(timed := false))
       && Queue(k', w) == Queue(k, w)[1..]
  }

  lemma WakeIs(k: K, w: nat)
    requires Inv(k) && Queue(k, w) != []
    ensures FirstResumed(k, WakeF(k, w), w)
  {
    hide E.MadeReady, Inv, ResumeF;
    QueueLaw(k, w);
    WakeLaw(k, w);
    E.ResumeLaw(k, Queue(k, w)[0]);
  }

  // Every waiter of list w is ready, with an error; nobody else and no other wait list has changed.
  ghost predicate AllFailed(k: K, k': K, w: nat) {
    && Queue(k', w) == [] && (forall v :: v != w ==> Queue(k', v) == Queue(k, v))
    && k'.threads.Keys == k.threads.Keys && k'.current == k.current && k'.lock == k.lock && k'.limit == k.limit
    && (forall u :: u in k.threads ==>
          if u in Queue(k, w) then
            && k'.threads[u].stat == (if u == k.current then Running else Ready)
            && k'.threads[u].error == Failed && k'.threads[u].prio == k.threads[u].prio
          else k'.threads[u] == k.threads[u])
  }

  // Only the error code of thread t is different.
  ghost predicate ErrorOnly(k: K, k': K, t: nat, e: Error) {
    t in k.threads && k' == k.(threads := k.threads[t := k.threads[t].(error := e)])
  }

  // The running thread is suspended on list w, where its flag says, with no error, and with its timer
  // started exactly if it waits for a limited time; nobody else has moved.
  ghost predicate HasBlocked(k: K, k': K, w: nat, flag: Flag, timed: bool) {
    && k.current in k.threads && Known(Queue(k, w), Prios(k))
    && Queue(k', w) == Enqueue(flag, Queue(k, w), Prios(k), k.current)
    && (forall v :: v != w ==> Queue(k', v) == Queue(k, v))
    && k'.current == k.current && k'.limit == k.limit && k'.lock == k.lock
    && k'.threads == k.threads[k.current := k.threads[k.current].(stat := Suspended, timed := timed, error := Ok)]
  }

  lemma BlockedMembers(k: K, k': K, w: nat, flag: Flag, timed: bool)
    requires HasBlocked(k, k', w, flag, timed)
    ensures forall u :: u in Queue(k', w) <==> u == k.current || u in Queue(k, w)
  {
    hide Queue;
    EnqueueMembers(flag, Queue(k, w), Prios(k), k.current);
  }

  lemma BlockedIs(k: K, w: nat, flag: Flag, timed: bool)
    requires Inv(k) && k.threads[k.current].stat == Running
    ensures Inv(ErrorF(k, k.current, Ok))
    ensures forall l, t :: On(ErrorF(k, k.current, Ok).lists, l, t) ==> t in ErrorF(k, k.current, Ok).threads
    ensures HasBlocked(k, BlockF(ErrorF(k, k.current, Ok), w, flag, timed), w, flag, timed)
  {
    hide Inv, BlockF, Queue, Enqueue;
    Usable(k);
    var k1 := ErrorF(k, k.current, Ok);
    ErrorInv(k, k.current, Ok);
    BlockQueue(k1, w, flag, timed);
    assert Prios(k1) == Prios(k);
    forall v | v != w
      ensures Queue(BlockF(k1, w, flag, timed), v) == Queue(k, v)
    {
      BlockOther(k1, w, flag, timed, v);
    }
  }

  // ----- the order of a suspend list over whole runs

  ghost predicate InOrder(k: K, w: nat) {
    Known(Queue(k, w), Prios(k)) && Sorted(Queue(k, w), Prios(k))
  }

  // A list by priority stays in order under every call but a change of a waiter's priority: most
  // urgent first, and among equals first come, first served.
  lemma CallInOrder(k: K, c: Call, w: nat)
    requires Inv(k) && Legal(k, c) && InOrder(k, w)
    requires c.Block? && c.w == w ==> c.flag == Prio
    requires c.ChangePriority? ==> c.t !in Queue(k, w)
    ensures InOrder(CallF(k, c), w)
  {
    if c.Block? && c.w == w { BlockInOrder(k, c, w); } else { OtherInOrder(k, c, w); }
  }

  lemma BlockInOrder(k: K, c: Call, w: nat)
    requires Inv(k) && Legal(k, c) && InOrder(k, w) && c.Block? && c.w == w && c.flag == Prio
    ensures InOrder(CallF(k, c), w)
  {
    hide Inv, Queue, CallF, Sorted, BlockF, Enqueue, Known;
    Usable(k);
    BlockQueue(k, w, c.flag, c.timed);
    BlockIsCall(k, c);
    EnqueueLaw(Queue(k, w), Prios(k), k.current);
    assert Prios(CallF(k, c)) == Prios(k);
  }

  lemma OtherInOrder(k: K, c: Call, w: nat)
    requires Inv(k) && Legal(k, c) && InOrder(k, w) && !(c.Block? && c.w == w)
    requires c.ChangePriority? ==> c.t !in Queue(k, w)
    ensures InOrder(CallF(k, c), w)
  {
    hide Inv, Queue, CallF, Sorted, Legal;
    QueueLaw(k, w);
    CallThreads(k, c);
    CallQueue(k, c, w);
    if c.Startup? { StartupNotWaiting(k, c, w); }
    if Leaver(k, c).Some? {
      WithoutIs(Queue(k, w), Leaver(k, c).value);
      DropSorted(Queue(k, w), Prios(k), Leaver(k, c).value);
    }
    SamePrios(Queue(CallF(k, c), w), Prios(k), Prios(CallF(k, c)));
  }

  lemma BlockIsCall(k: K, c: Call)
    requires Inv(k) && Legal(k, c) && c.Block? && forall l, t :: On(k.lists, l, t) ==> t in k.threads
    ensures CallF(k, c) == BlockF(k, c.w, c.flag, c.timed)
  {
  }

  lemma StartupNotWaiting(k: K, c: Call, w: nat)
    requires Inv(k) && Legal(k, c) && c.Startup?
    ensures c.t !in Queue(k, w)
  {
    QueueLaw(k, w);
  }

  lemma SamePrios(q: seq<nat>, prio: map<nat, nat>, prio': map<nat, nat>)
    requires Known(q, prio) && Sorted(q, prio) && forall t :: t in q ==> t in prio' && prio'[t] == prio[t]
    ensures Known(q, prio') && Sorted(q, prio')
  {
  }
}
