// The inline list functions of ipc.c, and its semaphore, as code over the scheduler. A call that may
// block is split where its thread gives up the processor: the part before rt_schedule, with it, and
// the part after the thread runs again.
module IpcLists {
  import opened Wrappers
  import opened Rings
  import opened WaitQueue
  import opened Threads
  import opened ThreadLaws
  import opened Waits
  import opened Callers
  import S = Scheduler

  method SetError(sched: S.Scheduler, t: nat, e: Error)
    requires sched.Valid() && t in sched.threads
    modifies sched`threads
    ensures sched.Valid() && sched.View() == ErrorF(old(sched.View()), t, e)
  {
    hide Inv, S.LinksFor, S.BitsFor, S.MasksFor;
    ErrorInv(sched.View(), t, e);
    sched.SetThread(t, sched.threads[t].(error := e));
  }

  // Whether list w is empty.
  method IsEmpty(sched: S.Scheduler, w: nat) returns (b: bool)
    requires sched.Valid()
    ensures b <==> Queue(sched.View(), w) == []
  {
    b := WaitList(w) !in sched.lists || sched.lists[WaitList(w)] == [];
  }

  // rt_ipc_list_resume
  method ListResume(sched: S.Scheduler, w: nat)
    requires sched.Valid() && Queue(sched.View(), w) != []
    modifies sched`lists, sched`link, sched`group, sched`table, sched`threads
    ensures sched.Valid() && Inv(old(sched.View())) && sched.View() == WakeF(old(sched.View()), w)
  {
    hide Inv, S.LinksFor, S.BitsFor, S.MasksFor, ResumeF;
    QueueLaw(sched.View(), w);
    var ok := sched.Resume(sched.lists[WaitList(w)][0]);
  }

  // rt_ipc_list_resume_all
  method ListResumeAll(sched: S.Scheduler, w: nat)
    requires sched.Valid()
    modifies sched`lists, sched`link, sched`group, sched`table, sched`threads
    ensures sched.Valid() && Inv(old(sched.View())) && sched.View() == WakeAllF(old(sched.View()), w)
  {
    hide Inv, S.LinksFor, S.BitsFor, S.MasksFor, ResumeF, WakeF, Queue;
    var empty := IsEmpty(sched, w);
    while !empty
      invariant sched.Valid() && (empty <==> Queue(sched.View(), w) == [])
      invariant WakeAllF(sched.View(), w) == WakeAllF(old(sched.View()), w)
      decreases |Queue(sched.View(), w)|
    {
      var thread := FirstOf(sched, w);
      QueueLaw(sched.View(), w);
      ErrorInv(sched.View(), thread, Failed);
      SetError(sched, thread, Failed);
      ListResume(sched, w);
      empty := IsEmpty(sched, w);
    }
  }

  // Resetting the error code, rt_ipc_list_suspend, and starting the timer.
  method WaitOn(sched: S.Scheduler, w: nat, flag: Flag, timeout: int)
    requires sched.Valid() && Inv(sched.View()) && sched.threads[sched.current].stat == Running
    modifies sched`lists, sched`link, sched`group, sched`table, sched`threads
    ensures Inv(old(sched.View())) && sched.Valid() && sched.View() == WaitF(old(sched.View()), w, flag, timeout)
  {
    hide Inv, S.LinksFor, S.BitsFor, S.MasksFor, BlockF;
    Usable(sched.View());
    ErrorInv(sched.View(), sched.current, Ok);
    SetError(sched, sched.current, Ok);
    sched.Block(w, flag, timeout > 0);
  }

  method FirstOf(sched: S.Scheduler, w: nat) returns (t: nat)
    requires sched.Valid() && Queue(sched.View(), w) != []
    ensures t == Queue(sched.View(), w)[0]
  {
    t := sched.lists[WaitList(w)][0];
  }
}

// rt_sem_take, rt_sem_release and rt_sem_control
module SemaphoreObject {
  import opened Wrappers
  import opened WaitQueue
  import opened Threads
  import opened ThreadLaws
  import opened Waits
  import opened Callers
  import opened Semaphores
  import opened IpcLists
  import S = Scheduler

  class Semaphore {
    const sched: S.Scheduler
    const w: nat                     // the suspend list
    const flag: Flag
    var value: nat
    ghost var inside: map<nat, bool> // only keeps account

    ghost function View(): Sem
      reads this, sched
    {
      Sem(sched.View(), w, flag, value, inside)
    }

    ghost predicate Valid()
      reads this, sched
    {
      sched.Valid() && SemInv(View())
    }

    // rt_sem_init on a suspend list nobody waits on; the value is kept in sixteen bits.
    constructor (sched: S.Scheduler, w: nat, flag: Flag, value: nat)
      requires sched.Valid() && Queue(sched.View(), w) == []
      ensures Valid() && this.sched == sched && View() == Sem(sched.View(), w, flag, value % WIDTH, map[])
    {
      this.sched, this.w, this.flag := sched, w, flag;
      this.value, inside := value % WIDTH, map[];
    }

    // The program reaches rt_schedule with the semaphore in state s.
    static ghost function Scheduled(s: Sem): Sem
      requires Inv(s.k)
    {
      OtherF(s, Call.Schedule)
    }

    // rt_sem_take
    method Take(time: int) returns (r: Outcome)
      requires Valid() && MayTake(View(), time)
      modifies this`value, this`inside, sched
      ensures Inv(old(sched.View())) && MayTake(old(View()), time) && Valid()
      ensures r == TakeF(old(View()), time).1
      ensures Inv(TakeF(old(View()), time).0.k)
      ensures View() == if r.Blocked? then Scheduled(TakeF(old(View()), time).0) else TakeF(old(View()), time).0
    {
      hide Inv, SemInv, S.LinksFor, S.BitsFor, S.MasksFor, BlockF, ScheduleF;
      TakeInv(View(), time);
      SemBounds(View());
      SemBounds(TakeF(View(), time).0);
      if value > 0 {
        value := value - 1;
        return Done(Ok);
      }
      if time == 0 { return Done(Timeout); }
      var thread := sched.current;
      SetError(sched, thread, Ok);
      sched.Block(w, flag, time > 0);
      inside := inside[thread := false];
      Reschedule();
      return Blocked;
    }

    // The program calls rt_schedule.
    method Reschedule()
      requires Valid()
      modifies sched
      ensures Inv(old(sched.View())) && Valid() && View() == Scheduled(old(View()))
    {
      hide Inv, SemInv, S.LinksFor, S.BitsFor, S.MasksFor, ScheduleF;
      ScheduledInv(View());
      sched.Schedule();
    }

    static lemma ScheduledInv(s: Sem)
      requires SemInv(s)
      ensures Inv(s.k) && SemInv(Scheduled(s))
      ensures Scheduled(s) == s.(k := ScheduleF(s.k))
    {
      OtherInv(s, Call.Schedule);
    }

    // The end of a rt_sem_take that had blocked, when its thread goes on.
    method Return() returns (e: Error)
      requires Valid() && sched.current in sched.threads && sched.current in inside
      modifies this`inside
      ensures sched.Valid() && (View(), e) == ReturnF(old(View()))
      ensures Valid() <==> sched.current !in Queue(sched.View(), w)
      ensures Valid() ==> (e == Ok <==> old(inside)[sched.current])
    {
      hide Inv, SemInv, S.LinksFor, S.BitsFor, S.MasksFor;
      ReturnInv(View());
      e := sched.threads[sched.current].error;
      inside := inside - {sched.current};
    }

    // rt_sem_release
    method Release()
      requires Valid()
      modifies this`value, this`inside, sched
      ensures Inv(old(sched.View())) && Valid() && Inv(ReleaseF(old(View())).k)
      ensures View() == if Queue(old(sched.View()), w) != [] then Scheduled(ReleaseF(old(View())))
              else ReleaseF(old(View()))
    {
      hide Inv, SemInv, S.LinksFor, S.BitsFor, S.MasksFor, WakeF, ScheduleF, Queue;
      ReleaseInv(View());
      SemBounds(View());
      SemBounds(ReleaseF(View()));
      var empty := IsEmpty(sched, w);
      if !empty {
        var thread := FirstOf(sched, w);
        ListResume(sched, w);
        inside := inside[thread := true];
        Reschedule();
      } else {
        value := (value + 1) % WIDTH;
      }
    }

    // RT_IPC_CMD_RESET
    method Reset(value: nat)
      requires Valid()
      modifies this`value, sched
      ensures Inv(old(sched.View())) && Valid() && Inv(ResetF(old(View()), value).k)
      ensures View() == Scheduled(ResetF(old(View()), value))
    {
      hide Inv, SemInv, S.LinksFor, S.BitsFor, S.MasksFor, WakeAllF, ScheduleF, Queue;
      ResetInv(View(), value);
      SemBounds(View());
      SemBounds(ResetF(View(), value));
      ListResumeAll(sched, w);
      this.value := value % WIDTH;
      Reschedule();
    }
  }
}

// rt_mutex_take and rt_mutex_release
module MutexObject {
  import opened Wrappers
  import opened WaitQueue
  import opened Threads
  import opened ThreadLaws
  import opened Waits
  import opened Callers
  import opened Mutexes
  import opened IpcLists
  import S = Scheduler

  class MutexObject {
    const sched: S.Scheduler
    const w: nat                     // the suspend list
    const flag: Flag
    var value: nat
    var owner: Option<nat>
    var orig: nat                    // original_priority
    var hold: nat
    ghost var depth: nat             // these three fields only keep account
    ghost var acquired: nat
    ghost var inside: map<nat, bool>

    ghost function View(): Mutex
      reads this, sched
    {
      Mutex(sched.View(), w, flag, value, owner, orig, hold, depth, acquired, inside)
    }

    ghost predicate Valid()
      reads this, sched
    {
      sched.Valid() && MutexInv(View())
    }

    // rt_mutex_init on a suspend list nobody waits on
    constructor (sched: S.Scheduler, w: nat, flag: Flag)
      requires sched.Valid() && Queue(sched.View(), w) == []
      ensures Valid() && this.sched == sched && Inheriting(View())
      ensures View() == Mutex(sched.View(), w, flag, 1, None, NO_PRIORITY, 0, 0, 0, map[])
    {
      this.sched, this.w, this.flag := sched, w, flag;
      value, owner, orig, hold, depth, acquired, inside := 1, None, NO_PRIORITY, 0, 0, 0, map[];
    }

    static ghost function Scheduled(m: Mutex): Mutex
      requires Inv(m.k)
    {
      OtherF(m, Call.Schedule)
    }

    // The program calls rt_schedule.
    method Reschedule()
      requires Valid()
      modifies sched
      ensures Inv(old(sched.View())) && Valid() && View() == Scheduled(old(View()))
    {
      hide Inv, MutexInv, S.LinksFor, S.BitsFor, S.MasksFor, ScheduleF;
      ScheduledInv(View());
      sched.Schedule();
    }

    static lemma ScheduledInv(m: Mutex)
      requires MutexInv(m)
      ensures Inv(m.k) && MutexInv(Scheduled(m))
      ensures Scheduled(m) == m.(k := ScheduleF(m.k))
    {
      OtherInv(m, Call.Schedule);
    }

    static lemma Bounds(m: Mutex)
      requires MutexInv(m)
      ensures Inv(m.k) && m.value == (if m.owner == None then 1 else 0)
      ensures m.owner.Some? ==> m.owner.value in m.k.threads
    {
    }

    // The state v after a take that came to m1: a thread that blocks gives up the processor.
    static ghost predicate Reached(m1: Mutex, r: Outcome, v: Mutex) {
      Inv(m1.k) && v == if r.Blocked? then Scheduled(m1) else m1
    }

    // rt_mutex_take
    method Take(time: int) returns (r: Outcome)
      requires Valid() && Free(sched.View(), inside)
      modifies this`value, this`owner, this`orig, this`hold, this`depth, this`acquired, this`inside, sched
      ensures MutexInv(old(View())) && MayCall(old(View())) && Valid()
      ensures r == TakeF(old(View()), time).1 && Reached(TakeF(old(View()), time).0, r, View())
    {
      hide Inv, MutexInv, S.LinksFor, S.BitsFor, S.MasksFor, JoinF, Scheduled;
      TakeInv(View(), time);
      Bounds(View());
      Bounds(TakeF(View(), time).0);
      var thread := sched.current;
      ErrorInv(sched.View(), thread, Ok);
      SetError(sched, thread, Ok);
      if owner == Some(thread) {
        hold := (hold + 1) % 256;
        depth := depth + 1;
        return Done(Ok);
      }
      if value > 0 {
        Gain();
        return Done(Ok);
      }
      if time == 0 {
        SetError(sched, thread, Timeout);
        return Done(Timeout);
      }
      Join(time > 0);
      r := Blocked;
    }

    // The branch of rt_mutex_take for a free mutex.
    method Gain()
      requires sched.current in sched.threads && value > 0
      modifies this`value, this`owner, this`orig, this`hold, this`depth, this`acquired
      ensures value == old(value) - 1 && owner == Some(sched.current) && hold == (old(hold) + 1) % 256 && depth == 1
      ensures orig == acquired == sched.threads[sched.current].prio
    {
      value := value - 1;
      owner := Some(sched.current);
      orig := sched.threads[sched.current].prio;
      hold := (hold + 1) % 256;
      depth, acquired := 1, sched.threads[sched.current].prio;
    }

    // The blocking branch of rt_mutex_take.
    method Join(timed: bool)
      requires sched.Valid() && Inv(sched.View()) && sched.threads[sched.current].stat == Running
      requires owner.Some? && owner.value in sched.threads && owner.value != sched.current
      requires MutexInv(JoinF(View(), timed))
      modifies this`inside, sched
      ensures Inv(old(sched.View())) && Inv(JoinF(old(View()), timed).k) && Valid()
      ensures View() == Scheduled(JoinF(old(View()), timed))
    {
      hide Inv, MutexInv, S.LinksFor, S.BitsFor, S.MasksFor, BlockF, Scheduled, ChangePriorityF;
      Bounds(JoinF(View(), timed));
      Usable(sched.View());
      var thread := sched.current;
      BoostLaw(sched.View(), owner.value, sched.threads[thread].prio);
      if sched.threads[thread].prio < sched.threads[owner.value].prio {
        sched.ChangePriority(owner.value, sched.threads[thread].prio);
      }
      sched.Block(w, flag, timed);
      inside := inside[thread := false];
      Reschedule();
    }

    // The end of a rt_mutex_take that had blocked, when its thread goes on.
    method Return() returns (e: Error)
      requires Valid() && sched.current in sched.threads && sched.current in inside
      modifies this`inside
      ensures sched.Valid() && (View(), e) == ReturnF(old(View()))
      ensures Valid() <==> sched.current !in Queue(sched.View(), w)
      ensures Valid() ==> (e == Ok ==> owner == Some(sched.current))
    {
      hide Inv, MutexInv, S.LinksFor, S.BitsFor, S.MasksFor;
      ReturnInv(View());
      e := sched.threads[sched.current].error;
      inside := inside - {sched.current};
    }

    // rt_mutex_release
    method Release() returns (e: Error)
      requires Valid() && Free(sched.View(), inside)
      modifies this`value, this`owner, this`orig, this`hold, this`depth, this`acquired, this`inside, sched
      ensures MutexInv(old(View())) && MayCall(old(View())) && Valid() && e == ReleaseF(old(View())).1
      ensures Inv(ReleaseF(old(View())).0.k)
      ensures View() == if FullRelease(old(View())) && Queue(old(sched.View()), w) != []
              then Scheduled(ReleaseF(old(View())).0)
                        else ReleaseF(old(View())).0
    {
      hide Inv, MutexInv, S.LinksFor, S.BitsFor, S.MasksFor, ScheduleF, ChangePriorityF, WakeF, Queue;
      ReleaseInv(View());
      Bounds(View());
      Bounds(ReleaseF(View()).0);
      var thread := sched.current;
      if owner != Some(thread) {
        SetError(sched, thread, Failed);
        return Failed;
      }
      if (hold - 1) % 256 != 0 {
        hold := (hold - 1) % 256;
        depth := depth - 1;
        return Ok;
      }
      GiveUp();
      e := Ok;
    }

    // The branch of rt_mutex_release in which `hold` becomes zero.
    method GiveUp()
      requires Valid() && Free(sched.View(), inside) && FullRelease(View())
      modifies this`value, this`owner, this`orig, this`hold, this`depth, this`acquired, this`inside, sched
      ensures MutexInv(old(View())) && MayCall(old(View())) && Valid() && Inv(ReleaseF(old(View())).0.k)
      ensures View() == if Queue(old(sched.View()), w) != [] then Scheduled(ReleaseF(old(View())).0)
              else ReleaseF(old(View())).0
    {
      hide Inv, MutexInv, S.LinksFor, S.BitsFor, S.MasksFor, ScheduleF, RestoreF, HandF, Queue, Scheduled, ReleaseF,
          FullRelease;
      ReleaseInv(View());
      ReleaseIs(View());
      Bounds(View());
      Bounds(ReleaseF(View()).0);
      Restore();
      hold := (hold - 1) % 256;
      var empty := IsEmpty(sched, w);
      if !empty {
        HandOn();
      } else {
        value := value + 1;
        owner := None;
        orig := NO_PRIORITY;
        depth := 0;
      }
    }

    static lemma ReleaseIs(m: Mutex)
      requires MutexInv(m) && MayCall(m) && FullRelease(m)
      ensures m.owner == Some(m.k.current) && (m.hold - 1) % 256 == 0 && Inv(RestoreF(m))
      ensures Queue(RestoreF(m), m.w) == Queue(m.k, m.w)
      ensures var m1 := m.(k := RestoreF(m), hold := 0);
              ReleaseF(m).0 == if Queue(m1.k, m.w) != [] then HandF(m1) else FreeF(m1)
    {
      RestoreLaw(m);
      hide Inv, Queue, RestoreF, HandF, MutexInv;
    }

    method HandOn()
      requires sched.Valid() && Queue(sched.View(), w) != [] && MutexInv(HandF(View()))
      modifies this`owner, this`orig, this`hold, this`depth, this`acquired, this`inside, sched
      ensures Inv(old(sched.View())) && Inv(HandF(old(View())).k) && Valid() && View() == Scheduled(HandF(old(View())))
    {
      hide Inv, MutexInv, S.LinksFor, S.BitsFor, S.MasksFor, ScheduleF, WakeF, Queue;
      Bounds(HandF(View()));
      QueueLaw(sched.View(), w);
      var thread := FirstOf(sched, w);
      owner := Some(thread);
      orig := sched.threads[thread].prio;
      hold := hold + 1;
      depth, acquired := 1, sched.threads[thread].prio;
      inside := inside[thread := true];
      ListResume(sched, w);
      Reschedule();
    }

    // The owner gets its own priority back.
    method Restore()
      requires Valid() && owner == Some(sched.current)
      modifies sched
      ensures MutexInv(old(View())) && sched.Valid() && sched.View() == RestoreF(old(View()))
    {
      hide Inv, MutexInv, S.LinksFor, S.BitsFor, S.MasksFor, ChangePriorityF;
      Bounds(View());
      OrigOk(View());
      if orig != sched.threads[owner.value].prio {
        sched.ChangePriority(owner.value, orig);
      }
    }

    static lemma OrigOk(m: Mutex)
      requires MutexInv(m) && m.owner.Some?
      ensures m.orig < m.k.limit
    {
    }
  }
}

// rt_event_send, rt_event_recv and rt_event_control
module EventObject {
  import opened Wrappers
  import opened Rings
  import opened WaitQueue
  import opened Threads
  import opened ThreadLaws
  import opened Waits
  import opened Callers
  import opened Events
  import opened IpcLists
  import S = Scheduler

  // One turn of the loop of rt_event_send.
  lemma OneTurn(e: Event, i: nat)
    requires EventInv0(e) && i < |Queue(e.k, e.w)|
    ensures Inv(e.k) && Queue(e.k, e.w)[i] in e.asks
    ensures var t := Queue(e.k, e.w)[i];
            if Satisfied(e.events, e.asks[t]) then
              && EventInv0(DeliverF(e, t)) && DeliverF(e, t).w == e.w
                 && |Queue(DeliverF(e, t).k, e.w)| == |Queue(e.k, e.w)| - 1
              && WalkF(e, i).0 == WalkF(DeliverF(e, t), i).0 && WalkF(e, i).1 != []
            else WalkF(e, i) == WalkF(e, i + 1)
  {
    hide Queue, Account, Inv, DeliverF, Satisfied;
    AsksOk(e, i);
    if Satisfied(e.events, e.asks[Queue(e.k, e.w)[i]]) { DeliverLaw(e, i); }
  }

  lemma TurnsOver(e: Event)
    requires EventInv0(e)
    ensures WalkF(e, |Queue(e.k, e.w)|) == (e, [])
  {
  }

  class EventObject {
    const sched: S.Scheduler
    const w: nat                     // the suspend list
    const flag: Flag
    var events: bv32                 // event->set
    var asks: map<nat, Ask>          // event_set and event_info of the threads
    ghost var inside: map<nat, bool> // only keeps account

    ghost function View(): Event
      reads this, sched
    {
      Event(sched.View(), w, flag, events, asks, inside)
    }

    ghost predicate Valid()
      reads this, sched
    {
      sched.Valid() && EventInv(View())
    }

    // rt_event_init on a suspend list nobody waits on
    constructor (sched: S.Scheduler, w: nat, flag: Flag)
      requires sched.Valid() && Queue(sched.View(), w) == []
      ensures Valid() && View() == Event(sched.View(), w, flag, 0, map[], map[])
    {
      this.sched, this.w, this.flag := sched, w, flag;
      events, asks, inside := 0, map[], map[];
    }

    static ghost function Scheduled(e: Event): Event
      requires Inv(e.k)
    {
      OtherF(e, Call.Schedule)
    }

    // The program calls rt_schedule.
    method Reschedule()
      requires Valid()
      modifies sched
      ensures Inv(old(sched.View())) && Valid() && View() == Scheduled(old(View()))
    {
      hide Inv, EventInv, S.LinksFor, S.BitsFor, S.MasksFor, ScheduleF;
      ScheduledInv(View());
      sched.Schedule();
    }

    static lemma ScheduledInv(e: Event)
      requires EventInv(e)
      ensures Inv(e.k) && EventInv(Scheduled(e))
      ensures Scheduled(e) == e.(k := ScheduleF(e.k))
    {
      OtherInv(e, Call.Schedule);
    }

    // Number of waiters
    method Length() returns (n: nat)
      requires sched.Valid()
      ensures n == |Queue(sched.View(), w)|
    {
      n := if WaitList(w) in sched.lists then |sched.lists[WaitList(w)]| else 0;
    }

    method Waiter(i: nat) returns (t: nat)
      requires sched.Valid() && i < |Queue(sched.View(), w)|
      ensures t == Queue(sched.View(), w)[i]
    {
      t := sched.lists[WaitList(w)][i];
    }

    // The branch of the loop in which the condition is satisfied.
    method Deliver(thread: nat)
      requires sched.Valid() && Inv(sched.View()) && thread in Queue(sched.View(), w) && thread in asks
      requires Satisfied(events, asks[thread])
      modifies this`events, this`asks, this`inside, sched
      ensures sched.Valid() && Inv(old(sched.View())) && View() == DeliverF(old(View()), thread)
    {
      hide Inv, S.LinksFor, S.BitsFor, S.MasksFor, ResumeF, Queue, Common;
      QueueLaw(sched.View(), w);
      if !asks[thread].all {
        asks := asks[thread := asks[thread].(want := Common(asks[thread].want, events))];
      }
      if asks[thread].clear {
        events := Cleared(events, asks[thread].want);
      }
      var ok := sched.Resume(thread);
      inside := inside[thread := true];
      assert asks == old(asks)[thread := asks[thread]];
    }

    // The loop of rt_event_send; n is the position of its list pointer.
    method Walk() returns (resumed: bool)
      requires sched.Valid() && EventInv0(View())
      modifies this`events, this`asks, this`inside, sched
      ensures sched.Valid() && EventInv0(old(View())) && View() == WalkF(old(View()), 0).0
      ensures resumed <==> WalkF(old(View()), 0).1 != []
    {
      hide Inv, S.LinksFor, S.BitsFor, S.MasksFor, EventInv0, Account, Queue, Satisfied, DeliverF, WalkF;
      resumed := false;
      var n := 0;
      var length := Length();
      while n < length
        invariant sched.Valid() && EventInv0(View()) && n <= length == |Queue(sched.View(), w)|
        invariant WalkF(View(), n).0 == WalkF(old(View()), 0).0
        invariant if resumed then WalkF(old(View()), 0).1 != [] else WalkF(View(), n) == WalkF(old(View()), 0)
        decreases length - n
      {
        OneTurn(View(), n);
        var thread := Waiter(n);
        WaiterIn(sched.View(), w, n);
        if Satisfied(events, asks[thread]) {
          Deliver(thread);
          resumed := true;
        } else {
          n := n + 1;
        }
        length := Length();
      }
      TurnsOver(View());
    }

    static lemma WaiterIn(k: K, w: nat, n: nat)
      requires n < |Queue(k, w)|
      ensures Queue(k, w)[n] in Queue(k, w)
    {
    }

    static lemma SendParts(e: Event, bits: bv32)
      requires EventInv(e)
      ensures Inv(e.k) && EventInv0(e) && EventInv(SendF(e, bits).0) && Inv(SendF(e, bits).0.k)
    {
      hide Inv, EventInv, EventInv0, SendF;
      SendLaw(e, bits);
      InvParts(SendF(e, bits).0);
      InvParts(e);
    }

    // rt_event_send
    method Send(bits: bv32) returns (error: Error)
      requires Valid()
      modifies this`events, this`asks, this`inside, sched
      ensures EventInv(old(View())) && Valid() && error == SendF(old(View()), bits).1
      ensures Inv(SendF(old(View()), bits).0.k)
      ensures View() == if SendF(old(View()), bits).2 != [] then Scheduled(SendF(old(View()), bits).0)
              else SendF(old(View()), bits).0
    {
      hide Inv, S.LinksFor, S.BitsFor, S.MasksFor, EventInv, EventInv0, Account, Queue, WalkF, Scheduled, Joined;
      SendParts(View(), bits);
      if bits == 0 { return Failed; }
      MoreEvents(View(), Joined(events, bits));
      events := Joined(events, bits);
      var resumed := Walk();
      if resumed {
        Reschedule();
      }
      error := Ok;
    }

    static lemma RecvParts(e: Event, a: Ask, timeout: int)
      requires EventInv(e) && Free(e.k, e.inside)
      ensures Inv(e.k) && EventInv(RecvF(e, a, timeout).0) && Inv(RecvF(e, a, timeout).0.k)
    {
      hide Inv, EventInv, EventInv0, RecvF, HasBlocked, ErrorOnly;
      RecvInv(e, a, timeout);
      InvParts(e);
      InvParts(RecvF(e, a, timeout).0);
    }

    // rt_event_recv; `got` is what it stores for its caller.
    method Recv(want: bv32, all: bool, clear: bool, timeout: int) returns (r: Outcome, got: bv32)
      requires Valid() && Free(sched.View(), inside)
      modifies this`events, this`asks, this`inside, sched
      ensures EventInv(old(View())) && Free(old(sched.View()), old(inside)) && Valid()
      ensures (r, got) == (RecvF(old(View()), Ask(want, all, clear), timeout).1,
              RecvF(old(View()), Ask(want, all, clear), timeout).2)
      ensures Inv(RecvF(old(View()), Ask(want, all, clear), timeout).0.k)
      ensures var e1 := RecvF(old(View()), Ask(want, all, clear), timeout).0;
              View() == if r.Blocked? then Scheduled(e1) else e1
    {
      hide Inv, S.LinksFor, S.BitsFor, S.MasksFor, EventInv, Account, BlockF, ScheduleF, Queue, Satisfied;
      RecvParts(View(), Ask(want, all, clear), timeout);
      if want == 0 { return Done(Failed), 0; }
      var thread := sched.current;
      SetError(sched, thread, Ok);
      if Satisfied(events, Ask(want, all, clear)) {
        got := Common(want, events);
        if clear { events := Cleared(events, want); }
        return Done(Ok), got;
      }
      if timeout == 0 {
        SetError(sched, thread, Timeout);
        return Done(Timeout), 0;
      }
      asks := asks[thread := Ask(want, all, clear)];
      sched.Block(w, flag, timeout > 0);
      inside := inside[thread := false];
      Reschedule();
      return Blocked, 0;
    }

    // The end of a rt_event_recv that had blocked, when its thread goes on.
    method Return() returns (error: Error, got: bv32)
      requires Valid() && sched.current in sched.threads && sched.current in inside
      modifies this`inside
      ensures sched.Valid() && old(sched.current) in old(asks) && (View(), error, got) == ReturnF(old(View()))
      ensures Valid() <==> sched.current !in Queue(sched.View(), w)
    {
      hide Inv, EventInv, S.LinksFor, S.BitsFor, S.MasksFor;
      ReturnInv(View());
      error := sched.threads[sched.current].error;
      got := if error == Ok then asks[sched.current].want else 0;
      inside := inside - {sched.current};
    }

    // RT_IPC_CMD_RESET
    method Reset()
      requires Valid()
      modifies this`events, sched
      ensures Inv(old(sched.View())) && Valid() && Inv(ResetF(old(View())).k)
      ensures View() == Scheduled(ResetF(old(View())))
    {
      hide Inv, EventInv, S.LinksFor, S.BitsFor, S.MasksFor, WakeAllF, ScheduleF, Queue;
      ResetInv(View());
      InvParts(View());
      InvParts(ResetF(View()));
      ListResumeAll(sched, w);
      events := 0;
      Reschedule();
    }
  }
}
