// The threads and lists of thread.c and scheduler.c as values: what each call does to the states of
// the threads and to the one list each thread can be on. Scheduler.dfy ties the code with its bit
// masks to the functions of this module. Threads are numbers; smaller priorities are more urgent.
module Threads {
  import opened Wrappers
  import opened Rings
  import opened WaitQueue

  datatype Stat = Init | Ready | Suspended | Running | Closed
  datatype Error = Ok | Timeout | Failed | Full     // RT_EOK, -RT_ETIMEOUT, -RT_ERROR, -RT_EFULL
  datatype List = PrioList(p: nat) | WaitList(w: nat) | Defunct

  // `timed` tells whether the thread's own timer is started.
  datatype Thread = Thread(stat: Stat, initPrio: nat, prio: nat, timed: bool, error: Error)

  datatype K = K(limit: nat, threads: map<nat, Thread>, lists: map<List, seq<nat>>, current: nat, lock: int)

  // ----- lists

  // rt_list_remove: the thread leaves whatever list it is on.
  function Unlinked(lists: map<List, seq<nat>>, t: nat): (r: map<List, seq<nat>>)
  {
    map l | l in lists :: Without(lists[l], t)
  }

  function Linked(lists: map<List, seq<nat>>, l: List, pos: nat, t: nat): (r: map<List, seq<nat>>)
    requires l in lists && pos <= |lists[l]|
  {
    lists[l := Insert(lists[l], pos, t)]
  }

  predicate On(lists: map<List, seq<nat>>, l: List, t: nat) {
    l in lists && t in lists[l]
  }

  predicate Off(lists: map<List, seq<nat>>, t: nat) {
    forall l :: l in lists ==> t !in lists[l]
  }

  // The first non-empty ready list from priority p on.
  function FirstReady(lists: map<List, seq<nat>>, p: nat, limit: nat): (r: Option<nat>)
    requires forall q: nat :: q < limit ==> PrioList(q) in lists
    ensures r.Some? ==> p <= r.value < limit && lists[PrioList(r.value)] != []
    ensures forall q :: p <= q < (if r.Some? then r.value else limit) ==> lists[PrioList(q)] == []
    decreases limit - p
  {
    if p >= limit then None else if lists[PrioList(p)] != [] then Some(p) else FirstReady(lists, p + 1, limit)
  }

  // ----- the invariant

  // The state a thread on list l is in.
  predicate Fits(th: Thread, l: List) {
    match l
    case PrioList(p) => th.stat == Ready && th.prio == p
    case WaitList(_) => th.stat == Suspended
    case Defunct => th.stat == Closed
  }

  ghost predicate Lists(k: K) {
    && (forall p: nat :: p < k.limit ==> PrioList(p) in k.lists) && Defunct in k.lists
    && (forall l :: l in k.lists ==> Distinct(k.lists[l]))
    && (forall l, t :: On(k.lists, l, t) ==> t in k.threads && Fits(k.threads[t], l))
    && (forall t :: t in k.threads && k.threads[t].stat == Ready ==> On(k.lists, PrioList(k.threads[t].prio), t))
    && (forall v, w, t :: On(k.lists, WaitList(v), t) && On(k.lists, WaitList(w), t) ==> v == w)
    && (forall t :: t in k.threads ==> Sound(k.threads[t], k.limit))
  }

  predicate Sound(th: Thread, limit: nat) {
    th.prio < limit && th.initPrio < limit && (th.timed ==> th.stat == Suspended)
  }

  // The running thread is the current one, and the current one is on no ready list.
  ghost predicate Focus(k: K) {
    && k.current in k.threads
    && k.threads[k.current].stat != Ready && k.threads[k.current].stat != Init
    && (forall t :: t in k.threads && k.threads[t].stat == Running ==> t == k.current)
  }

  ghost predicate Inv(k: K) {
    Lists(k) && Focus(k)
  }

  // ----- the calls

  predicate Exists(k: K, t: nat) {
    t in k.threads && k.threads[t].prio < k.limit && k.threads[t].initPrio < k.limit
  }

  ghost predicate HasLists(k: K) {
    Defunct in k.lists && forall p: nat :: p < k.limit ==> PrioList(p) in k.lists
  }

  // rt_schedule_insert_thread: the current thread just runs on, any other becomes the last of its
  // priority.
  function InsertF(k: K, t: nat): (k': K)
    requires Exists(k, t) && HasLists(k)
  {
    var th := k.threads[t];
    if t == k.current then k.(threads := k.threads[t := th.(stat := Running)])
    else k.(threads := k.threads[t := th.(stat := Ready)],
            lists := Linked(k.lists, PrioList(th.prio), |k.lists[PrioList(th.prio)]|, t))
  }

  // rt_schedule: does nothing while the scheduler is locked, or while no thread is ready.
  function ScheduleF(k: K): (k': K)
    requires HasLists(k) && Exists(k, k.current)
    requires forall l, t :: On(k.lists, l, t) ==> t in k.threads
  {
    var top := FirstReady(k.lists, 0, k.limit);
    var cur := k.threads[k.current];
    if k.lock != 0 || top.None? || (cur.stat == Running && cur.prio < top.value) then k
    else
      var to := k.lists[PrioList(top.value)][0];
      assert On(k.lists, PrioList(top.value), to);
      var k1 := k.(current := to);
      var k2 := if cur.stat == Running && k.current != to then InsertF(k1, k.current) else k1;
      k2.(lists := Unlinked(k2.lists, to), threads := k2.threads[to := k2.threads[to].(stat := Running)])
  }

  // rt_thread_suspend; false stands for -RT_ERROR.
  function SuspendF(k: K, t: nat): (r: (K, bool))
    requires t in k.threads
  {
    var th := k.threads[t];
    if th.stat != Ready && th.stat != Running then (k, false)
    else (k.(lists := Unlinked(k.lists, t), threads := k.threads[t := th.(stat := Suspended, timed := false)]), true)
  }

  // A blocking call of ipc.c up to its rt_schedule: the current thread goes on wait list w, with its
  // timer started when it waits for a limited time.
  function BlockF(k: K, w: nat, flag: Flag, timed: bool): (k': K)
    requires k.current in k.threads && forall l, t :: On(k.lists, l, t) ==> t in k.threads
  {
    var k1 := SuspendF(k, k.current).0;
    var queue := if WaitList(w) in k1.lists then k1.lists[WaitList(w)] else [];
    UnlinkedMembers(k.lists, k.current);
    assert Known(queue, Prios(k1)) by {
      forall t | t in queue ensures t in k.threads { assert On(k1.lists, WaitList(w), t); }
    }
    k1.(lists := k1.lists[WaitList(w) := Enqueue(flag, queue, Prios(k1), k.current)],
        threads := k1.threads[k.current := k1.threads[k.current].(timed := timed)])
  }

  function Prios(k: K): (r: map<nat, nat>)
  {
    map t | t in k.threads :: k.threads[t].prio
  }

  // rt_thread_sleep up to its rt_schedule.
  function SleepF(k: K): (k': K)
    requires k.current in k.threads
  {
    var k1 := SuspendF(k, k.current).0;
    k1.(threads := k1.threads[k.current := k1.threads[k.current].(timed := true)])
  }

  // rt_thread_resume, within one critical section.
  function ResumeF(k: K, t: nat): (r: (K, bool))
    requires Exists(k, t) && HasLists(k)
  {
    if k.threads[t].stat != Suspended then (k, false)
    else (InsertF(k.(lists := Unlinked(k.lists, t), threads := k.threads[t := k.threads[t].(timed := false)]), t), true)
  }

  // rt_thread_timeout, which asserts that the thread is suspended, up to its rt_schedule.
  function TimeoutF(k: K, t: nat): (k': K)
    requires Exists(k, t) && HasLists(k)
  {
    InsertF(k.(lists := Unlinked(k.lists, t),
        threads := k.threads[t := k.threads[t].(timed := false, error := Timeout)]), t)
  }

  // rt_thread_startup, which asserts that the thread is new, up to its rt_schedule, when
  // nothing comes in between.
  function StartupF(k: K, t: nat): (k': K)
    requires Exists(k, t) && HasLists(k)
  {
    var th := k.threads[t];
    ResumeF(k.(threads := k.threads[t := th.(prio := th.initPrio, stat := Suspended)]), t).0
  }

  // RT_THREAD_CTRL_CHANGE_PRIORITY: only a ready thread changes lists.
  function ChangePriorityF(k: K, t: nat, p: nat): (k': K)
    requires Exists(k, t) && HasLists(k) && p < k.limit
  {
    var th := k.threads[t];
    if th.stat == Ready then
      InsertF(k.(lists := Unlinked(k.lists, t), threads := k.threads[t := th.(prio := p)]), t)
    else k.(threads := k.threads[t := th.(prio := p)])
  }

  // rt_thread_delete when nothing comes between its parts, and rt_thread_exit up to its rt_schedule for a
  // thread that needs clean-up.
  function CloseF(k: K, t: nat): (k': K)
    requires t in k.threads && HasLists(k)
  {
    k.(lists := Linked(Unlinked(k.lists, t), Defunct, 0, t),
       threads := k.threads[t := k.threads[t].(stat := Closed, timed := false)])
  }

  // rt_thread_exit of a static thread without clean-up.
  function ExitF(k: K): (k': K)
    requires k.current in k.threads
  {
    k.(lists := Unlinked(k.lists, k.current),
       threads := k.threads[k.current := k.threads[k.current].(stat := Closed, timed := false)])
  }

  // An assignment to a thread's `error`.
  function ErrorF(k: K, t: nat, e: Error): K
    requires t in k.threads
  {
    k.(threads := k.threads[t := k.threads[t].(error := e)])
  }

  // rt_int16_t
  function Wrap16(n: int): (r: int)
    ensures -0x8000 <= r < 0x8000
  {
    (n + 0x8000) % 0x1_0000 - 0x8000
  }

  // rt_enter_critical, and rt_exit_critical up to its rt_schedule.
  function Deeper(lock: int): int { Wrap16(lock + 1) }
  function Shallower(lock: int): int {
    var n := Wrap16(lock - 1);
    if n <= 0 then 0 else n
  }

  function EnterF(k: K): K { k.(lock := Deeper(k.lock)) }
  function LeaveF(k: K): K { k.(lock := Shallower(k.lock)) }

  // ----- moving one thread

  lemma UnlinkedMembers(lists: map<List, seq<nat>>, t: nat)
    ensures Unlinked(lists, t).Keys == lists.Keys
    ensures forall l, u :: On(Unlinked(lists, t), l, u) ==> On(lists, l, u)
  {
    forall l, u | On(Unlinked(lists, t), l, u)
      ensures On(lists, l, u)
    {
    }
  }

  lemma UnlinkedIs(lists: map<List, seq<nat>>, t: nat)
    requires forall l :: l in lists ==> Distinct(lists[l])
    ensures var r := Unlinked(lists, t);
            && r.Keys == lists.Keys && Off(r, t)
            && (forall l :: l in r ==> Distinct(r[l]))
            && (forall l, u :: On(r, l, u) <==> On(lists, l, u) && u != t)
    ensures Off(lists, t) ==> Unlinked(lists, t) == lists
  {
    forall l | l in lists
      ensures Distinct(Without(lists[l], t)) && t !in Without(lists[l], t)
      ensures forall u :: u in Without(lists[l], t) <==> u in lists[l] && u != t
    {
      WithoutIs(lists[l], t);
    }
  }

  lemma LinkedIs(lists: map<List, seq<nat>>, l: List, pos: nat, t: nat)
    requires l in lists && pos <= |lists[l]| && Off(lists, t)
    requires forall m :: m in lists ==> Distinct(lists[m])
    ensures var r := Linked(lists, l, pos, t);
            && r.Keys == lists.Keys
            && (forall m :: m in r ==> Distinct(r[m]))
            && (forall m, u :: On(r, m, u) <==> On(lists, m, u) || (m == l && u == t))
  {
    InsertMembers(lists[l], pos, t);
    InsertDistinct(lists[l], pos, t);
  }

  lemma InsertDistinct(s: seq<nat>, pos: nat, t: nat)
    requires Distinct(s) && t !in s && pos <= |s|
    ensures Distinct(Insert(s, pos, t))
  {
    var r := Insert(s, pos, t);
    forall i, j | 0 <= i < j < |r|
      ensures r[i] != r[j]
    {
      assert i < pos ==> r[i] == s[i];
      assert i > pos ==> r[i] == s[i - 1];
      assert j < pos ==> r[j] == s[j];
      assert j > pos ==> r[j] == s[j - 1];
    }
  }

  // Off every list, a thread may take any state but Ready.
  lemma OffLaw(k: K, t: nat, th: Thread)
    requires Lists(k) && t in k.threads && Sound(th, k.limit) && th.stat != Ready
    ensures Lists(k.(lists := Unlinked(k.lists, t), threads := k.threads[t := th]))
  {
    hide Unlinked, Distinct;
    UnlinkedIs(k.lists, t);
  }

  // Moving a thread to a list its new state fits keeps all lists in order.
  lemma OnLaw(k: K, t: nat, th: Thread, l: List, pos: nat)
    requires Lists(k) && t in k.threads && Sound(th, k.limit) && Fits(th, l)
    requires l in Unlinked(k.lists, t) && pos <= |Unlinked(k.lists, t)[l]|
    ensures Lists(k.(lists := Linked(Unlinked(k.lists, t), l, pos, t), threads := k.threads[t := th]))
  {
    hide Unlinked, Distinct, Linked;
    UnlinkedIs(k.lists, t);
    LinkedIs(Unlinked(k.lists, t), l, pos, t);
  }
}
