// The mutex of ipc.c with its priority inheritance, over the whole state of the threads.
module Mutexes {
  import opened Wrappers
  import opened Rings
  import opened WaitQueue
  import opened Threads
  import opened ThreadLaws
  import opened Waits
  import opened Callers
  import E = ThreadEffects

  const NO_PRIORITY: nat := 0xFF

  // `value`, `owner`, `orig` and `hold` (eight bits) are the program's. `depth` counts the owner's
  // takes without a release, `acquired` is the priority the owner had when it got the mutex, `inside`
  // holds the threads between blocking in rt_mutex_take and returning, with whether they were made owner.
  datatype Mutex = Mutex(k: K, w: nat, flag: Flag, value: nat, owner: Option<nat>, orig: nat, hold: nat,
                         depth: nat, acquired: nat, inside: map<nat, bool>)

  predicate MayCall(m: Mutex) {
    Free(m.k, m.inside)
  }

  // ----- the calls

  // The owner, when a more urgent thread is about to wait for it.
  function BoostF(k: K, owner: nat, p: nat): (k': K)
    requires Exists(k, owner) && HasLists(k) && p < k.limit
  {
    if p < k.threads[owner].prio then ChangePriorityF(k, owner, p) else k
  }

  // The blocking branch of rt_mutex_take: the owner is made as urgent as the current thread, which
  // then goes on the list.
  ghost function JoinF(m: Mutex, timed: bool): (m': Mutex)
    requires Inv(m.k) && m.k.threads[m.k.current].stat == Running
    requires m.owner.Some? && m.owner.value in m.k.threads && m.owner.value != m.k.current
  {
    var t := m.k.current;
    Usable(m.k);
    BoostLaw(m.k, m.owner.value, m.k.threads[t].prio);
    var k1 := BoostF(m.k, m.owner.value, m.k.threads[t].prio);
    m.(k := BlockF(k1, m.w, m.flag, timed), inside := m.inside[t := false])
  }

  // rt_mutex_take, up to its rt_schedule when it blocks.
  ghost function TakeF(m: Mutex, time: int): (r: (Mutex, Outcome))
    requires MutexInv(m) && MayCall(m)
  {
    var t := m.k.current;
    ErrorInv(m.k, t, Ok);
    var k := ErrorF(m.k, t, Ok);
    if m.owner == Some(t) then (m.(k := k, hold := (m.hold + 1) % 256, depth := m.depth + 1), Done(Ok))
    else if m.value > 0 then
      (m.(k := k, value := m.value - 1, owner := Some(t), orig := k.threads[t].prio, hold := (m.hold + 1) % 256,
          depth := 1, acquired := k.threads[t].prio), Done(Ok))
    else if time == 0 then (m.(k := ErrorF(k, t, Timeout)), Done(Timeout))
    else (JoinF(m.(k := k), time > 0), Blocked)
  }

  // What rt_mutex_take returns after it had blocked.
  function ReturnF(m: Mutex): (r: (Mutex, Error))
    requires m.k.current in m.k.threads
  {
    (m.(inside := m.inside - {m.k.current}), m.k.threads[m.k.current].error)
  }

  // The state in which the releasing owner has its old priority back.
  ghost function RestoreF(m: Mutex): (k: K)
    requires MutexInv(m) && m.owner == Some(m.k.current)
  {
    Usable(m.k);
    if m.orig != m.k.threads[m.k.current].prio then ChangePriorityF(m.k, m.k.current, m.orig) else m.k
  }

  // rt_mutex_release up to its rt_schedule.
  ghost function ReleaseF(m: Mutex): (r: (Mutex, Error))
    requires MutexInv(m) && MayCall(m)
  {
    var t := m.k.current;
    if m.owner != Some(t) then (m.(k := ErrorF(m.k, t, Failed)), Failed)
    else
      var hold := (m.hold - 1) % 256;
      if hold != 0 then (m.(hold := hold, depth := m.depth - 1), Ok)
      else
        RestoreLaw(m);
        var m1 := m.(k := RestoreF(m), hold := hold);
        (if Queue(m1.k, m.w) != [] then HandF(m1) else FreeF(m1), Ok)
  }

  // The first waiter becomes the owner and is resumed.
  ghost function HandF(m: Mutex): (m': Mutex)
    requires Inv(m.k) && Queue(m.k, m.w) != []
  {
    var head := Queue(m.k, m.w)[0];
    QueueLaw(m.k, m.w);
    m.(k := WakeF(m.k, m.w), owner := Some(head), orig := m.k.threads[head].prio, hold := m.hold + 1,
       depth := 1, acquired := m.k.threads[head].prio, inside := m.inside[head := true])
  }

  function FreeF(m: Mutex): (m': Mutex) {
    m.(value := m.value + 1, owner := None, orig := NO_PRIORITY, depth := 0)
  }

  ghost function OtherF(m: Mutex, c: Call): (m': Mutex)
    requires Inv(m.k) && Legal(m.k, c)
  {
    m.(k := CallF(m.k, c), inside := After(m.inside, c))
  }

  // Nobody changes the priority of the owner or of a waiter; in particular neither of them is
  // involved with another mutex.
  ghost predicate Flat(m: Mutex, c: Call) {
    c.ChangePriority? ==> Some(c.t) != m.owner && c.t !in Queue(m.k, m.w)
  }

  // ----- the invariant

  // A thread that was handed the mutex and has not returned yet is its owner.
  ghost predicate Handed(owner: Option<nat>, inside: map<nat, bool>) {
    forall t :: t in inside && inside[t] ==> owner == Some(t)
  }

  ghost predicate MutexInv(m: Mutex) {
    && Inv(m.k)
    && m.value == (if m.owner == None then 1 else 0)
    && m.hold == m.depth % 256
    && (m.owner == None ==> m.depth == 0 && m.orig == NO_PRIORITY && Queue(m.k, m.w) == [])
    && (m.owner.Some? ==>
          && m.depth > 0 && m.owner.value in m.k.threads && m.owner.value !in Queue(m.k, m.w)
          && m.k.threads[m.owner.value].stat != Init
          && m.orig == m.acquired < m.k.limit)
    && Account(m.k, m.w, m.inside) && Handed(m.owner, m.inside)
  }

  // The owner is at least as urgent as every waiter.
  ghost predicate Inherits(m: Mutex) {
    m.owner.Some? ==>
      m.owner.value in m.k.threads
      && forall t :: t in Queue(m.k, m.w) ==> t in m.k.threads && m.k.threads[m.owner.value].prio <= m.k.threads[t].prio
  }

  // ----- changing one priority

  lemma BoostLaw(k: K, owner: nat, p: nat)
    requires Inv(k) && owner in k.threads && p < k.limit
    ensures Exists(k, owner) && HasLists(k)
    ensures var k' := BoostF(k, owner, p);
            && Inv(k') && PriorityOnly(k, k', owner)
            && k'.threads[owner].prio == (if p < k.threads[owner].prio then p else k.threads[owner].prio)
            && (k'.threads[k.current].stat == k.threads[k.current].stat)
            && forall l, t :: On(k'.lists, l, t) ==> t in k'.threads
  {
    hide Inv;
    Usable(k);
    if p < k.threads[owner].prio { PriorityLaw(k, owner, p); }
    Usable(BoostF(k, owner, p));
  }

  // Nothing but the priority of thread t, and its place among the ready threads, is different.
  ghost predicate PriorityOnly(k: K, k': K, t: nat) {
    && k'.threads.Keys == k.threads.Keys && k'.current == k.current && k'.limit == k.limit && k'.lock == k.lock
    && t in k.threads && (forall u :: u in k.threads && u != t ==> k'.threads[u] == k.threads[u])
    && k'.threads[t] == k.threads[t].(prio := k'.threads[t].prio)
    && (forall w :: Queue(k', w) == Queue(k, w))
  }

  lemma PriorityLaw(k: K, t: nat, p: nat)
    requires Inv(k) && t in k.threads && p < k.limit
    ensures Exists(k, t) && HasLists(k)
    ensures Inv(ChangePriorityF(k, t, p)) && PriorityOnly(k, ChangePriorityF(k, t, p), t)
    ensures ChangePriorityF(k, t, p).threads[t].prio == p
  {
    Usable(k);
    ChangePriorityInv(k, t, p);
    CurrentOff(k);
    forall w
      ensures Queue(ChangePriorityF(k, t, p), w) == Queue(k, w)
    {
      ChangePriorityQueue(k, t, p, w);
    }
    hide Queue;
  }

  lemma RestoreLaw(m: Mutex)
    requires MutexInv(m) && m.owner == Some(m.k.current)
    ensures Inv(RestoreF(m)) && PriorityOnly(m.k, RestoreF(m), m.k.current)
    ensures RestoreF(m).threads[m.k.current].prio == m.acquired
  {
    hide Inv, Queue;
    Usable(m.k);
    PriorityLaw(m.k, m.k.current, m.orig);
  }

  // ----- every step keeps the invariant

  // The thread that blocks: the owner was made at least as urgent first.
  lemma BlockedTake(m: Mutex, time: int)
    requires MutexInv(m) && MayCall(m) && m.owner.Some? && m.owner.value != m.k.current && time != 0
    ensures TakeF(m, time).1 == Blocked
    ensures BlockedFrom(m, TakeF(m, time).0, m.k.current, m.owner.value, time > 0)
  {
    hide Inv, Queue, BlockF, BoostF, Enqueue, Known, Account;
    var t, o := m.k.current, m.owner.value;
    ErrorInv(m.k, t, Ok);
    OwnError(m.k, m.w, m.inside, Ok);
    var k := ErrorF(m.k, t, Ok);
    Usable(k);
    BoostLaw(k, o, k.threads[t].prio);
    var k1 := BoostF(k, o, k.threads[t].prio);
    AccountFrame(k, k1, m.w, m.inside);
    AccountBlock(k1, m.w, m.flag, time > 0, m.inside);
    BlockQueue(k1, m.w, m.flag, time > 0);
    assert Prios(BlockF(k1, m.w, m.flag, time > 0)) == Prios(k1);
  }

  // What blocking thread t on owner o comes to.
  ghost predicate BlockedFrom(m: Mutex, m': Mutex, t: nat, o: nat, timed: bool) {
    && Inv(m'.k) && m' == m.(k := m'.k, inside := m.inside[t := false])
    && t in m.k.threads && o in m.k.threads && m'.k.threads.Keys == m.k.threads.Keys && m'.k.limit == m.k.limit
    && Known(Queue(m.k, m.w), Prios(m'.k)) && Queue(m'.k, m.w) == Enqueue(m.flag, Queue(m.k, m.w), Prios(m'.k), t)
    && (forall u :: u in m.k.threads && u != t && u != o ==> m'.k.threads[u] == m.k.threads[u])
    && m'.k.threads[t] == m.k.threads[t].(stat := Suspended, timed := timed, error := Ok)
    && Account(m'.k, m'.w, m'.inside)
    && m'.k.threads[o] == m.k.threads[o].(prio := Least(m.k.threads[t].prio, m.k.threads[o].prio))
  }

  function Least(p: nat, q: nat): nat { if p < q then p else q }

  // A take by the owner counts, one of a free mutex makes the thread its owner, with its priority on
  // record; any other is refused, or makes the owner as urgent as the thread, which then waits.
  lemma TakeLaw(m: Mutex, time: int)
    requires MutexInv(m) && MayCall(m)
    ensures var (m', r), t := TakeF(m, time), m.k.current;
            if m.owner == None || m.owner == Some(t) then
              && r == Done(Ok) && m'.owner == Some(t) && m'.depth == m.depth + 1
              && t in m.k.threads && m'.acquired == (if m.owner == None then m.k.threads[t].prio else m.acquired)
              && ErrorOnly(m.k, m'.k, t, Ok) && m'.inside == m.inside
            else if time == 0 then
              r == Done(Timeout) && ErrorOnly(m.k, m'.k, t, Timeout) && m' == m.(k := m'.k)
            else r == Blocked && BlockedFrom(m, m', t, m.owner.value, time > 0)
  {
    if m.owner.Some? && m.owner.value != m.k.current && time != 0 {
      BlockedTake(m, time);
    } else {
      ShortTake(m, time);
      ShortError(m, time);
    }
  }

  lemma ShortError(m: Mutex, time: int)
    requires MutexInv(m) && MayCall(m) && !(m.owner.Some? && m.owner.value != m.k.current && time != 0)
    ensures var (m', r) := TakeF(m, time);
            ErrorOnly(m.k, m'.k, m.k.current, if r == Done(Ok) then Ok else Timeout)
  {
    hide Inv, Queue, Account;
    var t := m.k.current;
    assert m.k.threads[t := m.k.threads[t].(error := Ok)][t := m.k.threads[t].(error := Timeout)]
        == m.k.threads[t := m.k.threads[t].(error := Timeout)];
  }

  lemma TakeInv(m: Mutex, time: int)
    requires MutexInv(m) && MayCall(m)
    ensures MutexInv(TakeF(m, time).0)
    ensures Inherits(m) ==> Inherits(TakeF(m, time).0)
    ensures m.flag == Prio && InOrder(m.k, m.w) ==> InOrder(TakeF(m, time).0.k, m.w)
  {
    if m.owner.Some? && m.owner.value != m.k.current && time != 0 {
      TakeBlockedInv(m, time);
    } else {
      TakeShortInv(m, time);
    }
  }

  lemma TakeBlockedInv(m: Mutex, time: int)
    requires MutexInv(m) && MayCall(m) && m.owner.Some? && m.owner.value != m.k.current && time != 0
    ensures MutexInv(TakeF(m, time).0)
    ensures Inherits(m) ==> Inherits(TakeF(m, time).0)
    ensures m.flag == Prio && InOrder(m.k, m.w) ==> InOrder(TakeF(m, time).0.k, m.w)
  {
    hide Inv, Queue, TakeF, InOrder, Enqueue, Known, Account;
    BlockedTake(m, time);
    QueueLaw(m.k, m.w);
    EnqueueMembers(m.flag, Queue(m.k, m.w), Prios(TakeF(m, time).0.k), m.k.current);
    if m.flag == Prio && InOrder(m.k, m.w) { BlockedInOrder(m, TakeF(m, time).0.k); }
  }

  lemma TakeShortInv(m: Mutex, time: int)
    requires MutexInv(m) && MayCall(m) && !(m.owner.Some? && m.owner.value != m.k.current && time != 0)
    ensures MutexInv(TakeF(m, time).0)
    ensures Inherits(m) ==> Inherits(TakeF(m, time).0)
    ensures m.flag == Prio && InOrder(m.k, m.w) ==> InOrder(TakeF(m, time).0.k, m.w)
  {
    hide Inv, Queue, TakeF, InOrder, Account;
    ShortTake(m, time);
    QueueLaw(m.k, m.w);
    Usable(m.k);
    HoldStep(m.depth);
    if InOrder(m.k, m.w) { ErrorInOrder(m.k, TakeF(m, time).0.k, m.w); }
  }

  // `hold` follows the depth modulo 256.
  lemma HoldStep(depth: nat)
    ensures (depth % 256 + 1) % 256 == (depth + 1) % 256
    ensures depth > 0 ==> (depth % 256 - 1) % 256 == (depth - 1) % 256
    ensures depth > 0 ==> ((depth - 1) % 256 == 0 <==> depth % 256 == 1)
  {
  }

  lemma BlockedInOrder(m: Mutex, k': K)
    requires MutexInv(m) && InOrder(m.k, m.w) && m.owner.Some? && m.k.current !in Queue(m.k, m.w)
    requires m.k.current in k'.threads && k'.threads.Keys == m.k.threads.Keys
    requires forall u :: u in m.k.threads && u != m.k.current && u != m.owner.value ==> k'.threads[u] == m.k.threads[u]
    requires Known(Queue(m.k, m.w), Prios(k'))
    requires Queue(k', m.w) == Enqueue(Prio, Queue(m.k, m.w), Prios(k'), m.k.current)
    ensures InOrder(k', m.w)
  {
    hide Inv, Queue, Enqueue;
    SamePrios(Queue(m.k, m.w), Prios(m.k), Prios(k'));
    EnqueueLaw(Queue(m.k, m.w), Prios(k'), m.k.current);
  }

  lemma ErrorInOrder(k: K, k': K, w: nat)
    requires InOrder(k, w) && Queue(k', w) == Queue(k, w) && k'.threads.Keys == k.threads.Keys
    requires forall u :: u in Queue(k, w) && u in k.threads ==> k'.threads[u].prio == k.threads[u].prio
    ensures InOrder(k', w)
  {
    hide Queue;
    SamePrios(Queue(k, w), Prios(k), Prios(k'));
  }

  // A take that does not block.
  lemma ShortTake(m: Mutex, time: int)
    requires MutexInv(m) && MayCall(m) && !(m.owner.Some? && m.owner.value != m.k.current && time != 0)
    ensures var (m', r) := TakeF(m, time);
            && Inv(m'.k) && Queue(m'.k, m.w) == Queue(m.k, m.w) && m'.k.threads.Keys == m.k.threads.Keys
            && m'.k.limit == m.k.limit && Account(m'.k, m.w, m.inside)
            && (forall u :: u in m.k.threads && u != m.k.current ==> m'.k.threads[u] == m.k.threads[u])
            && m'.k.threads[m.k.current] == m.k.threads[m.k.current].(error := m'.k.threads[m.k.current].error)
            && m' == m.(k := m'.k, value := m'.value, owner := m'.owner, orig := m'.orig, hold := m'.hold,
               depth := m'.depth, acquired := m'.acquired)
            && (r == Done(Ok) <==> m.owner == None || m.owner == Some(m.k.current))
            && if r == Done(Ok) then
                 && m'.owner == Some(m.k.current) && m'.value == 0 && m'.hold == (m.hold + 1) % 256
                    && m'.depth == m.depth + 1
                 && (m.owner == None ==> m'.orig == m'.acquired == m.k.threads[m.k.current].prio)
                 && (m.owner.Some? ==> m'.orig == m.orig && m'.acquired == m.acquired)
               else r == Done(Timeout) && m' == m.(k := m'.k)
  {
    hide Queue, Inv, Account;
    ErrorInv(m.k, m.k.current, Ok);
    OwnError(m.k, m.w, m.inside, Ok);
    ErrorInv(ErrorF(m.k, m.k.current, Ok), m.k.current, Timeout);
    OwnError(ErrorF(m.k, m.k.current, Ok), m.w, m.inside, Timeout);
  }

  // A thread that had blocked returns success if it was made the owner, and also if it goes on while it
  // still waits, when somebody else is.
  lemma ReturnInv(m: Mutex)
    requires MutexInv(m) && m.k.current in m.inside
    ensures MutexInv(ReturnF(m).0) <==> m.k.current !in Queue(m.k, m.w)
    ensures Inherits(m) ==> Inherits(ReturnF(m).0)
    ensures ReturnF(m).1 == Ok <==> m.inside[m.k.current] || m.k.current in Queue(m.k, m.w)
    ensures m.inside[m.k.current] ==> m.owner == Some(m.k.current)
    ensures m.k.current in Queue(m.k, m.w) ==> m.owner.Some? && m.owner != Some(m.k.current)
    ensures m.k.threads[m.k.current].stat == Running ==> m.k.current !in Queue(m.k, m.w)
  {
    hide Inv, Queue, Account;
    Usable(m.k);
    AccountReturn(m.k, m.w, m.inside);
  }

  ghost predicate FullRelease(m: Mutex) {
    m.owner == Some(m.k.current) && (m.hold - 1) % 256 == 0
  }

  // The last release gives the mutex to the first waiter, or frees it; the thread has the priority
  // back that it had when it got the mutex.
  lemma FullReleaseLaw(m: Mutex)
    requires MutexInv(m) && MayCall(m) && FullRelease(m)
    ensures var (m', e) := ReleaseF(m);
            var q, t := Queue(m.k, m.w), m.k.current;
            && MutexInv(m') && e == Ok && m'.w == m.w
            && t in m'.k.threads && m'.k.threads[t].prio == m.acquired
            && (forall u :: u in m.k.threads && u != t ==>
               u in m'.k.threads && m'.k.threads[u].prio == m.k.threads[u].prio)
            && m'.k.threads[t] == m.k.threads[t].(prio := m.acquired)
            && Queue(m'.k, m.w) == (if q == [] then [] else q[1..])
            && m'.owner == (if q == [] then None else Some(q[0])) && m'.depth == (if q == [] then 0 else 1)
            && (forall u :: u in m.k.threads && u != t && (q == [] || u != q[0]) ==> m'.k.threads[u] == m.k.threads[u])
            && (q == [] ==> m'.inside == m.inside)
            && (q != [] ==>
                  && q[0] in m.k.threads && q[0] != t && m'.k.threads[q[0]] == m.k.threads[q[0]].(stat := Ready,
                     timed := false)
                  && m'.inside == m.inside[q[0] := true] && m'.acquired == m.k.threads[q[0]].prio)
  {
    hide Inv, Queue, RestoreF, WakeF, Account;
    RestoreLaw(m);
    var k := RestoreF(m);
    AccountFrame(m.k, k, m.w, m.inside);
    QueueLaw(m.k, m.w);
    QueueLaw(k, m.w);
    Usable(k);
    if Queue(k, m.w) != [] {
      WakeLaw(k, m.w);
      AccountWake(k, m.w, m.inside);
      WokenStarted(k, m.w);
      HeadAndRest(Queue(k, m.w));
      HeadReady(k, m.w);
    }
  }

  lemma HeadReady(k: K, w: nat)
    requires Inv(k) && Queue(k, w) != [] && k.threads[k.current].stat == Running
    ensures var t := Queue(k, w)[0];
            && t in k.threads && t != k.current && t in WakeF(k, w).threads
            && WakeF(k, w).threads[t] == k.threads[t].(stat := Ready, timed := false)
  {
    hide Inv, Queue, WakeF, E.Moved;
    QueueLaw(k, w);
    WakeIs(k, w);
    E.MovedThread(k, WakeF(k, w), Queue(k, w)[0]);
  }

  lemma WokenStarted(k: K, w: nat)
    requires Inv(k) && Queue(k, w) != []
    ensures Queue(k, w)[0] in WakeF(k, w).threads && WakeF(k, w).threads[Queue(k, w)[0]].stat != Init
  {
    hide Queue, Inv, WakeF;
    WakeLaw(k, w);
  }

  // Inner releases, and releases by other threads, change nothing but the depth.
  lemma InnerReleaseLaw(m: Mutex)
    requires MutexInv(m) && MayCall(m) && !FullRelease(m)
    ensures var (m', e) := ReleaseF(m);
            && MutexInv(m') && Queue(m'.k, m.w) == Queue(m.k, m.w) && m'.owner == m.owner && m'.inside == m.inside
            && m'.k.threads.Keys == m.k.threads.Keys
            && (forall u :: u in m.k.threads ==> m'.k.threads[u].prio == m.k.threads[u].prio)
            && (e == Ok <==> m.owner == Some(m.k.current))
            && (e == Ok ==> m'.depth == m.depth - 1 && m'.k == m.k && m'.acquired == m.acquired)
            && (e != Ok ==> e == Failed && ErrorOnly(m.k, m'.k, m.k.current, Failed) && m' == m.(k := m'.k))
  {
    hide Queue, Inv, Account;
    ErrorInv(m.k, m.k.current, Failed);
    OwnError(m.k, m.w, m.inside, Failed);
    HoldStep(m.depth);
    QueueLaw(m.k, m.w);
  }

  // Counting in eight bits, the release that frees the mutex is the one that matches the first take
  // exactly when the takes are nested no more than 256 deep.
  lemma FullReleaseExact(m: Mutex)
    requires MutexInv(m) && m.owner == Some(m.k.current)
    ensures FullRelease(m) <==> m.depth % 256 == 1
    ensures m.depth <= 256 ==> (FullRelease(m) <==> m.depth == 1)
    ensures m.depth == 257 ==> FullRelease(m)
  {
    HoldStep(m.depth);
  }

  // Value 1, no owner, and hold 0 say the same, up to a nesting of 255.
  lemma FreeIs(m: Mutex)
    requires MutexInv(m) && m.depth < 256
    ensures m.value in {0, 1} && (m.value == 1 <==> m.owner == None) && (m.hold == 0 <==> m.owner == None)
    ensures m.value == 1 ==> Queue(m.k, m.w) == []
  {
  }

  // After a hand-over the new owner is at least as urgent as the remaining waiters exactly if the
  // first waiter was the most urgent one; a list by priority guarantees that, one by arrival does not.
  lemma HandOver(m: Mutex)
    requires MutexInv(m) && MayCall(m) && FullRelease(m)
    ensures forall t :: t in Queue(m.k, m.w) ==> t in m.k.threads
    ensures Inherits(ReleaseF(m).0) <==> HeadFirst(Queue(m.k, m.w), m.k.threads)
    ensures InOrder(m.k, m.w) ==> Inherits(ReleaseF(m).0)
  {
    hide Inv, Queue, ReleaseF, InOrder;
    QueueLaw(m.k, m.w);
    FullReleaseLaw(m);
    var q := Queue(m.k, m.w);
    if q != [] {
      HeadAndRest(q);
      HandedOver(m.k.threads, ReleaseF(m).0, q, m.k.current);
    }
    if InOrder(m.k, m.w) { OrderHeadFirst(m.k, m.w); }
  }

  // No waiter is more urgent than the first.
  ghost predicate HeadFirst(q: seq<nat>, threads: map<nat, Thread>)
    requires forall t :: t in q ==> t in threads
  {
    q != [] ==> forall t :: t in q ==> threads[q[0]].prio <= threads[t].prio
  }

  lemma OrderHeadFirst(k: K, w: nat)
    requires InOrder(k, w)
    ensures (forall t :: t in Queue(k, w) ==> t in k.threads) && HeadFirst(Queue(k, w), k.threads)
  {
    hide Queue;
    var q := Queue(k, w);
    forall t | t in q
      ensures t in k.threads && q[0] in k.threads && k.threads[q[0]].prio <= k.threads[t].prio
    {
      assert q[0] in q;
      HeadIsMostUrgent(q, Prios(k), t);
    }
  }

  lemma HandedOver(threads: map<nat, Thread>, m': Mutex, q: seq<nat>, t: nat)
    requires q != [] && Distinct(q) && (forall u :: u in q ==> u in threads && u != t)
    requires forall u :: u in q <==> u == q[0] || u in q[1..]
    requires forall u :: u in threads && u != t ==> u in m'.k.threads && m'.k.threads[u].prio == threads[u].prio
    requires m'.owner == Some(q[0]) && Queue(m'.k, m'.w) == q[1..]
    ensures Inherits(m') <==> HeadFirst(q, threads)
  {
    hide Queue;
    assert q[0] in q;
  }

  // A list by arrival: two waiters of which the second is more urgent leave the new owner less urgent
  // than a waiter.
  lemma FifoHandOverFails(m: Mutex)
    requires MutexInv(m) && MayCall(m) && FullRelease(m) && m.flag == Fifo
    requires |Queue(m.k, m.w)| == 2 && Queue(m.k, m.w)[0] in m.k.threads && Queue(m.k, m.w)[1] in m.k.threads
    requires m.k.threads[Queue(m.k, m.w)[1]].prio < m.k.threads[Queue(m.k, m.w)[0]].prio
    ensures !Inherits(ReleaseF(m).0)
  {
    hide Inv, Queue, ReleaseF;
    HandOver(m);
    assert Queue(m.k, m.w)[1] in Queue(m.k, m.w);
  }

  lemma ReleaseInv(m: Mutex)
    requires MutexInv(m) && MayCall(m)
    ensures MutexInv(ReleaseF(m).0)
    ensures m.flag == Prio && InOrder(m.k, m.w) ==> InOrder(ReleaseF(m).0.k, m.w)
    ensures m.flag == Prio && InOrder(m.k, m.w) && Inherits(m) ==> Inherits(ReleaseF(m).0)
  {
    hide Inv, Queue, ReleaseF;
    QueueLaw(m.k, m.w);
    if FullRelease(m) {
      FullReleaseLaw(m);
      HandOver(m);
      if InOrder(m.k, m.w) { RestInOrder(m.k, ReleaseF(m).0.k, m.w); }
    } else {
      InnerReleaseLaw(m);
      if InOrder(m.k, m.w) { ErrorInOrder(m.k, ReleaseF(m).0.k, m.w); }
    }
  }

  lemma RestInOrder(k: K, k': K, w: nat)
    requires InOrder(k, w) && Queue(k', w) == (if Queue(k, w) == [] then [] else Queue(k, w)[1..])
    requires forall u :: u in Queue(k, w) && u in k.threads ==>
             u in k'.threads && k'.threads[u].prio == k.threads[u].prio
    ensures InOrder(k', w)
  {
    hide Queue;
    SamePrios(Queue(k', w), Prios(k), Prios(k'));
  }

  lemma OtherInv(m: Mutex, c: Call)
    requires MutexInv(m) && Outside(m.k, m.w, m.inside, c)
    ensures MutexInv(OtherF(m, c))
    ensures Flat(m, c) && Inherits(m) ==> Inherits(OtherF(m, c))
    ensures Flat(m, c) && InOrder(m.k, m.w) ==> InOrder(OtherF(m, c).k, m.w)
  {
    hide MutexInv, Queue, CallF, Legal, InOrder, Outside;
    OtherKeeps(m, c);
    OutsideLegal(m.k, m.w, m.inside, c);
    if Flat(m, c) && Inherits(m) { OtherInherits(m, c); }
    if Flat(m, c) && InOrder(m.k, m.w) { CallInOrder(m.k, c, m.w); }
  }

  lemma OtherKeeps(m: Mutex, c: Call)
    requires MutexInv(m) && Outside(m.k, m.w, m.inside, c)
    ensures MutexInv(OtherF(m, c))
  {
    hide Inv, Queue, CallF, Legal, Account, Outside;
    OutsideLegal(m.k, m.w, m.inside, c);
    OutsideQueue(m.k, m.w, m.inside, c);
    CallThreads(m.k, c);
    AccountCall(m.k, m.w, m.inside, c);
  }

  lemma OtherInherits(m: Mutex, c: Call)
    requires MutexInv(m) && Outside(m.k, m.w, m.inside, c) && Flat(m, c) && Inherits(m)
    ensures Inherits(OtherF(m, c))
  {
    hide Inv, Queue, CallF, Legal, Account, Outside;
    OutsideLegal(m.k, m.w, m.inside, c);
    OutsideQueue(m.k, m.w, m.inside, c);
    CallThreads(m.k, c);
    LeaverFrame(m.k, m.w, m.inside, c);
  }

  // A change of the owner's priority from outside keeps the inheritance exactly if the new priority is
  // at least as urgent as every waiter's.
  lemma OutsideChange(m: Mutex, p: nat)
    requires MutexInv(m) && Inherits(m) && m.owner.Some? && p < m.k.limit
    ensures Legal(m.k, Call.ChangePriority(m.owner.value, p)) && forall t :: t in Queue(m.k, m.w) ==> t in m.k.threads
    ensures Inherits(OtherF(m, Call.ChangePriority(m.owner.value, p))) <==>
              forall t :: t in Queue(m.k, m.w) ==> p <= m.k.threads[t].prio
  {
    hide Inv, Queue;
    QueueLaw(m.k, m.w);
    Usable(m.k);
    PriorityLaw(m.k, m.owner.value, p);
  }

  // ----- where the program does not keep it

  // A take that blocks returns success at once, while another thread owns the mutex, exactly if the
  // scheduler is locked or no other thread is ready.
  lemma SuccessWithoutOwning(m: Mutex, time: int)
    requires MutexInv(m) && MayCall(m) && m.owner.Some? && m.owner.value != m.k.current && time != 0
    ensures Inv(TakeF(m, time).0.k)
    ensures var t, m2 := m.k.current, OtherF(TakeF(m, time).0, Call.Schedule);
            && (m2.k.current == t <==> m.k.lock != 0 || !AnyReady(m.k))
            && (m2.k.current == t ==>
                  t in m2.k.threads && ReturnF(m2).1 == Ok && m2.owner == m.owner && !MutexInv(ReturnF(m2).0))
  {
    hide Inv, Queue, BlockF, Account, CallF, MutexInv;
    TakeInv(m, time);
    BlockedGoesOn(m, time);
    var m1 := TakeF(m, time).0;
    Usable(m1.k);
    if CallF(m1.k, Call.Schedule).current == m.k.current { ReturnInv(m1); }
  }

  lemma BlockedGoesOn(m: Mutex, time: int)
    requires MutexInv(m) && MayCall(m) && m.owner.Some? && m.owner.value != m.k.current && time != 0
    ensures Inv(TakeF(m, time).0.k)
    ensures var t, m1 := m.k.current, TakeF(m, time).0;
            && m1.k.current == t && t in m1.inside && t in Queue(m1.k, m1.w) && m1.owner == m.owner
            && (CallF(m1.k, Call.Schedule).current == t <==> m.k.lock != 0 || !AnyReady(m.k))
            && (CallF(m1.k, Call.Schedule).current == t ==> OtherF(m1, Call.Schedule) == m1)
  {
    hide Inv, Queue, BlockF, BoostF, Account, CallF;
    var t, o := m.k.current, m.owner.value;
    ErrorInv(m.k, t, Ok);
    var k := ErrorF(m.k, t, Ok);
    Usable(k);
    BoostLaw(k, o, k.threads[t].prio);
    var k1 := BoostF(k, o, k.threads[t].prio);
    GoesOn(k1, m.w, m.flag, time > 0);
    SameReady(m.k, k1);
  }

  // rt_thread_resume on a waiter breaks the account: the waiter returns success and does not own the
  // mutex.
  lemma ResumedByOutsider(m: Mutex, t: nat)
    requires MutexInv(m) && t in m.k.threads
    ensures Legal(m.k, Call.Resume(t))
    ensures MutexInv(OtherF(m, Call.Resume(t))) <==> t !in Queue(m.k, m.w)
    ensures var m' := OtherF(m, Call.Resume(t));
            t in Queue(m.k, m.w) ==>
              t !in Queue(m'.k, m.w) && t in m'.k.threads && m'.k.threads[t].error == Ok && m'.owner.Some?
                  && m'.owner != Some(t)
  {
    if t in Queue(m.k, m.w) {
      QueueLaw(m.k, m.w);
      CallQueue(m.k, Call.Resume(t), m.w);
      CallThreads(m.k, Call.Resume(t));
      WithoutIs(Queue(m.k, m.w), t);
      hide Queue, Inv, CallF;
      var m' := OtherF(m, Call.Resume(t));
      assert !Account(m'.k, m'.w, m'.inside);
    } else {
      OtherInv(m, Call.Resume(t));
    }
  }

  // ----- runs

  datatype Step = Take(time: int) | Return | Release | Other(call: Call)

  ghost predicate Allowed(m: Mutex, step: Step)
    requires Inv(m.k)
  {
    match step
    case Take(_) => MayCall(m)
    case Return => m.k.threads[m.k.current].stat == Running && m.k.current in m.inside
    case Release => MayCall(m)
    case Other(c) => Outside(m.k, m.w, m.inside, c)
  }

  ghost function StepF(m: Mutex, step: Step): (m': Mutex)
    requires MutexInv(m) && Allowed(m, step)
  {
    match step
    case Take(time) => TakeF(m, time).0
    case Return => ReturnF(m).0
    case Release => ReleaseF(m).0
    case Other(c) => OtherF(m, c)
  }

  ghost predicate Inheriting(m: Mutex) {
    m.flag == Prio ==> InOrder(m.k, m.w) && Inherits(m)
  }

  ghost predicate FlatStep(m: Mutex, step: Step) {
    step.Other? ==> Flat(m, step.call)
  }

  lemma StepInv(m: Mutex, step: Step)
    requires MutexInv(m) && Allowed(m, step)
    ensures MutexInv(StepF(m, step)) && StepF(m, step).flag == m.flag && StepF(m, step).w == m.w
    ensures Inheriting(m) && FlatStep(m, step) ==> Inheriting(StepF(m, step))
  {
    hide Inherits, InOrder, Account, Queue, Inv;
    match step
    case Take(time) => TakeInv(m, time); TakeFlag(m, time);
    case Return => ReturnInv(m);
    case Release => ReleaseInv(m);
    case Other(c) => OtherInv(m, c);
  }

  lemma TakeFlag(m: Mutex, time: int)
    requires MutexInv(m) && MayCall(m)
    ensures TakeF(m, time).0.flag == m.flag && TakeF(m, time).0.w == m.w
  {
  }

  ghost predicate AllowedRun(m: Mutex, steps: seq<Step>)
    requires MutexInv(m)
    decreases |steps|
  {
    steps == []
    || (Allowed(m, steps[0]) && (StepInv(m, steps[0]); AllowedRun(StepF(m, steps[0]), steps[1..])))
  }

  ghost predicate FlatRun(m: Mutex, steps: seq<Step>)
    requires MutexInv(m) && AllowedRun(m, steps)
    decreases |steps|
  {
    steps == []
    || (FlatStep(m, steps[0]) && (StepInv(m, steps[0]); FlatRun(StepF(m, steps[0]), steps[1..])))
  }

  ghost function Run(m: Mutex, steps: seq<Step>): (m': Mutex)
    requires MutexInv(m) && AllowedRun(m, steps)
    ensures MutexInv(m')
    decreases |steps|
  {
    if steps == [] then m else StepInv(m, steps[0]); Run(StepF(m, steps[0]), steps[1..])
  }

  // In every reachable state of a priority mutex whose owner and waiters nobody else reprioritises,
  // the owner is at least as urgent as every waiter, and the waiters are in order.
  lemma {:induction false} InheritanceHolds(m: Mutex, steps: seq<Step>)
    requires MutexInv(m) && AllowedRun(m, steps) && FlatRun(m, steps) && Inheriting(m)
    ensures Inheriting(Run(m, steps)) && MutexInv(Run(m, steps))
    decreases |steps|
  {
    if steps != [] {
      hide MutexInv, Inheriting, Allowed, StepF, FlatStep;
      StepInv(m, steps[0]);
      InheritanceHolds(StepF(m, steps[0]), steps[1..]);
    }
  }

  // The priority an owner had when it got the mutex stays on record until it fully releases.
  lemma KeepsRecord(m: Mutex, step: Step)
    requires MutexInv(m) && Allowed(m, step) && m.owner.Some?
    requires !(step.Release? && FullRelease(m))
    ensures StepF(m, step).owner == m.owner && StepF(m, step).acquired == m.acquired
  {
    hide Inv, Queue, Account;
  }
}
