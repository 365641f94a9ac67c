// The threads that are inside a blocking call of ipc.c: from where rt_ipc_list_suspend puts them on
// the suspend list to where they return. `inside` tells for each whether it was given what it waits
// for; the program itself only has the thread's error code.
module Callers {
  import opened Wrappers
  import opened Rings
  import opened WaitQueue
  import opened Threads
  import opened ThreadLaws
  import opened Waits

  // A thread on the list has been given nothing and no error yet; a thread that has left it will
  // return success exactly if it was given what it waits for, and can no longer time out.
  ghost predicate Account(k: K, w: nat, inside: map<nat, bool>) {
    && (forall t :: t in Queue(k, w) ==> t in inside && !inside[t] && t in k.threads && k.threads[t].error == Ok)
    && (forall t :: t in inside && t !in Queue(k, w) ==>
          t in k.threads && !k.threads[t].timed && (inside[t] <==> k.threads[t].error == Ok))
  }

  // What the others may do: they do not block on the list, nor resume its waiters by
  // rt_thread_resume. A thread inside the call does nothing else, and nobody else writes its error code.
  ghost predicate Outside(k: K, w: nat, inside: map<nat, bool>, c: Call) {
    && Inv(k) && Legal(k, c)
    && !(c.Block? && c.w == w)
    && !(c.Resume? && c.t in Queue(k, w))
    && !(c.AssignError? && c.t in inside)
    && (c.Block? || c.Sleep? || c.Exit? ==> k.current !in inside)
  }

  // A deleted thread never returns.
  function After(inside: map<nat, bool>, c: Call): map<nat, bool> {
    if c.Delete? then inside - {c.t} else inside
  }

  datatype Outcome = Done(error: Error) | Blocked

  predicate Free(k: K, inside: map<nat, bool>) {
    k.current in k.threads && k.threads[k.current].stat == Running && k.current !in inside
  }

  lemma OutsideLegal(k: K, w: nat, inside: map<nat, bool>, c: Call)
    requires Outside(k, w, inside, c)
    ensures Inv(k) && Legal(k, c) && !(c.Block? && c.w == w)
  {
  }

  // Of the waiters only those that time out or are deleted leave by a call of others.
  lemma LeaverFrame(k: K, w: nat, inside: map<nat, bool>, c: Call)
    requires Account(k, w, inside) && Outside(k, w, inside, c)
    ensures Leaver(k, c).Some? && Leaver(k, c).value in Queue(k, w) ==> c.TimerFires? || c.Delete?
    ensures c.TimerFires? ==> c.t in k.threads && k.threads[c.t].timed
    ensures c.Block? || c.Sleep? ==> k.current !in inside
    ensures c.AssignError? ==> c.t !in inside
    ensures c.Startup? ==> c.t in k.threads && k.threads[c.t].stat == Init && c.t !in Queue(k, w)
  {
    QueueLaw(k, w);
    hide Queue;
  }

  lemma OutsideQueue(k: K, w: nat, inside: map<nat, bool>, c: Call)
    requires Account(k, w, inside) && Outside(k, w, inside, c)
    ensures var k' := CallF(k, c);
            && Inv(k') && (forall t :: t in Queue(k', w) ==> t in Queue(k, w))
            && (forall t :: t in Queue(k, w) && t !in Queue(k', w) ==> (c.TimerFires? || c.Delete?) && c.t == t)
            && (forall t :: t in Queue(k', w) ==> !((c.TimerFires? || c.Delete?) && c.t == t))
            && (Queue(k, w) == [] ==> Queue(k', w) == [])
  {
    hide Queue, CallF, Account, Outside, Inv;
    OutsideLegal(k, w, inside, c);
    CallInv(k, c);
    CallQueue(k, c, w);
    QueueLaw(k, w);
    LeaverFrame(k, w, inside, c);
    if Leaver(k, c).Some? { WithoutIs(Queue(k, w), Leaver(k, c).value); }
  }

  lemma AccountCall(k: K, w: nat, inside: map<nat, bool>, c: Call)
    requires Account(k, w, inside) && Outside(k, w, inside, c)
    ensures Account(CallF(k, c), w, After(inside, c))
  {
    hide Queue, CallF, Inv, Legal;
    OutsideQueue(k, w, inside, c);
    CallThreads(k, c);
    LeaverFrame(k, w, inside, c);
  }

  lemma AccountBlock(k: K, w: nat, flag: Flag, timed: bool, inside: map<nat, bool>)
    requires Inv(k) && Account(k, w, inside) && Free(k, inside) && k.threads[k.current].error == Ok
    ensures forall l, t :: On(k.lists, l, t) ==> t in k.threads
    ensures Inv(BlockF(k, w, flag, timed)) && Account(BlockF(k, w, flag, timed), w, inside[k.current := false])
  {
    hide Queue, Inv, BlockF, Enqueue;
    BlockInv(k, w, flag, timed);
    BlockQueue(k, w, flag, timed);
    EnqueueMembers(flag, Queue(k, w), Prios(k), k.current);
  }

  // A waiter is resumed without an error: it is given what it waits for.
  lemma AccountResume(k: K, w: nat, inside: map<nat, bool>, t: nat)
    requires Inv(k) && Account(k, w, inside) && t in Queue(k, w)
    ensures Exists(k, t) && HasLists(k) && k.threads[t].stat == Suspended
    ensures var k' := ResumeF(k, t).0;
            && Inv(k') && Account(k', w, inside[t := true]) && ResumeF(k, t).1
            && Queue(k', w) == Without(Queue(k, w), t) && (forall v :: v != w ==> Queue(k', v) == Queue(k, v))
            && (forall u :: u in Queue(k', w) <==> u in Queue(k, w) && u != t) && k'.current == k.current
  {
    hide Queue, Inv, CallF, ResumeF;
    QueueLaw(k, w);
    Usable(k);
    ResumeInv(k, t);
    ResumedState(k, t);
    ActiveNotTimed(ResumeF(k, t).0, t);
    WithoutIs(Queue(k, w), t);
    ResumeQueue(k, t, w);
    forall v | v != w
      ensures Queue(ResumeF(k, t).0, v) == Queue(k, v)
    {
      ResumeQueue(k, t, v);
      NotInWithout(Queue(k, v), t);
    }
  }

  lemma ResumedState(k: K, t: nat)
    requires Exists(k, t) && HasLists(k) && k.threads[t].stat == Suspended
    ensures var (k', ok) := ResumeF(k, t);
            && ok && k'.threads.Keys == k.threads.Keys && k'.current == k.current
            && (forall u :: u in k.threads && u != t ==> k'.threads[u] == k.threads[u])
            && SameBut(k.threads[t], k'.threads[t]) && k'.threads[t].stat in {Ready, Running}
  {
  }

  // rt_ipc_list_resume
  lemma AccountWake(k: K, w: nat, inside: map<nat, bool>)
    requires Inv(k) && Account(k, w, inside) && Queue(k, w) != []
    ensures Inv(WakeF(k, w)) && Account(WakeF(k, w), w, inside[Queue(k, w)[0] := true])
    ensures Queue(WakeF(k, w), w) == Queue(k, w)[1..] && WakeF(k, w).current == k.current
    ensures forall v :: v != w ==> Queue(WakeF(k, w), v) == Queue(k, v)
  {
    hide Queue, Inv, ResumeF;
    AccountResume(k, w, inside, Queue(k, w)[0]);
    HeadDropped(Queue(k, w));
  }

  lemma ActiveNotTimed(k: K, t: nat)
    requires Inv(k) && t in k.threads && k.threads[t].stat in {Ready, Running}
    ensures !k.threads[t].timed
  {
  }

  lemma HeadAndRest(q: seq<nat>)
    requires q != [] && Distinct(q)
    ensures forall u :: u in q <==> u == q[0] || u in q[1..]
    ensures q[0] !in q[1..]
  {
    assert q == [q[0]] + q[1..];
  }

  lemma AccountWakeAll(k: K, w: nat, inside: map<nat, bool>)
    requires Inv(k) && Account(k, w, inside)
    ensures Inv(WakeAllF(k, w)) && Account(WakeAllF(k, w), w, inside) && Queue(WakeAllF(k, w), w) == []
  {
    hide Queue, Inv, WakeAllF;
    WakeAllLaw(k, w);
    var k' := WakeAllF(k, w);
    forall t | t in inside
      ensures t in k'.threads && !k'.threads[t].timed && (inside[t] <==> k'.threads[t].error == Ok)
    {
      if t in Queue(k, w) { ActiveNotTimed(k', t); }
    }
  }

  // A thread that returns has left the list, unless it goes on without having been resumed; its error
  // code tells whether it was served exactly if it has left.
  lemma AccountReturn(k: K, w: nat, inside: map<nat, bool>)
    requires Inv(k) && Account(k, w, inside) && k.current in inside
    ensures Account(k, w, inside - {k.current}) <==> k.current !in Queue(k, w)
    ensures k.threads[k.current].error == Ok <==> inside[k.current] || k.current in Queue(k, w)
    ensures k.current in Queue(k, w) ==> !inside[k.current]
    ensures k.threads[k.current].stat == Running ==> k.current !in Queue(k, w)
  {
    hide Queue, Inv;
    Usable(k);
    QueueLaw(k, w);
  }

  // The thread that has blocked gives up the processor exactly if the scheduler is not locked and
  // another thread is ready. Otherwise rt_schedule does nothing, and the thread goes on although it is
  // on the list.
  lemma GoesOn(k: K, w: nat, flag: Flag, timed: bool)
    requires Inv(k) && k.threads[k.current].stat == Running
    ensures forall l, t :: On(k.lists, l, t) ==> t in k.threads
    ensures var k1 := BlockF(k, w, flag, timed);
            && Inv(k1) && k1.current == k.current && k.current in Queue(k1, w)
            && (CallF(k1, Call.Schedule).current == k.current <==> k.lock != 0 || !AnyReady(k))
            && (CallF(k1, Call.Schedule).current == k.current ==> CallF(k1, Call.Schedule) == k1)
            && k1.threads.Keys == k.threads.Keys && k1.threads[k.current].error == k.threads[k.current].error
  {
    hide Queue, Enqueue, BlockF, FirstReady;
    Usable(k);
    BlockInv(k, w, flag, timed);
    BlockQueue(k, w, flag, timed);
    EnqueueMembers(flag, Queue(k, w), Prios(k), k.current);
    var k1 := BlockF(k, w, flag, timed);
    SameReady(k, k1);
    TopLaw(k1);
    if k.lock == 0 { ScheduleLaw(k1); }
  }

  lemma SameReady(k: K, k': K)
    requires k'.threads.Keys == k.threads.Keys
    requires forall t :: t in k.threads ==> (k'.threads[t].stat == Ready <==> k.threads[t].stat == Ready)
    ensures AnyReady(k') <==> AnyReady(k)
  {
    if AnyReady(k) {
      var t :| t in k.threads && k.threads[t].stat == Ready;
      assert k'.threads[t].stat == Ready;
    }
    if AnyReady(k') {
      var t :| t in k'.threads && k'.threads[t].stat == Ready;
      assert k.threads[t].stat == Ready;
    }
  }

  // Blocking on the list it is on already, the thread is linked into it twice.
  lemma BlockedTwice(k: K, w: nat, flag: Flag, timed: bool)
    requires Inv(k) && k.current in Queue(k, w)
    ensures forall l, t :: On(k.lists, l, t) ==> t in k.threads
    ensures !Inv(BlockF(k, w, flag, timed))
  {
    Usable(k);
    QueueLaw(k, w);
    var q, k' := Queue(k, w), BlockF(k, w, flag, timed);
    InsertedTwice(q, Position(flag, q, Prios(k), Prios(k)[k.current]), k.current);
    assert k'.lists[WaitList(w)] == Enqueue(flag, q, Prios(k), k.current);
  }

  lemma AccountFrame(k: K, k': K, w: nat, inside: map<nat, bool>)
    requires Account(k, w, inside) && Queue(k', w) == Queue(k, w)
    requires forall t :: t in inside && t in k.threads ==>
               t in k'.threads && k'.threads[t].error == k.threads[t].error
                   && (k'.threads[t].timed ==> k.threads[t].timed)
    ensures Account(k', w, inside)
  {
    hide Queue;
  }

  // The running thread's own error code is no waiter's.
  lemma OwnError(k: K, w: nat, inside: map<nat, bool>, e: Error)
    requires Inv(k) && Account(k, w, inside) && Free(k, inside)
    ensures Account(ErrorF(k, k.current, e), w, inside)
  {
    hide Queue, Inv;
    ErrorInv(k, k.current, e);
    AccountFrame(k, ErrorF(k, k.current, e), w, inside);
  }

  // ----- the time left of a call that waits again

  const TICKS: int := 0x1_0000_0000     // rt_tick_t

  // The signed 32-bit number with the given value modulo 2^32.
  function Signed(n: int): int {
    (n + 0x8000_0000) % TICKS - 0x8000_0000
  }

  // What is left of `timeout` when a thread runs again at tick `now`.
  function Left(timeout: int, start: int, now: int): (r: int)
    ensures timeout > 0 ==> r >= 0
  {
    if timeout > 0 then
      var rest := Signed(timeout - (now - start) % TICKS);
      if rest < 0 then 0 else rest
    else timeout
  }

  // The time left is what is left of it exactly unless the wait outlived the timeout by more than
  // half the range of the clock.
  lemma LeftIs(timeout: int, start: int, now: int)
    requires 0 < timeout < 0x8000_0000
    ensures var d := (now - start) % TICKS;
            Left(timeout, start, now) == (if timeout > d then timeout - d else 0) <==> d <= timeout + 0x8000_0000
  {
    var d := (now - start) % TICKS;
    SignedIs(timeout - d);
  }

  lemma SignedIs(n: int)
    requires -TICKS < n < 0x8000_0000
    ensures Signed(n) == if n >= -0x8000_0000 then n else n + TICKS
  {
  }

  // ----- calls that wait again

  // The current thread resets its error code and blocks on a list.
  ghost function WaitF(k: K, list: nat, flag: Flag, timeout: int): (k': K)
    requires Inv(k)
  {
    ErrorInv(k, k.current, Ok);
    Usable(ErrorF(k, k.current, Ok));
    BlockF(ErrorF(k, k.current, Ok), list, flag, timeout > 0)
  }

  lemma WaitIs(k: K, w: nat, flag: Flag, timeout: int)
    requires Inv(k) && k.threads[k.current].stat == Running
    ensures HasBlocked(k, WaitF(k, w, flag, timeout), w, flag, timeout > 0)
  {
    hide Inv, Queue, BlockF, HasBlocked;
    BlockedIs(k, w, flag, timeout > 0);
  }

  lemma WaitGoesOn(k: K, w: nat, flag: Flag, timeout: int)
    requires Inv(k) && k.threads[k.current].stat == Running
    ensures var k1 := WaitF(k, w, flag, timeout);
            && Inv(k1) && k1.current == k.current && k.current in Queue(k1, w)
            && (CallF(k1, Call.Schedule).current == k.current <==> k.lock != 0 || !AnyReady(k))
            && (CallF(k1, Call.Schedule).current == k.current ==> CallF(k1, Call.Schedule) == k1)
            && k1.threads.Keys == k.threads.Keys && k1.threads[k.current].error == Ok
  {
    hide Inv, Queue, BlockF, CallF;
    Usable(k);
    ErrorInv(k, k.current, Ok);
    GoesOn(ErrorF(k, k.current, Ok), w, flag, timeout > 0);
    SameReady(k, ErrorF(k, k.current, Ok));
  }

  lemma WaitedTwice(k: K, w: nat, flag: Flag)
    requires Inv(k) && k.current in Queue(k, w)
    ensures forall timeout: int :: !Inv(WaitF(k, w, flag, timeout))
  {
    hide Inv, Queue, BlockF;
    Usable(k);
    ErrorInv(k, k.current, Ok);
    forall timeout: int
      ensures !Inv(WaitF(k, w, flag, timeout))
    {
      BlockedTwice(ErrorF(k, k.current, Ok), w, flag, timeout > 0);
    }
  }

  // The callers that were served and have not run since.
  function Woken(inside: map<nat, bool>): set<nat> {
    set t | t in inside && inside[t]
  }

  // ----- counting the resumed

  lemma WokenAdd(inside: map<nat, bool>, t: nat)
    requires t in inside && !inside[t]
    ensures |Woken(inside[t := true])| == |Woken(inside)| + 1
  {
    assert Woken(inside[t := true]) == Woken(inside) + {t};
  }

  lemma WokenDrop(inside: map<nat, bool>, t: nat)
    ensures |Woken(inside - {t})| == |Woken(inside)| - (if t in Woken(inside) then 1 else 0)
    ensures Woken(inside - {t}) == Woken(inside) - {t}
  {
    assert Woken(inside - {t}) == Woken(inside) - {t};
  }

  lemma WokenWaits(inside: map<nat, bool>, t: nat)
    requires t !in inside
    ensures Woken(inside[t := false]) == Woken(inside)
  {
  }

  // A resumed thread is not on the list: deleting it leaves the list alone.
  lemma StillWaiting(k: K, w: nat, inside: map<nat, bool>, t: nat)
    requires Inv(k) && Account(k, w, inside) && t in Woken(inside) && Legal(k, Call.Delete(t))
    ensures Queue(CallF(k, Call.Delete(t)), w) == Queue(k, w)
  {
    hide Inv, Queue, CallF;
    CallQueue(k, Call.Delete(t), w);
    NotInWithout(Queue(k, w), t);
  }

  // ----- two lists of callers

  // What resuming the first of one list means to the callers on the other one.
  lemma WakeOther(k: K, w: nat, inside: map<nat, bool>, v: nat, others: map<nat, bool>)
    requires Inv(k) && Account(k, w, inside) && Account(k, v, others) && v != w && Queue(k, w) != []
    requires inside.Keys !! others.Keys
    ensures Account(WakeF(k, w), v, others) && Queue(k, w)[0] in inside && !inside[Queue(k, w)[0]]
  {
    hide Queue, Inv, WakeF;
    WakeLaw(k, w);
    assert Queue(k, w)[0] in Queue(k, w);
    AccountFrame(k, WakeF(k, w), v, others);
  }

  // Resuming a waiter of one list, seen from the other one.
  lemma ResumeOther(k: K, w: nat, inside: map<nat, bool>, t: nat, v: nat, others: map<nat, bool>)
    requires Inv(k) && Account(k, w, inside) && t in Queue(k, w) && Account(k, v, others) && v != w
    requires inside.Keys !! others.Keys
    ensures Exists(k, t) && HasLists(k) && t in inside && !inside[t]
    ensures Account(ResumeF(k, t).0, v, others) && Queue(ResumeF(k, t).0, v) == Queue(k, v)
  {
    hide Queue, Inv, ResumeF;
    AccountResume(k, w, inside, t);
    ResumedState(k, t);
    assert t in inside && t !in others;
    AccountFrame(k, ResumeF(k, t).0, v, others);
  }

  // Blocking on one list, seen from both.
  lemma WaitLaw(k: K, w: nat, flag: Flag, timeout: int, inside: map<nat, bool>, v: nat, others: map<nat, bool>)
    requires Inv(k) && Account(k, w, inside) && Account(k, v, others) && v != w && Free(k, inside) && Free(k, others)
    ensures var k' := WaitF(k, w, flag, timeout);
            && Inv(k') && Account(k', w, inside[k.current := false]) && Account(k', v, others)
            && Queue(k', v) == Queue(k, v) && k'.current == k.current
  {
    hide Inv, Queue, Account, BlockF, Enqueue;
    var k1 := ErrorF(k, k.current, Ok);
    ErrorInv(k, k.current, Ok);
    OwnError(k, w, inside, Ok);
    OwnError(k, v, others, Ok);
    Usable(k1);
    AccountBlock(k1, w, flag, timeout > 0, inside);
    BlockQueue(k1, w, flag, timeout > 0);
    BlockOther(k1, w, flag, timeout > 0, v);
    OthersFrame(k1, BlockF(k1, w, flag, timeout > 0), v, others);
  }

  lemma OthersFrame(k: K, k': K, v: nat, others: map<nat, bool>)
    requires Account(k, v, others) && k.current !in others && Queue(k', v) == Queue(k, v)
    requires k'.threads.Keys == k.threads.Keys && forall u :: u in k.threads && u != k.current ==>
             k'.threads[u] == k.threads[u]
    ensures Account(k', v, others)
  {
    hide Queue;
    AccountFrame(k, k', v, others);
  }

  // The thread that runs again has left its list; it counted as resumed exactly if it has no error.
  lemma LeaveCall(k: K, w: nat, inside: map<nat, bool>, others: map<nat, bool>)
    requires Inv(k) && Account(k, w, inside) && k.threads[k.current].stat == Running && k.current in inside
    requires inside.Keys !! others.Keys
    ensures Account(k, w, inside - {k.current}) && Free(k, inside - {k.current}) && Free(k, others)
    ensures |Woken(inside - {k.current})| + (if k.threads[k.current].error == Ok then 1 else 0) == |Woken(inside)|
  {
    hide Inv, Queue;
    Usable(k);
    AccountReturn(k, w, inside);
    WokenDrop(inside, k.current);
  }

  lemma FailOther(k: K, w: nat, inside: map<nat, bool>, v: nat, others: map<nat, bool>)
    requires Inv(k) && Account(k, w, inside) && Account(k, v, others) && v != w && inside.Keys !! others.Keys
    ensures Account(WakeAllF(k, w), v, others) && Queue(WakeAllF(k, w), v) == Queue(k, v)
  {
    hide Queue, Inv, WakeAllF;
    WakeAllLaw(k, w);
    AccountFrame(k, WakeAllF(k, w), v, others);
  }
}
