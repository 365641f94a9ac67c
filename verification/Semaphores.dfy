// The semaphore of ipc.c, over the whole state of the threads.
module Semaphores {
  import opened Wrappers
  import opened Rings
  import opened WaitQueue
  import opened Threads
  import opened ThreadLaws
  import opened Waits
  import opened Callers

  const WIDTH: nat := 0x1_0000      // rt_uint16_t

  // `value` is the program's. `inside` holds the threads between blocking in rt_sem_take and returning
  // from it, with whether a unit was handed to them.
  datatype Sem = Sem(k: K, w: nat, flag: Flag, value: nat, inside: map<nat, bool>)

  // ----- the calls

  // A take that need not wait may come from any context; only a thread that runs can wait.
  predicate MayTake(s: Sem, time: int) {
    s.value == 0 && time != 0 ==> Free(s.k, s.inside)
  }

  // rt_sem_take, up to its rt_schedule when it blocks. `time` is negative for waiting for ever.
  ghost function TakeF(s: Sem, time: int): (r: (Sem, Outcome))
    requires Inv(s.k)
  {
    if s.value > 0 then (s.(value := s.value - 1), Done(Ok))
    else if time == 0 then (s, Done(Timeout))
    else
      ErrorInv(s.k, s.k.current, Ok);
      Usable(ErrorF(s.k, s.k.current, Ok));
      (s.(k := BlockF(ErrorF(s.k, s.k.current, Ok), s.w, s.flag, time > 0), inside := s.inside[s.k.current := false]),
          Blocked)
  }

  // What rt_sem_take returns after it had blocked.
  function ReturnF(s: Sem): (r: (Sem, Error))
    requires s.k.current in s.k.threads
  {
    (s.(inside := s.inside - {s.k.current}), s.k.threads[s.k.current].error)
  }

  // rt_sem_release up to its rt_schedule.
  ghost function ReleaseF(s: Sem): (s': Sem)
    requires Inv(s.k)
  {
    if Queue(s.k, s.w) != [] then
      s.(k := WakeF(s.k, s.w), inside := s.inside[Queue(s.k, s.w)[0] := true])
    else s.(value := (s.value + 1) % WIDTH)
  }

  // RT_IPC_CMD_RESET up to its rt_schedule.
  ghost function ResetF(s: Sem, value: nat): (s': Sem)
    requires Inv(s.k)
  {
    s.(k := WakeAllF(s.k, s.w), value := value % WIDTH)
  }

  // Any other call of the kernel.
  ghost function OtherF(s: Sem, c: Call): (s': Sem)
    requires Inv(s.k) && Legal(s.k, c)
  {
    s.(k := CallF(s.k, c), inside := After(s.inside, c))
  }

  // ----- the invariant, and what each call does

  ghost predicate SemInv(s: Sem) {
    && Inv(s.k)
    && s.value < WIDTH
    && (s.value > 0 ==> Queue(s.k, s.w) == [])
    && Account(s.k, s.w, s.inside)
  }

  // Taking takes a unit, is refused without a trace, or puts the running thread on the list.
  lemma TakeInv(s: Sem, time: int)
    requires SemInv(s) && MayTake(s, time)
    ensures SemInv(TakeF(s, time).0)
    ensures var (s', r) := TakeF(s, time);
            if s.value > 0 then r == Done(Ok) && s' == s.(value := s'.value) && s'.value + 1 == s.value
            else if time == 0 then r == Done(Timeout) && s' == s
            else r == Blocked && HasBlocked(s.k, s'.k, s.w, s.flag, time > 0)
                 && s' == s.(k := s'.k, inside := s.inside[s.k.current := false])
  {
    hide Inv, Queue, BlockF, Account, HasBlocked;
    if s.value == 0 && time != 0 {
      var k1 := ErrorF(s.k, s.k.current, Ok);
      ErrorInv(s.k, s.k.current, Ok);
      OwnError(s.k, s.w, s.inside, Ok);
      Usable(k1);
      AccountBlock(k1, s.w, s.flag, time > 0, s.inside);
      BlockedIs(s.k, s.w, s.flag, time > 0);
    }
  }

  // A thread that had blocked returns success if a unit was handed to it, and also if it goes on while
  // it still waits, which breaks the account; a thread that was resumed does not.
  lemma ReturnInv(s: Sem)
    requires SemInv(s) && s.k.current in s.inside
    ensures SemInv(ReturnF(s).0) <==> s.k.current !in Queue(s.k, s.w)
    ensures ReturnF(s).0 == s.(inside := s.inside - {s.k.current})
    ensures ReturnF(s).1 == Ok <==> s.inside[s.k.current] || s.k.current in Queue(s.k, s.w)
    ensures s.k.threads[s.k.current].stat == Running ==> s.k.current !in Queue(s.k, s.w)
  {
    hide Inv, Queue, Account;
    Usable(s.k);
    AccountReturn(s.k, s.w, s.inside);
  }

  // A release makes the first waiter ready with its unit, and nobody else; without waiters it adds a unit,
  // in sixteen bits.
  lemma ReleaseInv(s: Sem)
    requires SemInv(s)
    ensures var s', q := ReleaseF(s), Queue(s.k, s.w);
            && SemInv(s')
            && (if q != [] then
                  FirstResumed(s.k, s'.k, s.w) && s' == s.(k := s'.k, inside := s.inside[q[0] := true])
                else s' == s.(value := s'.value) && s'.value == if s.value < WIDTH - 1 then s.value + 1 else 0)
  {
    hide Inv, Queue, WakeF, Account, FirstResumed;
    if Queue(s.k, s.w) != [] {
      AccountWake(s.k, s.w, s.inside);
      WakeIs(s.k, s.w);
    }
  }

  // A reset sends all waiters away with an error and sets the value, in sixteen bits.
  lemma ResetInv(s: Sem, value: nat)
    requires SemInv(s)
    ensures var s' := ResetF(s, value);
            && SemInv(s') && AllFailed(s.k, s'.k, s.w) && s' == s.(k := s'.k, value := s'.value)
            && (s'.value - value) % WIDTH == 0
  {
    hide Inv, Queue, WakeAllF, Account, AllFailed;
    AccountWakeAll(s.k, s.w, s.inside);
    WakeAllLaw(s.k, s.w);
  }

  lemma OtherInv(s: Sem, c: Call)
    requires SemInv(s) && Outside(s.k, s.w, s.inside, c)
    ensures SemInv(OtherF(s, c)) && OtherF(s, c) == s.(k := CallF(s.k, c), inside := After(s.inside, c))
  {
    hide Inv, Queue, CallF, Account, Outside;
    OutsideLegal(s.k, s.w, s.inside, c);
    OutsideQueue(s.k, s.w, s.inside, c);
    AccountCall(s.k, s.w, s.inside, c);
  }

  // ----- runs

  datatype Step = Take(time: int) | Return | Release | Reset(value: nat) | Other(call: Call)

  ghost predicate Allowed(s: Sem, step: Step)
    requires Inv(s.k)
  {
    match step
    case Take(time) => MayTake(s, time)
    case Return => s.k.threads[s.k.current].stat == Running && s.k.current in s.inside
    case Release => true
    case Reset(_) => true
    case Other(c) => Outside(s.k, s.w, s.inside, c)
  }

  // A release that wraps the 16-bit value.
  ghost predicate Overflows(s: Sem, step: Step) {
    step.Release? && Queue(s.k, s.w) == [] && s.value == WIDTH - 1
  }

  ghost function StepF(s: Sem, step: Step): (s': Sem)
    requires Inv(s.k) && Allowed(s, step)
  {
    match step
    case Take(time) => TakeF(s, time).0
    case Return => ReturnF(s).0
    case Release => ReleaseF(s)
    case Reset(value) => ResetF(s, value)
    case Other(c) => OtherF(s, c)
  }

  // The units a step hands out: one to a take that returns success at once, and one to each thread that a
  // release takes off the list.
  ghost function Handed(s: Sem, step: Step): int
    requires Inv(s.k) && Allowed(s, step)
  {
    match step
    case Take(time) => if TakeF(s, time).1 == Done(Ok) then 1 else 0
    case Release => |Queue(s.k, s.w)| - |Queue(StepF(s, step).k, s.w)|
    case _ => 0
  }

  lemma StepInv(s: Sem, step: Step)
    requires SemInv(s) && Allowed(s, step)
    ensures SemInv(StepF(s, step)) && StepF(s, step).w == s.w && StepF(s, step).flag == s.flag
    ensures var v := s.value + (if step.Release? then 1 else 0) - Handed(s, step);
            !step.Reset? ==> StepF(s, step).value == if Overflows(s, step) then v - WIDTH else v
  {
    hide Inv, Account, Queue, FirstResumed, AllFailed, HasBlocked, TakeF, ReturnF, ReleaseF, ResetF, OtherF;
    match step
    case Take(time) => TakeInv(s, time);
    case Return => ReturnInv(s);
    case Release => ReleaseInv(s); ShorterByOne(s.k, ReleaseF(s).k, s.w);
    case Reset(value) => ResetInv(s, value);
    case Other(c) => OtherInv(s, c);
  }

  lemma ShorterByOne(k: K, k': K, w: nat)
    ensures FirstResumed(k, k', w) ==> |Queue(k', w)| == |Queue(k, w)| - 1
  {
    hide Queue;
  }

  lemma SemBounds(s: Sem)
    requires SemInv(s)
    ensures Inv(s.k) && s.value < WIDTH
  {
  }

  ghost predicate AllowedRun(s: Sem, steps: seq<Step>)
    requires SemInv(s)
    decreases |steps|
  {
    steps == []
    || (Allowed(s, steps[0]) && (StepInv(s, steps[0]); AllowedRun(StepF(s, steps[0]), steps[1..])))
  }

  ghost predicate NoOverflow(s: Sem, steps: seq<Step>)
    requires SemInv(s) && AllowedRun(s, steps)
    decreases |steps|
  {
    steps == []
    || (!Overflows(s, steps[0]) && (StepInv(s, steps[0]); NoOverflow(StepF(s, steps[0]), steps[1..])))
  }

  ghost function Run(s: Sem, steps: seq<Step>): (s': Sem)
    requires SemInv(s) && AllowedRun(s, steps)
    ensures SemInv(s')
    decreases |steps|
  {
    if steps == [] then s else StepInv(s, steps[0]); Run(StepF(s, steps[0]), steps[1..])
  }

  // The number of releases in a run.
  function Releases(steps: seq<Step>): nat {
    if steps == [] then 0 else (if steps[0].Release? then 1 else 0) + Releases(steps[1..])
  }

  // The units handed out in a run.
  ghost function AllHanded(s: Sem, steps: seq<Step>): int
    requires SemInv(s) && AllowedRun(s, steps)
    decreases |steps|
  {
    if steps == [] then 0
    else StepInv(s, steps[0]); Handed(s, steps[0]) + AllHanded(StepF(s, steps[0]), steps[1..])
  }

  // Where the part of a run that follows its last reset begins.
  function ResetAt(steps: seq<Step>): (n: nat)
    ensures n <= |steps| && (n > 0 ==> steps[n - 1].Reset?)
    ensures forall i :: n <= i < |steps| ==> !steps[i].Reset?
  {
    if steps == [] then 0
    else
      var n := ResetAt(steps[1..]);
      if n > 0 || steps[0].Reset? then n + 1 else 0
  }

  // That part, with the state it starts from.
  ghost function SinceReset(s: Sem, steps: seq<Step>): (r: (Sem, seq<Step>))
    requires SemInv(s) && AllowedRun(s, steps)
    ensures SemInv(r.0) && AllowedRun(r.0, r.1) && ResetAt(r.1) == 0
    decreases |steps|
  {
    if ResetAt(steps) == 0 then (s, steps)
    else StepInv(s, steps[0]); SinceReset(StepF(s, steps[0]), steps[1..])
  }

  lemma {:induction false} SinceResetIs(s: Sem, steps: seq<Step>)
    requires SemInv(s) && AllowedRun(s, steps)
    ensures var (s0, rest), n := SinceReset(s, steps), ResetAt(steps);
            && Run(s0, rest) == Run(s, steps) && rest == steps[n..]
            && (if n == 0 then s0 == s else (s0.value - steps[n - 1].value) % WIDTH == 0)
    decreases |steps|
  {
    hide SemInv, Allowed, StepF;
    if ResetAt(steps) > 0 {
      SemBounds(s);
      StepInv(s, steps[0]);
      SinceResetIs(StepF(s, steps[0]), steps[1..]);
      if ResetAt(steps) == 1 { ResetHere(s, steps[0]); }
    }
  }

  lemma ResetHere(s: Sem, step: Step)
    requires SemInv(s) && step.Reset? && Inv(s.k) && Allowed(s, step)
    ensures (StepF(s, step).value - step.value) % WIDTH == 0
  {
    hide SemInv, ResetF;
    ResetInv(s, step.value);
  }

  // Over any run of takes, time-outs, hand-overs, resets and whatever else threads and interrupts do:
  // a semaphore with units has no waiters; and the value at the last reset and the releases since then
  // make up the value and the units handed out since then, exactly while no release overflows, and modulo
  // 65536 always.
  lemma RunLaw(s: Sem, steps: seq<Step>)
    requires SemInv(s) && AllowedRun(s, steps)
    ensures var s', (s0, rest), n := Run(s, steps), SinceReset(s, steps), ResetAt(steps);
            && rest == steps[n..] && (if n == 0 then s0 == s else (s0.value - steps[n - 1].value) % WIDTH == 0)
            && SemInv(s') && (s'.value > 0 ==> Queue(s'.k, s'.w) == [])
            && (s0.value + Releases(rest) - AllHanded(s0, rest) - s'.value) % WIDTH == 0
            && (NoOverflow(s0, rest) ==> s0.value + Releases(rest) == s'.value + AllHanded(s0, rest))
  {
    hide Inv, Queue, Account, StepF, Allowed, Overflows, AllHanded, NoOverflow, AllowedRun, Run;
    var (s0, rest) := SinceReset(s, steps);
    SinceResetIs(s, steps);
    RunOn(s0, rest);
  }

  lemma {:induction false} RunOn(s: Sem, steps: seq<Step>)
    requires SemInv(s) && AllowedRun(s, steps) && ResetAt(steps) == 0
    ensures var s' := Run(s, steps);
            && (s.value + Releases(steps) - AllHanded(s, steps) - s'.value) % WIDTH == 0
            && (NoOverflow(s, steps) ==> s.value + Releases(steps) == s'.value + AllHanded(s, steps))
    decreases |steps|
  {
    hide SemInv, Allowed, StepF, Overflows, Handed;
    if steps != [] {
      SemBounds(s);
      StepInv(s, steps[0]);
      RunOn(StepF(s, steps[0]), steps[1..]);
      var s1 := StepF(s, steps[0]);
      WrapSum(s1.value + Releases(steps[1..]) - AllHanded(s1, steps[1..]) - Run(s, steps).value,
          s.value + Releases(steps) - AllHanded(s, steps) - Run(s, steps).value);
    }
  }

  lemma WrapSum(a: int, b: int)
    requires a % WIDTH == 0 && (b == a || b == a + WIDTH)
    ensures b % WIDTH == 0
  {
  }

  // A take that blocks returns success at once, without a unit, exactly if the scheduler is locked or no
  // other thread is ready.
  lemma SuccessWithoutUnit(s: Sem, time: int)
    requires SemInv(s) && MayTake(s, time) && s.value == 0 && time != 0
    ensures Inv(s.k) && Inv(TakeF(s, time).0.k)
    ensures var t, s2 := s.k.current, OtherF(TakeF(s, time).0, Call.Schedule);
            && (s2.k.current == t <==> s.k.lock != 0 || !AnyReady(s.k))
            && (s2.k.current == t ==>
                  && t in s2.k.threads && t in s2.inside && !s2.inside[t] && s2.value == 0
                  && ReturnF(s2).1 == Ok && !SemInv(ReturnF(s2).0))
  {
    hide Inv, Queue, BlockF, Account, CallF;
    TakeInv(s, time);
    SemBounds(TakeF(s, time).0);
    var k1 := ErrorF(s.k, s.k.current, Ok);
    ErrorInv(s.k, s.k.current, Ok);
    Usable(k1);
    GoesOn(k1, s.w, s.flag, time > 0);
    SameReady(s.k, k1);
    if CallF(TakeF(s, time).0.k, Call.Schedule).current == s.k.current { ReturnInv(TakeF(s, time).0); }
  }

  // rt_thread_resume on a waiter breaks the account: the waiter returns success without a unit.
  lemma ResumedByOutsider(s: Sem, t: nat)
    requires SemInv(s) && t in s.k.threads
    ensures Legal(s.k, Call.Resume(t))
    ensures SemInv(OtherF(s, Call.Resume(t))) <==> t !in Queue(s.k, s.w)
    ensures var s' := OtherF(s, Call.Resume(t));
            t in Queue(s.k, s.w) ==>
              t !in Queue(s'.k, s.w) && t in s'.k.threads && s'.k.threads[t].error == Ok && t in s'.inside
                  && !s'.inside[t]
  {
    if t in Queue(s.k, s.w) {
      QueueLaw(s.k, s.w);
      CallQueue(s.k, Call.Resume(t), s.w);
      CallThreads(s.k, Call.Resume(t));
      WithoutIs(Queue(s.k, s.w), t);
      hide Queue, Inv;
      var s' := OtherF(s, Call.Resume(t));
      assert !Account(s'.k, s'.w, s'.inside);
    } else {
      OtherInv(s, Call.Resume(t));
    }
  }
}
