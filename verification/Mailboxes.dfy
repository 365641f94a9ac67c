// The mailbox of ipc.c, over the whole state of the threads: a ring of mails between senders and
// receivers that may all block, time out and lose races against third threads.
module Mailboxes {
  import opened Wrappers
  import opened Rings
  import opened WaitQueue
  import opened Threads
  import opened ThreadLaws
  import opened Waits
  import opened Callers

  // The local variables of a call that has blocked: the mail of a sender, the waiting time left and
  // the tick at which its timer was started.
  datatype Local = Local(mail: nat, timeout: int, start: int)

  // `pool`, `inOff`, `outOff` and `entry` are the program's. `rin` and `sin` hold the receivers and
  // senders that have blocked and not returned, with whether they were resumed since, without an error.
  datatype Mailbox = Mailbox(k: K, rlist: nat, slist: nat, flag: Flag, size: nat,
                             pool: seq<nat>, inOff: nat, outOff: nat, entry: nat,
                             rin: map<nat, bool>, sin: map<nat, bool>, locals: map<nat, Local>)

  // ----- the ring

  // The place i places after `off` in a ring of n.
  function Place(off: nat, i: nat, n: nat): int {
    if off + i < n then off + i else off + i - n
  }

  ghost predicate RingOk(m: Mailbox) {
    && |m.pool| == m.size && m.entry <= m.size
    && (m.size > 0 ==> m.outOff < m.size) && (m.size == 0 ==> m.outOff == 0)
    && m.inOff == Place(m.outOff, m.entry, m.size)
  }

  // The mails in the ring, oldest first.
  ghost function Contents(m: Mailbox): (c: seq<nat>)
    requires RingOk(m)
    ensures |c| == m.entry
  {
    seq(m.entry, i requires 0 <= i < m.entry => m.pool[Place(m.outOff, i, m.size)])
  }

  function Next(off: nat, n: nat): nat {
    if off + 1 >= n then 0 else off + 1
  }

  // ----- the calls

  predicate MayCall(m: Mailbox) {
    Free(m.k, m.rin) && Free(m.k, m.sin)
  }

  // A send or a receive that need not wait may come from any context, also from an interrupt whose
  // current thread is suspended or inside a call. Only a thread that runs can wait.
  predicate MaySend(m: Mailbox, timeout: int) {
    m.entry == m.size && timeout != 0 ==> MayCall(m)
  }

  predicate MayRecv(m: Mailbox, timeout: int) {
    m.entry == 0 && timeout != 0 ==> MayCall(m)
  }

  // A mail goes into the ring, and the first waiting receiver is resumed.
  ghost function PutF(m: Mailbox, mail: nat): (m': Mailbox)
    requires Inv(m.k) && RingOk(m) && m.entry < m.size
  {
    var m1 := m.(pool := m.pool[m.inOff := mail], inOff := Next(m.inOff, m.size), entry := m.entry + 1);
    if Queue(m.k, m.rlist) != [] then m1.(k := WakeF(m.k, m.rlist), rin := m.rin[Queue(m.k, m.rlist)[0] := true])
        else m1
  }

  // The oldest mail leaves the ring, and the first waiting sender is resumed.
  ghost function GetF(m: Mailbox): (r: (Mailbox, nat))
    requires Inv(m.k) && RingOk(m) && m.entry > 0
  {
    var mail := m.pool[m.outOff];
    var m1 := m.(outOff := Next(m.outOff, m.size), entry := m.entry - 1);
    (if Queue(m.k, m.slist) != [] then m1.(k := WakeF(m.k, m.slist), sin := m.sin[Queue(m.k, m.slist)[0] := true])
        else m1, mail)
  }

  // rt_mb_send_wait from the test of the loop on: the mail is put, the call is given up, or its thread
  // blocks.
  ghost function SendLoopF(m: Mailbox, mail: nat, timeout: int, now: int): (r: (Mailbox, Outcome))
    requires Inv(m.k) && RingOk(m)
  {
    if m.entry < m.size then (PutF(m, mail), Done(Ok))
    else if timeout == 0 then (m, Done(Full))
    else
      (m.(k := WaitF(m.k, m.slist, m.flag, timeout), sin := m.sin[m.k.current := false],
          locals := m.locals[m.k.current := Local(mail, timeout, now)]), Blocked)
  }

  // rt_mb_send_wait, when it is called.
  ghost function SendF(m: Mailbox, mail: nat, timeout: int, now: int): (r: (Mailbox, Outcome))
    requires Inv(m.k) && RingOk(m)
  {
    SendLoopF(m, mail, timeout, now)
  }

  // rt_mb_send_wait, when a thread that had blocked in it runs again.
  ghost function SendAgainF(m: Mailbox, now: int): (r: (Mailbox, Outcome))
    requires Inv(m.k) && RingOk(m) && m.k.current in m.locals
  {
    var t := m.k.current;
    var m1 := m.(sin := m.sin - {t});
    if m.k.threads[t].error != Ok then (m1, Done(m.k.threads[t].error))
    else SendLoopF(m1, m.locals[t].mail, Left(m.locals[t].timeout, m.locals[t].start, now), now)
  }

  // rt_mb_recv, likewise; the last result is the mail.
  ghost function RecvLoopF(m: Mailbox, timeout: int, now: int, again: bool): (r: (Mailbox, Outcome, nat))
    requires Inv(m.k) && RingOk(m)
  {
    if m.entry > 0 then (GetF(m).0, Done(Ok), GetF(m).1)
    else if timeout == 0 then (if again then m.(k := ErrorF(m.k, m.k.current, Timeout)) else m, Done(Timeout), 0)
    else
      (m.(k := WaitF(m.k, m.rlist, m.flag, timeout), rin := m.rin[m.k.current := false],
          locals := m.locals[m.k.current := Local(0, timeout, now)]), Blocked, 0)
  }

  ghost function RecvF(m: Mailbox, timeout: int, now: int): (r: (Mailbox, Outcome, nat))
    requires Inv(m.k) && RingOk(m)
  {
    RecvLoopF(m, timeout, now, false)
  }

  ghost function RecvAgainF(m: Mailbox, now: int): (r: (Mailbox, Outcome, nat))
    requires Inv(m.k) && RingOk(m) && m.k.current in m.locals
  {
    var t := m.k.current;
    var m1 := m.(rin := m.rin - {t});
    if m.k.threads[t].error != Ok then (m1, Done(m.k.threads[t].error), 0)
    else RecvLoopF(m1, Left(m.locals[t].timeout, m.locals[t].start, now), now, true)
  }

  // RT_IPC_CMD_RESET up to its rt_schedule.
  ghost function ResetF(m: Mailbox): (m': Mailbox)
    requires Inv(m.k)
  {
    WakeAllLaw(m.k, m.rlist);
    m.(k := WakeAllF(WakeAllF(m.k, m.rlist), m.slist), entry := 0, inOff := 0, outOff := 0)
  }

  // rt_thread_resume of a waiting thread, which will look again.
  ghost function ResumedF(m: Mailbox, t: nat): (m': Mailbox)
    requires Inv(m.k) && (t in Queue(m.k, m.rlist) || t in Queue(m.k, m.slist))
  {
    QueueLaw(m.k, m.rlist);
    QueueLaw(m.k, m.slist);
    Usable(m.k);
    var m1 := m.(k := ResumeF(m.k, t).0);
    if t in Queue(m.k, m.rlist) then m1.(rin := m.rin[t := true]) else m1.(sin := m.sin[t := true])
  }

  ghost function OtherF(m: Mailbox, c: Call): (m': Mailbox)
    requires Inv(m.k) && Legal(m.k, c)
  {
    m.(k := CallF(m.k, c), rin := After(m.rin, c), sin := After(m.sin, c))
  }

  // Nobody else touches the lists, and no thread is deleted that was resumed for a mail or a free
  // place and has not run since.
  ghost predicate Others(m: Mailbox, c: Call) {
    && Outside(m.k, m.rlist, m.rin, c) && Outside(m.k, m.slist, m.sin, c)
    && (c.Delete? ==> c.t !in Woken(m.rin) && c.t !in Woken(m.sin))
  }

  // ----- the invariant

  // While receivers wait, every mail is meant for a receiver that was resumed and has not run yet;
  // while senders wait, so is every free place for such a sender.
  ghost predicate NoLostWakeup(m: Mailbox) {
    && (Queue(m.k, m.rlist) != [] ==> m.entry <= |Woken(m.rin)|)
    && (Queue(m.k, m.slist) != [] ==> m.size - m.entry <= |Woken(m.sin)|)
  }

  ghost predicate Core(m: Mailbox) {
    && Inv(m.k) && m.rlist != m.slist && RingOk(m)
    && Account(m.k, m.rlist, m.rin) && Account(m.k, m.slist, m.sin)
    && m.rin.Keys !! m.sin.Keys
    && (forall t :: t in m.rin || t in m.sin ==> t in m.locals)
  }

  ghost predicate MailboxInv(m: Mailbox) {
    Core(m) && NoLostWakeup(m)
  }

  // ----- the ring refines a queue

  lemma PutRing(m: Mailbox, mail: nat)
    requires RingOk(m) && m.entry < m.size
    ensures var m1 := m.(pool := m.pool[m.inOff := mail], inOff := Next(m.inOff, m.size), entry := m.entry + 1);
            RingOk(m1) && Contents(m1) == Contents(m) + [mail]
  {
    var m1 := m.(pool := m.pool[m.inOff := mail], inOff := Next(m.inOff, m.size), entry := m.entry + 1);
    forall i | 0 <= i < m.entry + 1
      ensures Contents(m1)[i] == (Contents(m) + [mail])[i]
    {
      assert i < m.entry ==> Place(m.outOff, i, m.size) != m.inOff;
    }
  }

  lemma GetRing(m: Mailbox)
    requires RingOk(m) && m.entry > 0
    ensures var m1 := m.(outOff := Next(m.outOff, m.size), entry := m.entry - 1);
            RingOk(m1) && [m.pool[m.outOff]] + Contents(m1) == Contents(m)
  {
    var m1 := m.(outOff := Next(m.outOff, m.size), entry := m.entry - 1);
    assert m.inOff == Place(m1.outOff, m1.entry, m.size);
    forall i | 0 <= i < m.entry
      ensures Contents(m)[i] == ([m.pool[m.outOff]] + Contents(m1))[i]
    {
      if i > 0 { assert Place(m1.outOff, i - 1, m.size) == Place(m.outOff, i, m.size); }
    }
  }

  // ----- the parts of a step

  // The mail goes to the end of the line, and the first waiting receiver is made ready.
  ghost predicate HasPut(m: Mailbox, m': Mailbox, mail: nat)
    requires RingOk(m) && RingOk(m')
  {
    && Contents(m') == Contents(m) + [mail]
    && (if Queue(m.k, m.rlist) != [] then
          FirstResumed(m.k, m'.k, m.rlist) && m'.rin == m.rin[Queue(m.k, m.rlist)[0] := true]
        else m'.k == m.k && m'.rin == m.rin)
    && m' == m.(k := m'.k, pool := m'.pool, inOff := m'.inOff, entry := m'.entry, rin := m'.rin)
  }

  // The first mail of the line is taken, and the first waiting sender is made ready.
  ghost predicate HasGot(m: Mailbox, m': Mailbox, mail: nat)
    requires RingOk(m) && RingOk(m')
  {
    && Contents(m) == [mail] + Contents(m')
    && (if Queue(m.k, m.slist) != [] then
          FirstResumed(m.k, m'.k, m.slist) && m'.sin == m.sin[Queue(m.k, m.slist)[0] := true]
        else m'.k == m.k && m'.sin == m.sin)
    && m' == m.(k := m'.k, outOff := m'.outOff, entry := m'.entry, sin := m'.sin)
  }

  lemma PutCore(m: Mailbox, mail: nat)
    requires Core(m) && m.entry < m.size
    ensures var m', q := PutF(m, mail), Queue(m.k, m.rlist);
            && Core(m') && m'.entry == m.entry + 1 && HasPut(m, m', mail)
            && Queue(m'.k, m.slist) == Queue(m.k, m.slist)
            && |Woken(m'.rin)| == |Woken(m.rin)| + (if q == [] then 0 else 1)
            && (q == [] ==> Queue(m'.k, m.rlist) == [])
  {
    hide Inv, Queue, WakeF, Account, RingOk, Woken, FirstResumed;
    RingRange(m);
    PutRing(m, mail);
    if Queue(m.k, m.rlist) != [] {
      AccountWake(m.k, m.rlist, m.rin);
      WakeOther(m.k, m.rlist, m.rin, m.slist, m.sin);
      WokenAdd(m.rin, Queue(m.k, m.rlist)[0]);
      WakeIs(m.k, m.rlist);
    }
    ContentsOnly(PutF(m, mail), m.(pool := m.pool[m.inOff := mail], inOff := Next(m.inOff, m.size),
        entry := m.entry + 1));
  }

  lemma RingRange(m: Mailbox)
    requires RingOk(m)
    ensures |m.pool| == m.size && (m.entry < m.size ==> m.inOff < m.size) && (m.entry > 0 ==> m.outOff < m.size)
    ensures m.entry <= m.size
  {
  }

  // The ring depends on nothing else.
  lemma ContentsOnly(m: Mailbox, m1: Mailbox)
    requires RingOk(m1) && m.pool == m1.pool && m.inOff == m1.inOff && m.outOff == m1.outOff && m.entry == m1.entry
    requires m.size == m1.size
    ensures RingOk(m) && Contents(m) == Contents(m1)
  {
  }

  lemma GetCore(m: Mailbox)
    requires Core(m) && m.entry > 0
    ensures var (m', mail) := GetF(m);
            var q := Queue(m.k, m.slist);
            && Core(m') && m'.entry == m.entry - 1 && HasGot(m, m', mail)
            && Queue(m'.k, m.rlist) == Queue(m.k, m.rlist)
            && |Woken(m'.sin)| == |Woken(m.sin)| + (if q == [] then 0 else 1)
            && (q == [] ==> Queue(m'.k, m.slist) == [])
  {
    hide Inv, Queue, WakeF, Account, RingOk, Woken, FirstResumed;
    RingRange(m);
    GetRing(m);
    var m1 := m.(outOff := Next(m.outOff, m.size), entry := m.entry - 1);
    if Queue(m.k, m.slist) != [] {
      AccountWake(m.k, m.slist, m.sin);
      WakeOther(m.k, m.slist, m.sin, m.rlist, m.rin);
      WokenAdd(m.sin, Queue(m.k, m.slist)[0]);
      WakeIs(m.k, m.slist);
    }
    ContentsOnly(GetF(m).0, m1);
  }

  // ----- every step keeps the invariant

  lemma CoreParts(m: Mailbox)
    requires Core(m)
    ensures Inv(m.k) && RingOk(m) && m.k.current in m.k.threads && m.rlist != m.slist && m.entry <= m.size
    ensures Account(m.k, m.rlist, m.rin) && Account(m.k, m.slist, m.sin) && m.rin.Keys !! m.sin.Keys
    ensures forall t :: t in m.rin || t in m.sin ==> t in m.locals
  {
    Usable(m.k);
  }

  // `spare` is 1 for a thread that was itself resumed and so far counted among the resumed.
  ghost predicate SendersSafe(m: Mailbox, spare: nat) {
    Queue(m.k, m.slist) != [] ==> m.size - m.entry <= |Woken(m.sin)| + spare
  }

  ghost predicate ReceiversSafe(m: Mailbox, spare: nat) {
    Queue(m.k, m.rlist) != [] ==> m.entry <= |Woken(m.rin)| + spare
  }

  // What a send comes to, when it is called and when its thread runs again: it puts its mail, gives up
  // without a trace, or puts its thread on the list.
  ghost predicate SendDone(m: Mailbox, m': Mailbox, r: Outcome, mail: nat, timeout: int, now: int)
    requires RingOk(m) && RingOk(m')
  {
    if m.entry < m.size then r == Done(Ok) && HasPut(m, m', mail)
    else if timeout == 0 then r == Done(Full) && m' == m
    else
      && r == Blocked && HasBlocked(m.k, m'.k, m.slist, m.flag, timeout > 0) && Contents(m') == Contents(m)
      && m' == m.(k := m'.k, sin := m.sin[m.k.current := false],
                  locals := m.locals[m.k.current := Local(mail, timeout, now)])
  }

  lemma SendLoopInv(m: Mailbox, mail: nat, timeout: int, now: int)
    requires Core(m) && MaySend(m, timeout) && SendersSafe(m, 1) && ReceiversSafe(m, 0)
    requires m.entry == m.size ==> SendersSafe(m, 0)
    ensures var (m', r) := SendLoopF(m, mail, timeout, now);
            MailboxInv(m') && SendDone(m, m', r, mail, timeout, now)
  {
    hide Inv, Queue, Account, RingOk, Woken, PutF, WaitF, Contents, HasBlocked, FirstResumed;
    CoreParts(m);
    if m.entry < m.size {
      PutCore(m, mail);
    } else if timeout != 0 {
      WaitLaw(m.k, m.slist, m.flag, timeout, m.sin, m.rlist, m.rin);
      WaitIs(m.k, m.slist, m.flag, timeout);
      WokenWaits(m.sin, m.k.current);
      var m' := SendLoopF(m, mail, timeout, now).0;
      ContentsOnly(m', m);
    }
  }

  lemma SendInv(m: Mailbox, mail: nat, timeout: int, now: int)
    requires MailboxInv(m) && MaySend(m, timeout)
    ensures Inv(m.k) && RingOk(m) && RingOk(SendF(m, mail, timeout, now).0)
    ensures var (m', r) := SendF(m, mail, timeout, now);
            MailboxInv(m') && SendDone(m, m', r, mail, timeout, now)
  {
    hide Inv, Queue, Account, RingOk, Woken, SendLoopF, Contents, SendDone;
    CoreParts(m);
    SendLoopInv(m, mail, timeout, now);
  }

  // A sender that runs again returns with its error, or tries again with the mail it has kept and the time
  // that is left.
  lemma SendAgainInv(m: Mailbox, now: int)
    requires MailboxInv(m) && m.k.threads[m.k.current].stat == Running && m.k.current in m.sin
    ensures Inv(m.k) && RingOk(m) && m.k.current in m.locals && RingOk(SendAgainF(m, now).0)
    ensures var (m', r), t := SendAgainF(m, now), m.k.current;
            var e, l, m1 := m.k.threads[t].error, m.locals[t], m.(sin := m.sin - {t});
            && MailboxInv(m') && RingOk(m1) && Contents(m1) == Contents(m)
            && (if e != Ok then r == Done(e) && m' == m1
                else SendDone(m1, m', r, l.mail, Left(l.timeout, l.start, now), now))
  {
    hide Inv, Queue, Account, RingOk, Woken, SendLoopF, Contents, SendDone, Left;
    CoreParts(m);
    LeaveCall(m.k, m.slist, m.sin, m.rin);
    var t := m.k.current;
    var m1 := m.(sin := m.sin - {t});
    ContentsOnly(m1, m);
    if m.k.threads[t].error == Ok {
      SendLoopInv(m1, m.locals[t].mail, Left(m.locals[t].timeout, m.locals[t].start, now), now);
    }
  }

  // What a receive comes to.
  ghost predicate RecvDone(m: Mailbox, m': Mailbox, r: Outcome, mail: nat, timeout: int, now: int, again: bool)
    requires RingOk(m) && RingOk(m')
  {
    if m.entry > 0 then r == Done(Ok) && HasGot(m, m', mail)
    else if timeout == 0 then
      && r == Done(Timeout) && Contents(m') == Contents(m)
      && (if again then m' == m.(k := m'.k) && ErrorOnly(m.k, m'.k, m.k.current, Timeout) else m' == m)
    else
      && r == Blocked && HasBlocked(m.k, m'.k, m.rlist, m.flag, timeout > 0) && Contents(m') == Contents(m)
      && m' == m.(k := m'.k, rin := m.rin[m.k.current := false],
                  locals := m.locals[m.k.current := Local(0, timeout, now)])
  }

  lemma RecvLoopInv(m: Mailbox, timeout: int, now: int, again: bool)
    requires Core(m) && SendersSafe(m, 0) && ReceiversSafe(m, 1)
    requires m.entry == 0 && (timeout != 0 || again) ==> MayCall(m)
    requires m.entry == 0 ==> ReceiversSafe(m, 0)
    ensures var (m', r, mail) := RecvLoopF(m, timeout, now, again);
            MailboxInv(m') && RecvDone(m, m', r, mail, timeout, now, again)
  {
    hide Inv, Queue, Account, RingOk, Woken, GetF, WaitF, Contents, HasBlocked, FirstResumed;
    CoreParts(m);
    if m.entry > 0 {
      GetCore(m);
    } else if timeout == 0 && !again {
    } else if timeout == 0 {
      ErrorInv(m.k, m.k.current, Timeout);
      OwnError(m.k, m.rlist, m.rin, Timeout);
      OwnError(m.k, m.slist, m.sin, Timeout);
      ContentsOnly(RecvLoopF(m, timeout, now, again).0, m);
    } else {
      WaitLaw(m.k, m.rlist, m.flag, timeout, m.rin, m.slist, m.sin);
      WaitIs(m.k, m.rlist, m.flag, timeout);
      WokenWaits(m.rin, m.k.current);
      ContentsOnly(RecvLoopF(m, timeout, now, again).0, m);
    }
  }

  lemma RecvInv(m: Mailbox, timeout: int, now: int)
    requires MailboxInv(m) && MayRecv(m, timeout)
    ensures Inv(m.k) && RingOk(m) && RingOk(RecvF(m, timeout, now).0)
    ensures var (m', r, mail) := RecvF(m, timeout, now);
            MailboxInv(m') && RecvDone(m, m', r, mail, timeout, now, false)
  {
    hide Inv, Queue, Account, RingOk, Woken, RecvLoopF, Contents, RecvDone;
    CoreParts(m);
    RecvLoopInv(m, timeout, now, false);
  }

  // A receiver that runs again returns with its error, or looks again, with the time that is left.
  lemma RecvAgainInv(m: Mailbox, now: int)
    requires MailboxInv(m) && m.k.threads[m.k.current].stat == Running && m.k.current in m.rin
    ensures Inv(m.k) && RingOk(m) && m.k.current in m.locals && RingOk(RecvAgainF(m, now).0)
    ensures var (m', r, mail), t := RecvAgainF(m, now), m.k.current;
            var e, l, m1 := m.k.threads[t].error, m.locals[t], m.(rin := m.rin - {t});
            && MailboxInv(m') && RingOk(m1) && Contents(m1) == Contents(m)
            && (if e != Ok then r == Done(e) && m' == m1
                else RecvDone(m1, m', r, mail, Left(l.timeout, l.start, now), now, true))
  {
    hide Inv, Queue, Account, RingOk, Woken, RecvLoopF, Contents, RecvDone, Left;
    CoreParts(m);
    LeaveCall(m.k, m.rlist, m.rin, m.sin);
    var t := m.k.current;
    var m1 := m.(rin := m.rin - {t});
    ContentsOnly(m1, m);
    if m.k.threads[t].error == Ok {
      RecvLoopInv(m1, Left(m.locals[t].timeout, m.locals[t].start, now), now, true);
    }
  }

  // A reset sends all waiters away with an error, and throws away the mails.
  lemma ResetInv(m: Mailbox)
    requires MailboxInv(m)
    ensures var m' := ResetF(m);
            && MailboxInv(m') && RingOk(m') && Contents(m') == []
            && m' == m.(k := m'.k, entry := 0, inOff := 0, outOff := 0)
            && exists k1: K :: AllFailed(m.k, k1, m.rlist) && AllFailed(k1, m'.k, m.slist)
  {
    hide Inv, Queue, Account, WakeAllF, AllFailed;
    CoreParts(m);
    AccountWakeAll(m.k, m.rlist, m.rin);
    FailOther(m.k, m.rlist, m.rin, m.slist, m.sin);
    var k1 := WakeAllF(m.k, m.rlist);
    AccountWakeAll(k1, m.slist, m.sin);
    FailOther(k1, m.slist, m.sin, m.rlist, m.rin);
    WakeAllLaw(m.k, m.rlist);
    WakeAllLaw(k1, m.slist);
    assert Contents(ResetF(m)) == [];
  }

  lemma ResumedInv(m: Mailbox, t: nat)
    requires MailboxInv(m) && (t in Queue(m.k, m.rlist) || t in Queue(m.k, m.slist))
    ensures Inv(m.k) && MailboxInv(ResumedF(m, t)) && RingOk(m) && RingOk(ResumedF(m, t))
    ensures Contents(ResumedF(m, t)) == Contents(m) && ResumedF(m, t).locals == m.locals
    ensures ResumedF(m, t).rin.Keys == m.rin.Keys && ResumedF(m, t).sin.Keys == m.sin.Keys
  {
    hide Inv, Queue, Account, ResumeF, RingOk, Woken, Contents;
    CoreParts(m);
    if t in Queue(m.k, m.rlist) {
      AccountResume(m.k, m.rlist, m.rin, t);
      ResumeOther(m.k, m.rlist, m.rin, t, m.slist, m.sin);
      WokenAdd(m.rin, t);
    } else {
      AccountResume(m.k, m.slist, m.sin, t);
      ResumeOther(m.k, m.slist, m.sin, t, m.rlist, m.rin);
      WokenAdd(m.sin, t);
    }
    ContentsOnly(ResumedF(m, t), m);
    StillEmpty(Queue(m.k, m.rlist), Queue(ResumedF(m, t).k, m.rlist));
    StillEmpty(Queue(m.k, m.slist), Queue(ResumedF(m, t).k, m.slist));
  }

  lemma StillEmpty(q: seq<nat>, q': seq<nat>)
    requires forall u :: u in q' ==> u in q
    ensures q == [] ==> q' == []
  {
    if q' != [] { assert q'[0] in q'; }
  }

  lemma OtherInv(m: Mailbox, c: Call)
    requires MailboxInv(m) && Others(m, c)
    ensures Inv(m.k) && Legal(m.k, c) && MailboxInv(OtherF(m, c))
    ensures RingOk(m) && RingOk(OtherF(m, c)) && Contents(OtherF(m, c)) == Contents(m)
    ensures OtherF(m, c) == m.(k := CallF(m.k, c), rin := After(m.rin, c), sin := After(m.sin, c))
  {
    hide Inv, Queue, Account, CallF, RingOk, Woken, Contents, Outside;
    CoreParts(m);
    OutsideLegal(m.k, m.rlist, m.rin, c);
    OutsideQueue(m.k, m.rlist, m.rin, c);
    OutsideQueue(m.k, m.slist, m.sin, c);
    AccountCall(m.k, m.rlist, m.rin, c);
    AccountCall(m.k, m.slist, m.sin, c);
    ContentsOnly(OtherF(m, c), m);
    if c.Delete? {
      WokenDrop(m.rin, c.t);
      WokenDrop(m.sin, c.t);
    }
  }

  // ----- interrupts in the middle of a call

  // A receiver has put itself on the list and still has the processor: a mail that an interrupt sends
  // there wakes it, if nobody waited before it.
  lemma SentBeforeSwitch(m: Mailbox, timeout: int, now: int, mail: nat)
    requires MailboxInv(m) && MayRecv(m, timeout) && m.entry == 0 && timeout != 0 && m.size > 0
    requires Queue(m.k, m.rlist) == []
    ensures Inv(m.k) && RingOk(m)
    ensures var m1 := RecvF(m, timeout, now).0;
            && MailboxInv(m1) && MaySend(m1, 0) && !MayCall(m1)
            && var m2 := SendF(m1, mail, 0, now).0;
               && MailboxInv(m2) && m2.k.current == m.k.current && m2.k.current in Woken(m2.rin)
               && m2.k.threads[m2.k.current].stat == Running && Queue(m2.k, m2.rlist) == []
  {
    hide Inv, Account, RingOk, Contents, WaitF, WakeF, Queue;
    RecvInv(m, timeout, now);
    var m1 := RecvF(m, timeout, now).0;
    CoreParts(m);
    CoreParts(m1);
    SendInv(m1, mail, 0, now);
    AloneOnList(m.k, m.rlist, m.flag, timeout);
    WakeLaw(m1.k, m1.rlist);
    AccountWake(m1.k, m1.rlist, m1.rin);
  }

  lemma AloneOnList(k: K, w: nat, flag: Flag, timeout: int)
    requires Inv(k) && k.threads[k.current].stat == Running && Queue(k, w) == []
    ensures Queue(WaitF(k, w, flag, timeout), w) == [k.current] && WaitF(k, w, flag, timeout).current == k.current
  {
    var k1 := ErrorF(k, k.current, Ok);
    ErrorInv(k, k.current, Ok);
    BlockQueue(k1, w, flag, timeout > 0);
    hide Inv, Queue, BlockF;
  }

  // ----- where the program does not keep it

  // A sender that goes on after blocking keeps the mailbox in order exactly if it has left the list.
  lemma SendAgainExact(m: Mailbox, now: int)
    requires MailboxInv(m) && m.k.current in m.sin
    requires m.k.threads[m.k.current].stat == Running || m.k.current in Queue(m.k, m.slist)
    ensures Inv(m.k) && RingOk(m) && m.k.current in m.locals
    ensures MailboxInv(SendAgainF(m, now).0) <==> m.k.current !in Queue(m.k, m.slist)
  {
    hide Inv, Queue, RingOk, Contents, WakeF, WaitF, Woken, Left;
    CoreParts(m);
    QueueLaw(m.k, m.slist);
    if m.k.current !in Queue(m.k, m.slist) {
      SendAgainInv(m, now);
    } else {
      WaitedTwice(m.k, m.slist, m.flag);
      if Queue(m.k, m.rlist) != [] { OtherServed(m.k, m.rlist, m.slist); }
      assert m.k.threads[m.k.current].error == Ok;
    }
  }

  // Serving another list leaves this one alone.
  lemma OtherServed(k: K, v: nat, w: nat)
    requires Inv(k) && v != w && Queue(k, v) != []
    ensures Queue(WakeF(k, v), w) == Queue(k, w)
  {
    WakeLaw(k, v);
  }

  lemma RecvAgainExact(m: Mailbox, now: int)
    requires MailboxInv(m) && m.k.current in m.rin
    requires m.k.threads[m.k.current].stat == Running || m.k.current in Queue(m.k, m.rlist)
    ensures Inv(m.k) && RingOk(m) && m.k.current in m.locals
    ensures MailboxInv(RecvAgainF(m, now).0) <==> m.k.current !in Queue(m.k, m.rlist)
  {
    hide Inv, Queue, RingOk, Contents, WakeF, WaitF, Woken, Left;
    CoreParts(m);
    QueueLaw(m.k, m.rlist);
    if m.k.current !in Queue(m.k, m.rlist) {
      RecvAgainInv(m, now);
    } else {
      WaitedTwice(m.k, m.rlist, m.flag);
      if Queue(m.k, m.slist) != [] { OtherServed(m.k, m.slist, m.rlist); }
      ErrorInv(m.k, m.k.current, Timeout);
      assert m.k.threads[m.k.current].error == Ok;
    }
  }

  // A send that blocks goes on at once, while it is on the list, exactly if the scheduler is locked or
  // no other thread is ready; whatever it does then leaves the mailbox broken.
  lemma SendUnderLock(m: Mailbox, mail: nat, timeout: int, now: int, later: int)
    requires MailboxInv(m) && MayCall(m) && m.entry == m.size && timeout != 0
    ensures Inv(m.k) && RingOk(m) && Inv(SendF(m, mail, timeout, now).0.k)
    ensures var t, m2 := m.k.current, OtherF(SendF(m, mail, timeout, now).0, Call.Schedule);
            && (m2.k.current == t <==> m.k.lock != 0 || !AnyReady(m.k))
            && (m2.k.current == t ==>
                  && Inv(m2.k) && RingOk(m2) && t in m2.locals && t in Queue(m2.k, m2.slist)
                  && !MailboxInv(SendAgainF(m2, later).0))
  {
    hide Inv, Queue, RingOk, Account, WaitF, CallF, Contents, SendAgainF, NoLostWakeup;
    CoreParts(m);
    SendInv(m, mail, timeout, now);
    var m1 := SendF(m, mail, timeout, now).0;
    CoreParts(m1);
    WaitGoesOn(m.k, m.slist, m.flag, timeout);
    if CallF(m1.k, Call.Schedule).current == m.k.current { SendAgainExact(m1, later); }
  }

  lemma RecvUnderLock(m: Mailbox, timeout: int, now: int, later: int)
    requires MailboxInv(m) && MayCall(m) && m.entry == 0 && timeout != 0
    ensures Inv(m.k) && RingOk(m) && Inv(RecvF(m, timeout, now).0.k)
    ensures var t, m2 := m.k.current, OtherF(RecvF(m, timeout, now).0, Call.Schedule);
            && (m2.k.current == t <==> m.k.lock != 0 || !AnyReady(m.k))
            && (m2.k.current == t ==>
                  && Inv(m2.k) && RingOk(m2) && t in m2.locals && t in Queue(m2.k, m2.rlist)
                  && !MailboxInv(RecvAgainF(m2, later).0))
  {
    hide Inv, Queue, RingOk, Account, WaitF, CallF, Contents, RecvAgainF, NoLostWakeup;
    CoreParts(m);
    RecvInv(m, timeout, now);
    var m1 := RecvF(m, timeout, now).0;
    CoreParts(m1);
    WaitGoesOn(m.k, m.rlist, m.flag, timeout);
    if CallF(m1.k, Call.Schedule).current == m.k.current { RecvAgainExact(m1, later); }
  }

  // ----- runs

  datatype Step =
    | Send(mail: nat, timeout: int, now: int) | SendAgain(now: int)
    | Recv(timeout: int, now: int) | RecvAgain(now: int)
    | Reset | Resumed(t: nat) | Other(call: Call)

  ghost predicate Allowed(m: Mailbox, step: Step)
    requires Inv(m.k)
  {
    match step
    case Send(_, timeout, _) => MaySend(m, timeout)
    case SendAgain(_) => m.k.threads[m.k.current].stat == Running && m.k.current in m.sin
    case Recv(timeout, _) => MayRecv(m, timeout)
    case RecvAgain(_) => m.k.threads[m.k.current].stat == Running && m.k.current in m.rin
    case Reset => true
    case Resumed(t) => t in Queue(m.k, m.rlist) || t in Queue(m.k, m.slist)
    case Other(c) => Others(m, c)
  }

  ghost function StepF(m: Mailbox, step: Step): (m': Mailbox)
    requires MailboxInv(m) && Allowed(m, step)
  {
    match step
    case Send(mail, timeout, now) => SendF(m, mail, timeout, now).0
    case SendAgain(now) => SendAgainF(m, now).0
    case Recv(timeout, now) => RecvF(m, timeout, now).0
    case RecvAgain(now) => RecvAgainF(m, now).0
    case Reset => ResetF(m)
    case Resumed(t) => ResumedF(m, t)
    case Other(c) => OtherF(m, c)
  }

  lemma StepInv(m: Mailbox, step: Step)
    requires MailboxInv(m) && Allowed(m, step)
    ensures MailboxInv(StepF(m, step))
  {
    hide Core, NoLostWakeup, SendF, SendAgainF, RecvF, RecvAgainF, ResetF, OtherF, Inv;
    CoreParts(m);
    match step
    case Send(mail, timeout, now) => SendInv(m, mail, timeout, now);
    case SendAgain(now) => SendAgainInv(m, now);
    case Recv(timeout, now) => RecvInv(m, timeout, now);
    case RecvAgain(now) => RecvAgainInv(m, now);
    case Reset => ResetInv(m);
    case Resumed(t) => ResumedInv(m, t);
    case Other(c) => OtherInv(m, c);
  }

  ghost predicate AllowedRun(m: Mailbox, steps: seq<Step>)
    requires MailboxInv(m)
    decreases |steps|
  {
    steps == []
    || (Allowed(m, steps[0]) && (StepInv(m, steps[0]); AllowedRun(StepF(m, steps[0]), steps[1..])))
  }

  ghost function Run(m: Mailbox, steps: seq<Step>): (m': Mailbox)
    requires MailboxInv(m) && AllowedRun(m, steps)
    ensures MailboxInv(m')
    decreases |steps|
  {
    if steps == [] then m else StepInv(m, steps[0]); Run(StepF(m, steps[0]), steps[1..])
  }

  // What a step does to the line of mails, as its caller sees it: the mail a send reports as sent is the
  // one that its call was made with, the mail a receive hands out is its result. `calls` holds what the
  // calls that have blocked were made with, and the time they have left.
  datatype Op = Put(mail: nat) | Got(mail: nat) | Clear | Stay

  ghost function OpOf(m: Mailbox, step: Step, calls: map<nat, Local>): Op
    requires MailboxInv(m) && Allowed(m, step)
  {
    var t := m.k.current;
    CoreParts(m);
    match step
    case Send(mail, timeout, now) => if SendF(m, mail, timeout, now).1 == Done(Ok) then Put(mail) else Stay
    case SendAgain(now) => if SendAgainF(m, now).1 == Done(Ok) && t in calls then Put(calls[t].mail) else Stay
    case Recv(timeout, now) =>
      if RecvF(m, timeout, now).1 == Done(Ok) then Got(RecvF(m, timeout, now).2) else Stay
    case RecvAgain(now) => if RecvAgainF(m, now).1 == Done(Ok) then Got(RecvAgainF(m, now).2) else Stay
    case Reset => Clear
    case _ => Stay
  }

  ghost function CallsAfter(m: Mailbox, step: Step, calls: map<nat, Local>): map<nat, Local>
    requires MailboxInv(m) && Allowed(m, step)
  {
    var t := m.k.current;
    CoreParts(m);
    match step
    case Send(mail, timeout, now) =>
      if SendF(m, mail, timeout, now).1 == Blocked then calls[t := Local(mail, timeout, now)] else calls
    case SendAgain(now) =>
      if SendAgainF(m, now).1 == Blocked && t in calls then calls[t := Later(calls[t], now)] else calls
    case Recv(timeout, now) =>
      if RecvF(m, timeout, now).1 == Blocked then calls[t := Local(0, timeout, now)] else calls
    case RecvAgain(now) =>
      if RecvAgainF(m, now).1 == Blocked && t in calls then calls[t := Later(calls[t], now)] else calls
    case _ => calls
  }

  // The same call, when it waits again from `now` on.
  function Later(l: Local, now: int): Local {
    Local(l.mail, Left(l.timeout, l.start, now), now)
  }

  // The program keeps of each call what it was made with.
  ghost predicate Agrees(m: Mailbox, calls: map<nat, Local>) {
    && (forall t :: t in m.rin || t in m.sin ==> t in calls && t in m.locals && m.locals[t] == calls[t])
    && (forall t :: t in m.rin && t in calls ==> calls[t].mail == 0)
  }

  function Play(line: seq<nat>, op: Op): Option<seq<nat>> {
    match op
    case Put(x) => Some(line + [x])
    case Got(x) => if line != [] && line[0] == x then Some(line[1..]) else None
    case Clear => Some([])
    case Stay => Some(line)
  }

  // Each step is one of a first-in, first-out queue.
  lemma StepPlays(m: Mailbox, step: Step, calls: map<nat, Local>)
    requires MailboxInv(m) && Allowed(m, step) && Agrees(m, calls)
    ensures RingOk(m) && RingOk(StepF(m, step))
    ensures Play(Contents(m), OpOf(m, step, calls)) == Some(Contents(StepF(m, step)))
    ensures Agrees(StepF(m, step), CallsAfter(m, step, calls))
  {
    if step.Send? {
      SendPlays(m, step, calls);
    } else if step.SendAgain? {
      SendAgainPlays(m, step, calls);
    } else if step.Recv? {
      RecvPlays(m, step, calls);
    } else if step.RecvAgain? {
      RecvAgainPlays(m, step, calls);
    } else {
      OthersPlay(m, step, calls);
    }
  }

  // What a send means to the line and to the calls.
  lemma SendMeans(m: Mailbox, m': Mailbox, r: Outcome, mail: nat, timeout: int, now: int, calls: map<nat, Local>)
    requires RingOk(m) && RingOk(m') && SendDone(m, m', r, mail, timeout, now) && Agrees(m, calls)
    requires Queue(m.k, m.rlist) != [] ==> Queue(m.k, m.rlist)[0] in m.rin
    requires m.entry == m.size && timeout != 0 ==> m.k.current !in m.rin
    requires m.entry <= m.size
    ensures Contents(m') == if r == Done(Ok) then Contents(m) + [mail] else Contents(m)
    ensures Agrees(m', if r == Blocked then calls[m.k.current := Local(mail, timeout, now)] else calls)
  {
    hide RingOk, Contents, HasBlocked, FirstResumed, Queue;
  }

  lemma RecvMeans(m: Mailbox, m': Mailbox, r: Outcome, mail: nat, timeout: int, now: int, again: bool,
                  calls: map<nat, Local>)
    requires RingOk(m) && RingOk(m') && RecvDone(m, m', r, mail, timeout, now, again) && Agrees(m, calls)
    requires Queue(m.k, m.slist) != [] ==> Queue(m.k, m.slist)[0] in m.sin
    ensures r == Done(Ok) ==> Contents(m) == [mail] + Contents(m')
    ensures r != Done(Ok) ==> Contents(m') == Contents(m)
    ensures Agrees(m', if r == Blocked then calls[m.k.current := Local(0, timeout, now)] else calls)
  {
    hide RingOk, Contents, HasBlocked, FirstResumed, Queue, ErrorOnly;
  }

  // The thread that runs again is no longer inside.
  lemma LeftAgrees(m: Mailbox, m1: Mailbox, calls: map<nat, Local>)
    requires Agrees(m, calls) && m1 == m.(rin := m1.rin, sin := m1.sin)
    requires m1.rin.Keys <= m.rin.Keys && m1.sin.Keys <= m.sin.Keys
    ensures Agrees(m1, calls)
  {
  }

  lemma SendPlays(m: Mailbox, step: Step, calls: map<nat, Local>)
    requires MailboxInv(m) && Allowed(m, step) && Agrees(m, calls) && step.Send?
    ensures RingOk(m) && RingOk(StepF(m, step))
    ensures Play(Contents(m), OpOf(m, step, calls)) == Some(Contents(StepF(m, step)))
    ensures Agrees(StepF(m, step), CallsAfter(m, step, calls))
  {
    hide Core, NoLostWakeup, SendF, Inv, RingOk, Contents, SendDone, Agrees, Queue, Account;
    CoreParts(m);
    MarkedInside(m, m.rlist, m.rin);
    SendInv(m, step.mail, step.timeout, step.now);
    var (m', r) := SendF(m, step.mail, step.timeout, step.now);
    SendMeans(m, m', r, step.mail, step.timeout, step.now, calls);
  }

  lemma SendAgainPlays(m: Mailbox, step: Step, calls: map<nat, Local>)
    requires MailboxInv(m) && Allowed(m, step) && Agrees(m, calls) && step.SendAgain?
    ensures RingOk(m) && RingOk(StepF(m, step))
    ensures Play(Contents(m), OpOf(m, step, calls)) == Some(Contents(StepF(m, step)))
    ensures Agrees(StepF(m, step), CallsAfter(m, step, calls))
  {
    hide Core, NoLostWakeup, SendAgainF, Inv, RingOk, Contents, SendDone, Agrees, Queue, Account, Left;
    CoreParts(m);
    MarkedInside(m, m.rlist, m.rin);
    SendAgainInv(m, step.now);
    KeptCall(m, calls, m.k.current);
    var t := m.k.current;
    var (m', r) := SendAgainF(m, step.now);
    var l, m1 := m.locals[t], m.(sin := m.sin - {t});
    LeftAgrees(m, m1, calls);
    if m.k.threads[t].error == Ok {
      SendMeans(m1, m', r, l.mail, Left(l.timeout, l.start, step.now), step.now, calls);
    }
  }

  lemma KeptCall(m: Mailbox, calls: map<nat, Local>, t: nat)
    requires Agrees(m, calls) && (t in m.rin || t in m.sin)
    ensures t in calls && t in m.locals && calls[t] == m.locals[t] && (t in m.rin ==> calls[t].mail == 0)
  {
  }

  lemma RecvPlays(m: Mailbox, step: Step, calls: map<nat, Local>)
    requires MailboxInv(m) && Allowed(m, step) && Agrees(m, calls) && step.Recv?
    ensures RingOk(m) && RingOk(StepF(m, step))
    ensures Play(Contents(m), OpOf(m, step, calls)) == Some(Contents(StepF(m, step)))
    ensures Agrees(StepF(m, step), CallsAfter(m, step, calls))
  {
    hide Core, NoLostWakeup, RecvF, Inv, RingOk, Contents, RecvDone, Agrees, Queue, Account;
    CoreParts(m);
    MarkedInside(m, m.slist, m.sin);
    RecvInv(m, step.timeout, step.now);
    var (m', r, mail) := RecvF(m, step.timeout, step.now);
    RecvMeans(m, m', r, mail, step.timeout, step.now, false, calls);
  }

  lemma RecvAgainPlays(m: Mailbox, step: Step, calls: map<nat, Local>)
    requires MailboxInv(m) && Allowed(m, step) && Agrees(m, calls) && step.RecvAgain?
    ensures RingOk(m) && RingOk(StepF(m, step))
    ensures Play(Contents(m), OpOf(m, step, calls)) == Some(Contents(StepF(m, step)))
    ensures Agrees(StepF(m, step), CallsAfter(m, step, calls))
  {
    hide Core, NoLostWakeup, RecvAgainF, Inv, RingOk, Contents, RecvDone, Agrees, Queue, Account, Left;
    CoreParts(m);
    MarkedInside(m, m.slist, m.sin);
    RecvAgainInv(m, step.now);
    KeptCall(m, calls, m.k.current);
    var t := m.k.current;
    var (m', r, mail) := RecvAgainF(m, step.now);
    var l, m1 := m.locals[t], m.(rin := m.rin - {t});
    LeftAgrees(m, m1, calls);
    if m.k.threads[t].error == Ok {
      RecvMeans(m1, m', r, mail, Left(l.timeout, l.start, step.now), step.now, true, calls);
    }
  }

  lemma OthersPlay(m: Mailbox, step: Step, calls: map<nat, Local>)
    requires MailboxInv(m) && Allowed(m, step) && Agrees(m, calls) && (step.Reset? || step.Resumed? || step.Other?)
    ensures RingOk(m) && RingOk(StepF(m, step))
    ensures Play(Contents(m), OpOf(m, step, calls)) == Some(Contents(StepF(m, step)))
    ensures Agrees(StepF(m, step), CallsAfter(m, step, calls))
  {
    hide Core, NoLostWakeup, ResetF, OtherF, ResumedF, Inv, RingOk, Contents, Queue, AllFailed, CallF;
    CoreParts(m);
    match step
    case Reset => ResetInv(m);
    case Resumed(t) => ResumedInv(m, t);
    case Other(c) => OtherInv(m, c);
  }

  // Marking a waiter makes nobody else a caller.
  lemma MarkedInside(m: Mailbox, w: nat, inside: map<nat, bool>)
    requires Account(m.k, w, inside)
    ensures Queue(m.k, w) != [] ==> Queue(m.k, w)[0] in inside
  {
    hide Queue;
    if Queue(m.k, w) != [] { assert Queue(m.k, w)[0] in Queue(m.k, w); }
  }

  ghost function Ops(m: Mailbox, steps: seq<Step>, calls: map<nat, Local>): seq<Op>
    requires MailboxInv(m) && AllowedRun(m, steps)
    decreases |steps|
  {
    if steps == [] then []
    else
      StepInv(m, steps[0]);
      [OpOf(m, steps[0], calls)] + Ops(StepF(m, steps[0]), steps[1..], CallsAfter(m, steps[0], calls))
  }

  ghost function AllCalls(m: Mailbox, steps: seq<Step>, calls: map<nat, Local>): map<nat, Local>
    requires MailboxInv(m) && AllowedRun(m, steps)
    decreases |steps|
  {
    if steps == [] then calls
    else
      StepInv(m, steps[0]);
      AllCalls(StepF(m, steps[0]), steps[1..], CallsAfter(m, steps[0], calls))
  }

  function PlayAll(line: seq<nat>, ops: seq<Op>): Option<seq<nat>>
    decreases |ops|
  {
    if ops == [] then Some(line)
    else match Play(line, ops[0])
      case None => None
      case Some(next) => PlayAll(next, ops[1..])
  }

  // Every run is one of a first-in, first-out queue: the mails handed out are those the senders called
  // with, in the order in which they were sent, none lost and none doubled; and every call that waits keeps
  // its mail and its time.
  lemma {:induction false} RunPlays(m: Mailbox, steps: seq<Step>, calls: map<nat, Local>)
    requires MailboxInv(m) && AllowedRun(m, steps) && Agrees(m, calls)
    ensures RingOk(m) && RingOk(Run(m, steps))
    ensures PlayAll(Contents(m), Ops(m, steps, calls)) == Some(Contents(Run(m, steps)))
    ensures Agrees(Run(m, steps), AllCalls(m, steps, calls))
    decreases |steps|
  {
    hide MailboxInv, StepF, Allowed, OpOf, CallsAfter, Agrees, RingOk, Contents, Play;
    if steps == [] {
      RingParts(m);
    } else {
      StepInv(m, steps[0]);
      StepPlays(m, steps[0], calls);
      var m1, calls1 := StepF(m, steps[0]), CallsAfter(m, steps[0], calls);
      RunPlays(m1, steps[1..], calls1);
      assert Ops(m, steps, calls)[1..] == Ops(m1, steps[1..], calls1);
    }
  }

  lemma RingParts(m: Mailbox)
    requires MailboxInv(m)
    ensures RingOk(m)
  {
  }

  // In every reachable state no thread waits for a mail or a place that nobody else was resumed for.
  lemma RunLaw(m: Mailbox, steps: seq<Step>)
    requires MailboxInv(m) && AllowedRun(m, steps)
    ensures var m' := Run(m, steps);
            && RingOk(m')
            && (Queue(m'.k, m'.rlist) != [] ==> m'.entry <= |Woken(m'.rin)|)
            && (Queue(m'.k, m'.slist) != [] ==> m'.size - m'.entry <= |Woken(m'.sin)|)
            && (Queue(m'.k, m'.rlist) != [] && Woken(m'.rin) == {} ==> m'.entry == 0)
            && (Queue(m'.k, m'.slist) != [] && Woken(m'.sin) == {} ==> m'.entry == m'.size)
  {
    hide Inv, Account, Queue, StepF, Allowed;
    var m' := Run(m, steps);
    CoreParts(m');
  }

  // Deleting a receiver that was resumed for a mail and has not run keeps the promise exactly if no
  // receiver waits or the mails left are still meant for others.
  lemma DeleteResumed(m: Mailbox, t: nat)
    requires MailboxInv(m) && t in Woken(m.rin)
    requires Outside(m.k, m.rlist, m.rin, Call.Delete(t)) && Outside(m.k, m.slist, m.sin, Call.Delete(t))
    ensures Inv(m.k) && Legal(m.k, Call.Delete(t))
    ensures MailboxInv(OtherF(m, Call.Delete(t))) <==> Queue(m.k, m.rlist) == [] || m.entry < |Woken(m.rin)|
  {
    hide Inv, Queue, Account, CallF, RingOk, Contents, Outside;
    CoreParts(m);
    DeleteCore(m, t);
    StillWaiting(m.k, m.rlist, m.rin, t);
  }

  // Likewise a sender that was resumed for a free place.
  lemma DeleteResumedSender(m: Mailbox, t: nat)
    requires MailboxInv(m) && t in Woken(m.sin)
    requires Outside(m.k, m.rlist, m.rin, Call.Delete(t)) && Outside(m.k, m.slist, m.sin, Call.Delete(t))
    ensures Inv(m.k) && Legal(m.k, Call.Delete(t))
    ensures MailboxInv(OtherF(m, Call.Delete(t))) <==> Queue(m.k, m.slist) == [] || m.size - m.entry < |Woken(m.sin)|
  {
    hide Inv, Queue, Account, CallF, RingOk, Contents, Outside;
    CoreParts(m);
    DeleteCore(m, t);
    StillWaiting(m.k, m.slist, m.sin, t);
  }

  lemma DeleteCore(m: Mailbox, t: nat)
    requires Core(m) && Outside(m.k, m.rlist, m.rin, Call.Delete(t)) && Outside(m.k, m.slist, m.sin, Call.Delete(t))
    ensures var c := Call.Delete(t);
            && Inv(m.k) && Legal(m.k, c) && Core(OtherF(m, c))
            && |Woken(m.rin - {t})| == |Woken(m.rin)| - (if t in Woken(m.rin) then 1 else 0)
            && |Woken(m.sin - {t})| == |Woken(m.sin)| - (if t in Woken(m.sin) then 1 else 0)
            && (Queue(m.k, m.rlist) == [] ==> Queue(CallF(m.k, c), m.rlist) == [])
            && (Queue(m.k, m.slist) == [] ==> Queue(CallF(m.k, c), m.slist) == [])
  {
    var c := Call.Delete(t);
    hide Inv, Queue, Account, CallF, RingOk, Contents, Outside, Woken;
    CoreParts(m);
    OutsideLegal(m.k, m.rlist, m.rin, c);
    OutsideQueue(m.k, m.rlist, m.rin, c);
    OutsideQueue(m.k, m.slist, m.sin, c);
    AccountCall(m.k, m.rlist, m.rin, c);
    AccountCall(m.k, m.slist, m.sin, c);
    ContentsOnly(OtherF(m, c), m);
    WokenDrop(m.rin, t);
    WokenDrop(m.sin, t);
  }
}
