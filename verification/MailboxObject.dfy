// rt_mb_send_wait, rt_mb_recv and rt_mb_control of ipc.c. A call that blocks is split where its thread
// gives up the processor: `Send` and `Recv` run up to there, `SendAgain` and `RecvAgain` go on.
module MailboxObject {
  import opened Wrappers
  import opened WaitQueue
  import opened Threads
  import opened ThreadLaws
  import opened Waits
  import opened Callers
  import opened Mailboxes
  import opened IpcLists
  import S = Scheduler

  class MailboxObject {
    const sched: S.Scheduler
    const rlist: nat                 // parent.suspend_thread
    const slist: nat                 // suspend_sender_thread
    const flag: Flag
    const pool: array<nat>           // msg_pool
    var inOff: nat
    var outOff: nat
    var entry: nat
    var locals: map<nat, Local>      // local variables of the calls that have blocked
    ghost var rin: map<nat, bool>
    ghost var sin: map<nat, bool>

    ghost function View(): Mailbox
      reads this, sched, pool
    {
      Mailbox(sched.View(), rlist, slist, flag, pool.Length, pool[..], inOff, outOff, entry, rin, sin, locals)
    }

    ghost predicate Valid()
      reads this, sched, pool
    {
      sched.Valid() && MailboxInv(View())
    }

    // rt_mb_init on two suspend lists nobody waits on
    constructor (sched: S.Scheduler, rlist: nat, slist: nat, flag: Flag, pool: array<nat>)
      requires sched.Valid() && rlist != slist && Queue(sched.View(), rlist) == [] && Queue(sched.View(), slist) == []
      ensures Valid() && this.sched == sched && this.pool == pool
      ensures View() == Mailbox(sched.View(), rlist, slist, flag, pool.Length, pool[..], 0, 0, 0, map[], map[], map[])
    {
      this.sched, this.rlist, this.slist, this.flag, this.pool := sched, rlist, slist, flag, pool;
      inOff, outOff, entry := 0, 0, 0;
      locals, rin, sin := map[], map[], map[];
    }

    static ghost function Scheduled(m: Mailbox): Mailbox
      requires Inv(m.k)
    {
      OtherF(m, Call.Schedule)
    }

    // The program calls rt_schedule.
    method Reschedule()
      requires Valid()
      modifies sched
      ensures Inv(old(sched.View())) && Valid() && View() == Scheduled(old(View()))
    {
      hide Inv, Core, NoLostWakeup, S.LinksFor, S.BitsFor, S.MasksFor, ScheduleF;
      ScheduledInv(View());
      sched.Schedule();
    }

    static lemma ScheduledInv(m: Mailbox)
      requires MailboxInv(m)
      ensures Inv(m.k) && MailboxInv(Scheduled(m))
      ensures Scheduled(m) == m.(k := ScheduleF(m.k))
    {
      hide Inv, Core, NoLostWakeup;
      ScheduleOutside(m);
      OtherInv(m, Call.Schedule);
    }

    static lemma ScheduleOutside(m: Mailbox)
      requires MailboxInv(m)
      ensures Others(m, Call.Schedule)
    {
    }

    static lemma Parts(m: Mailbox)
      requires MailboxInv(m)
      ensures Inv(m.k) && RingOk(m) && Core(m)
    {
    }

    // ipc.c: from `set ptr` to the end of rt_mb_send_wait
    method Put(mail: nat)
      requires sched.Valid() && Inv(sched.View()) && RingOk(View()) && entry < pool.Length
      requires MailboxInv(PutF(View(), mail))
      modifies this`inOff, this`entry, this`rin, sched, pool
      ensures Inv(old(sched.View())) && RingOk(old(View())) && Inv(PutF(old(View()), mail).k) && Valid()
      ensures View() == if Queue(old(sched.View()), rlist) != [] then Scheduled(PutF(old(View()), mail))
              else PutF(old(View()), mail)
    {
      hide Inv, MailboxInv, S.LinksFor, S.BitsFor, S.MasksFor, WakeF, Queue, Scheduled;
      Parts(PutF(View(), mail));
      Store(mail);
      var empty := IsEmpty(sched, rlist);
      if !empty {
        rin := rin[Queue(sched.View(), rlist)[0] := true];
        ListResume(sched, rlist);
        Reschedule();
      }
    }

    // The three statements on the ring.
    method Store(mail: nat)
      requires sched.Valid() && RingOk(View()) && entry < pool.Length
      modifies this`inOff, this`entry, pool
      ensures sched.Valid() && sched.View() == old(sched.View()) && inOff == Next(old(inOff), pool.Length)
      ensures entry == old(entry) + 1
      ensures pool[..] == old(pool[..])[old(inOff) := mail]
    {
      hide Inv, S.LinksFor, S.BitsFor, S.MasksFor;
      pool[inOff] := mail;
      inOff := inOff + 1;
      if inOff >= pool.Length { inOff := 0; }
      entry := entry + 1;
    }

    // One pass of the loop of rt_mb_send_wait and what follows it.
    method SendLoop(mail: nat, timeout: int, now: int) returns (r: Outcome)
      requires sched.Valid() && Inv(sched.View()) && RingOk(View())
      requires entry == pool.Length && timeout != 0 ==> sched.threads[sched.current].stat == Running
      requires MailboxInv(SendLoopF(View(), mail, timeout, now).0)
      modifies this`inOff, this`entry, this`rin, this`sin, this`locals, sched, pool
      ensures Inv(old(sched.View())) && RingOk(old(View())) && Valid()
      ensures r == SendLoopF(old(View()), mail, timeout, now).1
      ensures Inv(SendLoopF(old(View()), mail, timeout, now).0.k)
      ensures var m1 := SendLoopF(old(View()), mail, timeout, now).0;
              View() == if r == Blocked || (r == Done(Ok) && Queue(old(sched.View()), rlist) != []) then Scheduled(m1)
                  else m1
    {
      hide Inv, MailboxInv, S.LinksFor, S.BitsFor, S.MasksFor, Queue, Scheduled, PutF, WaitF;
      Parts(SendLoopF(View(), mail, timeout, now).0);
      if entry < pool.Length {
        Put(mail);
        return Done(Ok);
      }
      if timeout == 0 { return Done(Full); }
      WaitOn(sched, slist, flag, timeout);
      locals := locals[sched.current := Local(mail, timeout, now)];
      sin := sin[sched.current := false];
      Reschedule();
      return Blocked;
    }

    // rt_mb_send_wait
    method Send(mail: nat, timeout: int, now: int) returns (r: Outcome)
      requires Valid() && MaySend(View(), timeout)
      modifies this`inOff, this`entry, this`rin, this`sin, this`locals, sched, pool
      ensures Inv(old(sched.View())) && RingOk(old(View())) && MaySend(old(View()), timeout)
      ensures Valid() && r == SendF(old(View()), mail, timeout, now).1
      ensures Inv(SendF(old(View()), mail, timeout, now).0.k)
      ensures var m1 := SendF(old(View()), mail, timeout, now).0;
              View() == if r == Blocked || (r == Done(Ok) && Queue(old(sched.View()), rlist) != []) then Scheduled(m1)
                  else m1
    {
      hide Inv, MailboxInv, S.LinksFor, S.BitsFor, S.MasksFor, Queue, Scheduled, SendLoopF;
      SendInv(View(), mail, timeout, now);
      Parts(SendF(View(), mail, timeout, now).0);
      if entry == pool.Length && timeout == 0 {
        FullKeeps(View(), mail, now);
        return Done(Full);
      }
      r := SendLoop(mail, timeout, now);
    }

    static lemma FullKeeps(m: Mailbox, mail: nat, now: int)
      requires Inv(m.k) && RingOk(m) && m.entry == m.size
      ensures SendLoopF(m, mail, 0, now) == (m, Done(Full))
    {
    }

    // rt_mb_send_wait, when its thread runs again
    method SendAgain(now: int) returns (r: Outcome)
      requires Valid() && sched.current in sched.threads && sched.threads[sched.current].stat == Running
      requires sched.current in sin
      modifies this`inOff, this`entry, this`rin, this`sin, this`locals, sched, pool
      ensures Inv(old(sched.View())) && RingOk(old(View())) && old(sched.current) in old(locals)
      ensures Valid() && r == SendAgainF(old(View()), now).1 && Inv(SendAgainF(old(View()), now).0.k)
      ensures var m1 := SendAgainF(old(View()), now).0;
              View() == if r == Blocked || (r == Done(Ok) && Queue(old(sched.View()), rlist) != []) then Scheduled(m1)
                  else m1
    {
      hide Inv, MailboxInv, S.LinksFor, S.BitsFor, S.MasksFor, Queue, Scheduled, SendLoopF, Left;
      SendAgainInv(View(), now);
      Parts(SendAgainF(View(), now).0);
      var thread := sched.current;
      sin := sin - {thread};
      if sched.threads[thread].error != Ok {
        return Done(sched.threads[thread].error);
      }
      r := SendLoop(locals[thread].mail, Left(locals[thread].timeout, locals[thread].start, now), now);
    }

    // ipc.c: from `fill ptr` to the end of rt_mb_recv
    method Get() returns (mail: nat)
      requires sched.Valid() && Inv(sched.View()) && RingOk(View()) && entry > 0
      requires MailboxInv(GetF(View()).0)
      modifies this`outOff, this`entry, this`sin, sched
      ensures Inv(old(sched.View())) && RingOk(old(View())) && Inv(GetF(old(View())).0.k) && Valid()
      ensures mail == GetF(old(View())).1
      ensures View() == if Queue(old(sched.View()), slist) != [] then Scheduled(GetF(old(View())).0)
              else GetF(old(View())).0
    {
      hide Inv, MailboxInv, S.LinksFor, S.BitsFor, S.MasksFor, WakeF, Queue, Scheduled;
      Parts(GetF(View()).0);
      mail := Fetch();
      var empty := IsEmpty(sched, slist);
      if !empty {
        sin := sin[Queue(sched.View(), slist)[0] := true];
        ListResume(sched, slist);
        Reschedule();
      }
    }

    method Fetch() returns (mail: nat)
      requires sched.Valid() && RingOk(View()) && entry > 0
      modifies this`outOff, this`entry
      ensures sched.Valid() && sched.View() == old(sched.View()) && outOff == Next(old(outOff), pool.Length)
      ensures entry == old(entry) - 1
      ensures old(outOff) < pool.Length && mail == pool[old(outOff)]
    {
      hide Inv, S.LinksFor, S.BitsFor, S.MasksFor;
      mail := pool[outOff];
      outOff := outOff + 1;
      if outOff >= pool.Length { outOff := 0; }
      entry := entry - 1;
    }

    // One pass of the loop of rt_mb_recv and what follows it.
    method RecvLoop(timeout: int, now: int, again: bool) returns (r: Outcome, mail: nat)
      requires sched.Valid() && Inv(sched.View()) && RingOk(View())
      requires entry == 0 && (timeout != 0 || again) ==> sched.threads[sched.current].stat == Running
      requires MailboxInv(RecvLoopF(View(), timeout, now, again).0)
      modifies this`outOff, this`entry, this`rin, this`sin, this`locals, sched
      ensures Inv(old(sched.View())) && RingOk(old(View())) && Valid()
      ensures (r, mail) == (RecvLoopF(old(View()), timeout, now, again).1,
              RecvLoopF(old(View()), timeout, now, again).2)
      ensures Inv(RecvLoopF(old(View()), timeout, now, again).0.k)
      ensures var m1 := RecvLoopF(old(View()), timeout, now, again).0;
              View() == if r == Blocked || (r == Done(Ok) && Queue(old(sched.View()), slist) != []) then Scheduled(m1)
                  else m1
    {
      hide Inv, MailboxInv, S.LinksFor, S.BitsFor, S.MasksFor, Queue, Scheduled, GetF, WaitF;
      Parts(RecvLoopF(View(), timeout, now, again).0);
      if entry > 0 {
        mail := Get();
        return Done(Ok), mail;
      }
      if timeout == 0 {
        Usable(sched.View());
        if again { SetError(sched, sched.current, Timeout); }
        return Done(Timeout), 0;
      }
      WaitOn(sched, rlist, flag, timeout);
      locals := locals[sched.current := Local(0, timeout, now)];
      rin := rin[sched.current := false];
      Reschedule();
      return Blocked, 0;
    }

    // rt_mb_recv
    method Recv(timeout: int, now: int) returns (r: Outcome, mail: nat)
      requires Valid() && MayRecv(View(), timeout)
      modifies this`outOff, this`entry, this`rin, this`sin, this`locals, sched
      ensures Inv(old(sched.View())) && RingOk(old(View())) && MayRecv(old(View()), timeout)
      ensures Valid() && (r, mail) == (RecvF(old(View()), timeout, now).1, RecvF(old(View()), timeout, now).2)
      ensures Inv(RecvF(old(View()), timeout, now).0.k)
      ensures var m1 := RecvF(old(View()), timeout, now).0;
              View() == if r == Blocked || (r == Done(Ok) && Queue(old(sched.View()), slist) != []) then Scheduled(m1)
                  else m1
    {
      hide Inv, MailboxInv, S.LinksFor, S.BitsFor, S.MasksFor, Queue, Scheduled, RecvLoopF;
      RecvInv(View(), timeout, now);
      Parts(RecvF(View(), timeout, now).0);
      if entry == 0 && timeout == 0 {
        EmptyKeeps(View(), now);
        return Done(Timeout), 0;
      }
      r, mail := RecvLoop(timeout, now, false);
    }

    static lemma EmptyKeeps(m: Mailbox, now: int)
      requires Inv(m.k) && RingOk(m) && m.entry == 0
      ensures RecvLoopF(m, 0, now, false) == (m, Done(Timeout), 0)
    {
    }

    // rt_mb_recv, when its thread runs again
    method RecvAgain(now: int) returns (r: Outcome, mail: nat)
      requires Valid() && sched.current in sched.threads && sched.threads[sched.current].stat == Running
      requires sched.current in rin
      modifies this`outOff, this`entry, this`rin, this`sin, this`locals, sched
      ensures Inv(old(sched.View())) && RingOk(old(View())) && old(sched.current) in old(locals)
      ensures Valid() && (r, mail) == (RecvAgainF(old(View()), now).1, RecvAgainF(old(View()), now).2)
      ensures Inv(RecvAgainF(old(View()), now).0.k)
      ensures var m1 := RecvAgainF(old(View()), now).0;
              View() == if r == Blocked || (r == Done(Ok) && Queue(old(sched.View()), slist) != []) then Scheduled(m1)
                  else m1
    {
      hide Inv, MailboxInv, S.LinksFor, S.BitsFor, S.MasksFor, Queue, Scheduled, RecvLoopF, Left;
      RecvAgainInv(View(), now);
      Parts(RecvAgainF(View(), now).0);
      var thread := sched.current;
      rin := rin - {thread};
      if sched.threads[thread].error != Ok {
        return Done(sched.threads[thread].error), 0;
      }
      r, mail := RecvLoop(Left(locals[thread].timeout, locals[thread].start, now), now, true);
    }

    // RT_IPC_CMD_RESET
    method Reset()
      requires Valid()
      modifies this`inOff, this`outOff, this`entry, sched
      ensures Inv(old(sched.View())) && Valid() && Inv(ResetF(old(View())).k)
      ensures View() == Scheduled(ResetF(old(View())))
    {
      hide Inv, MailboxInv, S.LinksFor, S.BitsFor, S.MasksFor, Queue, Scheduled, WakeAllF;
      Parts(View());
      ResetInv(View());
      Parts(ResetF(View()));
      ListResumeAll(sched, rlist);
      ListResumeAll(sched, slist);
      entry, inOff, outOff := 0, 0, 0;
      Reschedule();
    }
  }
}
