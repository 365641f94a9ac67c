// rt_mq_init, rt_mq_send, rt_mq_urgent, rt_mq_recv and rt_mq_control of ipc.c. The buffers of the pool
// are numbered; `next` holds the link at the front of each, -1 standing for RT_NULL. The parts of a
// call between which interrupts are enabled are separate methods; `c` names the call.
module MessageQueueObject {
  import opened Wrappers
  import opened Rings
  import opened WaitQueue
  import opened Threads
  import opened ThreadLaws
  import opened Waits
  import opened Callers
  import opened MessageQueues
  import opened IpcLists
  import S = Scheduler

  const NULL: int := -1

  // Buffer number i of the list s is linked to the next one.
  ghost predicate LinkAt(next: seq<int>, s: seq<nat>, i: nat)
    requires i < |s|
  {
    s[i] < |next| && next[s[i]] == (if i + 1 == |s| then NULL else s[i + 1])
  }

  // The links lead from `first` through exactly the buffers s.
  ghost predicate Chain(next: seq<int>, first: int, s: seq<nat>) {
    first == (if s == [] then NULL else s[0]) && forall i :: 0 <= i < |s| ==> LinkAt(next, s, i)
  }

  lemma ChainFrame(next: seq<int>, first: int, s: seq<nat>, b: nat, x: int)
    requires Chain(next, first, s) && b < |next| && b !in s
    ensures Chain(next[b := x], first, s)
  {
    var next' := next[b := x];
    forall i | 0 <= i < |s|
      ensures LinkAt(next', s, i)
    {
      assert LinkAt(next, s, i) && s[i] in s;
    }
  }

  lemma ChainPop(next: seq<int>, first: int, s: seq<nat>)
    requires Chain(next, first, s) && s != []
    ensures first == s[0] < |next| && Chain(next, next[first], s[1..])
  {
    assert LinkAt(next, s, 0);
    forall i | 0 <= i < |s[1..]|
      ensures LinkAt(next, s[1..], i)
    {
      assert LinkAt(next, s, i + 1);
    }
  }

  lemma ChainPush(next: seq<int>, first: int, s: seq<nat>, b: nat)
    requires Chain(next, first, s) && b < |next| && b !in s
    ensures Chain(next[b := first], b, [b] + s)
  {
    var r, next' := [b] + s, next[b := first];
    forall i | 0 <= i < |r|
      ensures LinkAt(next', r, i)
    {
      if i > 0 { assert LinkAt(next, s, i - 1) && s[i - 1] in s; }
    }
  }

  lemma ChainAppend(next: seq<int>, first: int, s: seq<nat>, b: nat)
    requires Chain(next, first, s) && Distinct(s) && b < |next| && b !in s && next[b] == NULL
    ensures s != [] ==> s[|s| - 1] < |next| && Chain(next[s[|s| - 1] := b], first, s + [b])
    ensures s == [] ==> Chain(next, b, s + [b])
  {
    var r := s + [b];
    if s != [] {
      assert LinkAt(next, s, |s| - 1);
      var next' := next[s[|s| - 1] := b];
      forall i | 0 <= i < |r|
        ensures LinkAt(next', r, i)
      {
        if i < |s| { assert LinkAt(next, s, i) && s[i] in s; } else { assert s[|s| - 1] in s; }
      }
    }
  }

  // Messages on their way to the end of the line end a chain already.
  ghost predicate Pending(next: seq<int>, flights: map<nat, Flight>) {
    forall c :: c in flights && flights[c].Sending? && flights[c].copied && !flights[c].urgent
                && flights[c].buf < |next| ==>
      next[flights[c].buf] == NULL
  }

  class MessageQueueObject {
    const sched: S.Scheduler
    const w: nat                     // the suspend list
    const flag: Flag
    const msgSize: nat
    const max: nat                   // max_msgs
    const next: array<int>
    const data: array<seq<bv8>>
    var head: int                    // msg_queue_head, msg_queue_tail, msg_queue_free
    var tail: int
    var free: int
    var entry: nat
    var flights: map<nat, Flight>    // local variables of the calls under way
    var waits: map<nat, Wait>
    ghost var freeList: seq<nat>
    ghost var queue: seq<nat>
    ghost var letters: map<nat, seq<bv8>>
    ghost var rin: map<nat, bool>

    ghost function View(): Mq
      reads this, sched, data
    {
      Mq(sched.View(), w, flag, msgSize, max, freeList, queue, entry, data[..], letters, flights, rin, waits)
    }

    ghost predicate Linked()
      reads `free, `freeList, `head, `tail, `queue, `flights, next
    {
      && next.Length == max
      && Chain(next[..], free, freeList) && Chain(next[..], head, queue)
      && tail == (if queue == [] then NULL else queue[|queue| - 1])
      && Pending(next[..], flights)
    }

    ghost predicate Valid()
      reads this, sched, next, data
    {
      sched.Valid() && MqInv(View()) && Linked()
    }

    // rt_mq_init on a suspend list nobody waits on: the loop puts one buffer after the other in front
    // of the free ones.
    constructor (sched: S.Scheduler, w: nat, flag: Flag, msgSize: nat, max: nat)
      requires sched.Valid() && Queue(sched.View(), w) == []
      ensures Valid() && this.sched == sched && this.w == w && this.flag == flag && this.msgSize == msgSize
      ensures this.max == max && Line(View()) == [] && flights == map[] && waits == map[] && |freeList| == max
      ensures sched.View() == old(sched.View())
    {
      hide Inv, MqInv, S.LinksFor, S.BitsFor, S.MasksFor, Chain, Distinct, Queue;
      this.sched, this.w, this.flag, this.msgSize, this.max := sched, w, flag, msgSize, max;
      next := new int[max];
      data := new seq<bv8>[max](i => seq(msgSize, j => 0));
      head, tail, free, entry := NULL, NULL, NULL, 0;
      flights, waits, freeList, queue, letters, rin := map[], map[], [], [], map[], map[];
      new;
      FillFree();
      NewQueue(View());
      NoChain(next[..]);
    }

    // The loop of rt_mq_init.
    method FillFree()
      requires next.Length == max && free == NULL && freeList == []
      modifies next, this`free, this`freeList
      ensures Chain(next[..], free, freeList) && Distinct(freeList) && |freeList| == max && forall b ::
              b in freeList ==> b < max
    {
      hide Chain, Distinct;
      var temp := 0;
      NoChain(next[..]);
      while temp < max
        invariant temp <= max && Chain(next[..], free, freeList) && Distinct(freeList) && |freeList| == temp
        invariant forall b :: b in freeList ==> b < temp
      {
        ghost var links := next[..];
        ChainPush(links, free, freeList, temp);
        InsertAtHead(freeList, temp);
        InsertDistinct(freeList, 0, temp);
        next[temp] := free;
        assert next[..] == links[temp := free];
        free := temp;
        freeList := [temp] + freeList;
        temp := temp + 1;
      }
    }

    static lemma NoChain(next: seq<int>)
      ensures Chain(next, NULL, []) && Distinct<nat>([])
    {
    }

    static lemma NewQueue(m: Mq)
      requires Inv(m.k) && Queue(m.k, m.w) == [] && m.queue == [] && m.entry == 0 && m.flights == map[]
      requires m.rin == map[]
      requires Distinct(m.free) && |m.free| == m.max == |m.data| && (forall b :: b in m.free ==> b < m.max)
      requires forall b :: 0 <= b < m.max ==> |m.data[b]| == m.msgSize
      ensures MqInv(m)
    {
      hide Inv, Distinct;
      NoChain([]);
    }

    static ghost function Scheduled(m: Mq): Mq
      requires Inv(m.k)
    {
      OtherF(m, Call.Schedule)
    }

    // The program calls rt_schedule.
    method Reschedule()
      requires Valid()
      modifies sched
      ensures Inv(old(sched.View())) && Valid() && View() == Scheduled(old(View()))
    {
      hide Inv, Core, NoLostMessage, S.LinksFor, S.BitsFor, S.MasksFor, ScheduleF;
      ScheduledInv(View());
      sched.Schedule();
    }

    static lemma ScheduledInv(m: Mq)
      requires MqInv(m)
      ensures Inv(m.k) && MqInv(Scheduled(m))
      ensures Scheduled(m) == m.(k := ScheduleF(m.k))
    {
      hide Inv, Core, NoLostMessage;
      ScheduleOutside(m);
      OtherInv(m, Call.Schedule);
    }

    static lemma ScheduleOutside(m: Mq)
      requires MqInv(m)
      ensures Others(m, Call.Schedule)
    {
    }

    // rt_mq_send and rt_mq_urgent, the first critical section
    method SendBegin(c: nat, bytes: seq<bv8>, urgent: bool) returns (e: Error)
      requires Valid() && c !in flights
      modifies this`free, this`flights, this`freeList
      ensures Valid() && (View(), e) == SendBeginF(old(View()), c, bytes, urgent)
    {
      hide Inv, MqInv, S.LinksFor, S.BitsFor, S.MasksFor;
      SendBeginInv(View(), c, bytes, urgent);
      if |bytes| > msgSize { return Failed; }
      var msg := free;
      if msg == NULL { return Full; }
      ChainPop(next[..], free, freeList);
      free := next[msg];
      freeList := freeList[1..];
      flights := flights[c := Sending(msg, bytes, urgent, false)];
      return Ok;
    }

    // The statements between the critical sections of a send
    method SendCopy(c: nat)
      requires Valid() && ReadyToCopy(View(), c)
      modifies this`flights, this`letters, next, data
      ensures ReadyToCopy(old(View()), c) && Valid()
      ensures flights == old(flights)[c := old(flights)[c].(copied := true)]
      ensures old(flights)[c].buf < |old(data[..])| && |old(flights)[c].bytes| <= |old(data[..])[old(flights)[c].buf]|
      ensures View() == SendCopyF(old(View()), c)
    {
      hide Inv, MqInv, S.LinksFor, S.BitsFor, S.MasksFor, Chain;
      SendCopyInv(View(), c);
      HeldApart(View(), c);
      var f := flights[c];
      if !f.urgent {
        ChainFrame(next[..], free, freeList, f.buf, NULL);
        ChainFrame(next[..], head, queue, f.buf, NULL);
        ghost var links := next[..];
        next[f.buf] := NULL;
        assert next[..] == links[f.buf := NULL];
      }
      ghost var before := data[..];
      data[f.buf] := f.bytes + data[f.buf][|f.bytes|..];
      assert data[..] == before[f.buf := f.bytes + before[f.buf][|f.bytes|..]];
      letters := letters[f.buf := f.bytes];
      flights := flights[c := f.(copied := true)];
    }

    // A held buffer is on no chain, and no other call holds it.
    static lemma HeldApart(m: Mq, c: nat)
      requires MqInv(m) && c in m.flights
      ensures m.flights[c].buf < m.max && m.flights[c].buf !in m.free && m.flights[c].buf !in m.queue
      ensures forall d :: d in m.flights && d != c ==> m.flights[d].buf != m.flights[c].buf
      ensures Distinct(m.queue) && Distinct(m.free)
      ensures forall b :: b in m.queue ==> b < m.max && b !in m.free && forall d :: d in m.flights ==>
              m.flights[d].buf != b
    {
    }

    // rt_mq_send and rt_mq_urgent, the second critical section
    method SendEnd(c: nat)
      requires Valid() && ReadyToLink(View(), c)
      modifies this`head, this`tail, this`entry, this`flights, this`queue, this`rin, sched, next
      ensures Inv(old(sched.View())) && ReadyToLink(old(View()), c) && Valid() && Inv(SendEndF(old(View()), c).k)
      ensures View() == if Queue(old(sched.View()), w) != [] then Scheduled(SendEndF(old(View()), c))
              else SendEndF(old(View()), c)
    {
      hide Inv, MqInv, S.LinksFor, S.BitsFor, S.MasksFor, Chain, Pending, Queue, Scheduled, WakeFirstF;
      SendEndInv(View(), c);
      MqParts(SendEndF(View(), c));
      Link(c);
      var empty := IsEmpty(sched, w);
      if !empty { WakeFirst(); }
    }

    // The first waiting receiver is resumed.
    method WakeFirst()
      requires sched.Valid() && Inv(sched.View()) && Linked() && Queue(sched.View(), w) != []
      requires MqInv(WakeFirstF(View()))
      modifies this`rin, sched
      ensures Inv(old(sched.View())) && Inv(WakeFirstF(old(View())).k) && Valid()
      ensures View() == Scheduled(WakeFirstF(old(View())))
    {
      hide Inv, MqInv, S.LinksFor, S.BitsFor, S.MasksFor, Linked, WakeF, Queue, Scheduled;
      MqParts(WakeFirstF(View()));
      rin := rin[Queue(sched.View(), w)[0] := true];
      ListResume(sched, w);
      Reschedule();
    }

    // The statements on the list in the second critical section.
    method Link(c: nat)
      requires Valid() && ReadyToLink(View(), c)
      modifies this`head, this`tail, this`entry, this`flights, this`queue, next
      ensures sched.Valid() && Linked() && sched.View() == old(sched.View()) && flights == old(flights) - {c}
      ensures entry == old(entry) + 1
      ensures queue ==
                if old(flights)[c].urgent then [old(flights)[c].buf] + old(queue)
                else old(queue) + [old(flights)[c].buf]
    {
      hide Inv, MqInv, S.LinksFor, S.BitsFor, S.MasksFor, Chain;
      if flights[c].urgent { LinkHead(c); } else { LinkTail(c); }
      entry := entry + 1;
      flights := flights - {c};
    }

    static lemma MqParts(m: Mq)
      requires MqInv(m)
      ensures Inv(m.k) && m.entry == |m.queue| && m.k.current in m.k.threads
    {
      Usable(m.k);
    }

    method LinkHead(c: nat)
      requires Valid() && ReadyToLink(View(), c) && flights[c].urgent
      modifies this`head, this`tail, this`queue, next
      ensures sched.Valid() && sched.View() == old(sched.View()) && queue == [flights[c].buf] + old(queue) && Linked()
    {
      hide Inv, MqInv, S.LinksFor, S.BitsFor, S.MasksFor, Chain;
      HeldApart(View(), c);
      var msg := flights[c].buf;
      ghost var links := next[..];
      ChainPush(links, head, queue, msg);
      ChainFrame(links, free, freeList, msg, head);
      next[msg] := head;
      assert next[..] == links[msg := head];
      head := msg;
      if tail == NULL { tail := msg; }
      queue := [msg] + queue;
    }

    method LinkTail(c: nat)
      requires Valid() && ReadyToLink(View(), c) && !flights[c].urgent
      modifies this`head, this`tail, this`queue, next
      ensures sched.Valid() && sched.View() == old(sched.View()) && queue == old(queue) + [flights[c].buf] && Linked()
    {
      hide Inv, MqInv, S.LinksFor, S.BitsFor, S.MasksFor, Chain;
      HeldApart(View(), c);
      var msg := flights[c].buf;
      ghost var links := next[..];
      ChainAppend(links, head, queue, msg);
      HeadIs(links, head, queue);
      if tail != NULL {
        ChainFrame(links, free, freeList, queue[|queue| - 1], msg);
        next[tail] := msg;
        assert next[..] == links[queue[|queue| - 1] := msg];
      }
      tail := msg;
      if head == NULL { head := msg; }
      queue := queue + [msg];
    }

    static lemma HeadIs(next: seq<int>, first: int, s: seq<nat>)
      requires Chain(next, first, s)
      ensures first == NULL <==> s == []
    {
    }

    // The state v after a receive that came to m1: a receiver that blocks gives up the processor.
    static ghost predicate Reached(m1: Mq, r: Outcome, v: Mq) {
      Inv(m1.k) && v == if r == Blocked then Scheduled(m1) else m1
    }

    // rt_mq_recv from the test of its loop on, to the end of the critical section
    method RecvLoop(c: nat, size: nat, timeout: int, now: int, again: bool) returns (r: Outcome)
      requires sched.Valid() && Inv(sched.View()) && c !in flights
      requires entry == 0 && (timeout != 0 || again) ==> sched.threads[sched.current].stat == Running
      requires Linked() && entry == |queue| && (forall b :: b in queue ==> b < max)
      requires MqInv(RecvBeginF(View(), c, size, timeout, now, again).0)
      modifies this`head, this`tail, this`entry, this`flights, this`queue, this`rin, this`waits, sched
      ensures Inv(old(sched.View())) && (old(entry) > 0 ==> old(queue) != []) && Valid()
      ensures r == RecvBeginF(old(View()), c, size, timeout, now, again).1
      ensures Reached(RecvBeginF(old(View()), c, size, timeout, now, again).0, r, View())
    {
      hide Inv, MqInv, S.LinksFor, S.BitsFor, S.MasksFor, Linked, Queue, Scheduled, UnlinkF, BlockedF;
      MqParts(RecvBeginF(View(), c, size, timeout, now, again).0);
      Usable(sched.View());
      if entry > 0 {
        Unlink(c, size);
        return Done(Ok);
      }
      if timeout == 0 {
        if again { SetError(sched, sched.current, Timeout); }
        return Done(Timeout);
      }
      Wait(size, timeout, now);
      return Blocked;
    }

    // The blocking branch of rt_mq_recv.
    method Wait(size: nat, timeout: int, now: int)
      requires sched.Valid() && Inv(sched.View()) && sched.threads[sched.current].stat == Running && Linked()
      requires MqInv(BlockedF(View(), size, timeout, now))
      modifies this`rin, this`waits, sched
      ensures Inv(old(sched.View())) && Inv(BlockedF(old(View()), size, timeout, now).k) && Valid()
      ensures View() == Scheduled(BlockedF(old(View()), size, timeout, now))
    {
      hide Inv, MqInv, S.LinksFor, S.BitsFor, S.MasksFor, Linked, Queue, Scheduled, WaitF;
      MqParts(BlockedF(View(), size, timeout, now));
      WaitOn(sched, w, flag, timeout);
      waits := waits[sched.current := MessageQueues.Wait(size, timeout, now)];
      rin := rin[sched.current := false];
      Reschedule();
    }

    // The first buffer leaves the line and is held by receiving call c.
    method Unlink(c: nat, size: nat)
      requires sched.Valid() && Linked() && entry == |queue| && entry > 0 && (forall b :: b in queue ==> b < max)
               && c !in flights
      modifies this`head, this`tail, this`entry, this`queue, this`flights
      ensures sched.Valid() && Linked() && old(queue) != [] && View() == UnlinkF(old(View()), c, size)
    {
      hide Inv, S.LinksFor, S.BitsFor, S.MasksFor, Chain, Pending;
      var msg := head;
      Advance();
      flights := flights[c := Receiving(msg, size)];
      PendingTake(next[..], old(flights), c, Receiving(msg, size));
    }

    static lemma PendingTake(next: seq<int>, flights: map<nat, Flight>, c: nat, f: Flight)
      requires Pending(next, flights) && (f.Receiving? || !f.copied)
      ensures Pending(next, flights[c := f])
    {
    }

    // The list pointers move past the first buffer.
    method Advance()
      requires Linked() && entry == |queue| && entry > 0 && forall b :: b in queue ==> b < max
      modifies this`head, this`tail, this`entry, this`queue
      ensures Linked() && queue == old(queue)[1..] && entry == old(entry) - 1 && old(head) == old(queue)[0]
    {
      hide Chain, Pending;
      ghost var first := queue[0];
      ChainPop(next[..], head, queue);
      QueueDistinct(next[..], head, queue);
      var msg := head;
      head := next[msg];
      if tail == msg { tail := NULL; }
      entry := entry - 1;
      queue := queue[1..];
    }

    // Only the last buffer of a chain has no successor, so that the first one is also the last one only
    // if it is the only one.
    static lemma QueueDistinct(next: seq<int>, first: int, s: seq<nat>)
      requires Chain(next, first, s) && s != []
      ensures s[0] == s[|s| - 1] ==> |s| == 1
    {
      assert LinkAt(next, s, 0) && LinkAt(next, s, |s| - 1);
    }

    // rt_mq_recv
    method RecvBegin(c: nat, size: nat, timeout: int, now: int) returns (r: Outcome)
      requires Valid() && c !in flights && MayRecv(View(), timeout)
      modifies this`head, this`tail, this`entry, this`flights, this`queue, this`rin, this`waits, sched
      ensures Inv(old(sched.View())) && MayRecv(old(View()), timeout) && (old(entry) > 0 ==> old(queue) != [])
              && Valid()
      ensures r == RecvBeginF(old(View()), c, size, timeout, now, false).1
      ensures Reached(RecvBeginF(old(View()), c, size, timeout, now, false).0, r, View())
    {
      hide Inv, MqInv, S.LinksFor, S.BitsFor, S.MasksFor, Chain, Pending, Queue, Scheduled, RecvBeginF;
      MqParts(View());
      QueueRange(View());
      RecvBeginInv(View(), c, size, timeout, now);
      MqParts(RecvBeginF(View(), c, size, timeout, now, false).0);
      if entry == 0 && timeout == 0 {
        EmptyKeeps(View(), c, size, now);
        return Done(Timeout);
      }
      r := RecvLoop(c, size, timeout, now, false);
    }

    static lemma EmptyKeeps(m: Mq, c: nat, size: nat, now: int)
      requires Inv(m.k) && m.entry == 0
      ensures RecvBeginF(m, c, size, 0, now, false) == (m, Done(Timeout))
    {
    }

    static lemma QueueRange(m: Mq)
      requires MqInv(m)
      ensures forall b :: b in m.queue ==> b < m.max
    {
    }

    static lemma RecvAgainIs(m: Mq, c: nat, now: int)
      requires MqInv(m) && Inv(m.k) && m.k.threads[m.k.current].stat == Running && m.k.current in m.waits
      requires (m.entry > 0 ==> m.queue != []) && MqInv(RecvAgainF(m, c, now).0)
      ensures var t, m1 := m.k.current, m.(rin := m.rin - {m.k.current});
              if m.k.threads[t].error != Ok then
                RecvAgainF(m, c, now) == (m1, Done(m.k.threads[t].error))
                    && Reached(RecvAgainF(m, c, now).0, RecvAgainF(m, c, now).1, m1)
              else
                RecvAgainF(m, c, now) ==
                  RecvBeginF(m1, c, m.waits[t].size, Left(m.waits[t].timeout, m.waits[t].start, now), now, true)
    {
      hide Inv, MqInv, RecvBeginF, Left, Queue;
      MqParts(RecvAgainF(m, c, now).0);
    }

    // rt_mq_recv, when its thread runs again
    method RecvAgain(c: nat, now: int) returns (r: Outcome)
      requires Valid() && c !in flights && sched.current in sched.threads
      requires sched.threads[sched.current].stat == Running && sched.current in rin
      modifies this`head, this`tail, this`entry, this`flights, this`queue, this`rin, this`waits, sched
      ensures Inv(old(sched.View())) && old(sched.current) in old(waits) && (old(entry) > 0 ==> old(queue) != [])
              && Valid()
      ensures r == RecvAgainF(old(View()), c, now).1 && Reached(RecvAgainF(old(View()), c, now).0, r, View())
    {
      hide Inv, MqInv, S.LinksFor, S.BitsFor, S.MasksFor, Linked, Queue, Scheduled, RecvBeginF, RecvAgainF, Left,
          Reached;
      MqParts(View());
      QueueRange(View());
      RecvAgainInv(View(), c, now);
      RecvAgainIs(View(), c, now);
      var thread := sched.current;
      rin := rin - {thread};
      if sched.threads[thread].error != Ok {
        return Done(sched.threads[thread].error);
      }
      r := RecvLoop(c, waits[thread].size, Left(waits[thread].timeout, waits[thread].start, now), now, true);
    }

    // The copy and the last critical section of rt_mq_recv
    method RecvEnd(c: nat) returns (bytes: seq<bv8>)
      requires Valid() && ReadyToFree(View(), c)
      modifies this`free, this`flights, this`freeList, next
      ensures ReadyToFree(old(View()), c) && Valid()
      ensures old(flights)[c].buf < data.Length && |data[old(flights)[c].buf]| == msgSize
      ensures (View(), bytes) == RecvEndF(old(View()), c)
    {
      hide Inv, MqInv, S.LinksFor, S.BitsFor, S.MasksFor, Chain;
      RecvEndInv(View(), c);
      HeldApart(View(), c);
      var msg, size := flights[c].buf, flights[c].size;
      bytes := data[msg][..if size > msgSize then msgSize else size];
      ghost var links := next[..];
      ChainPush(links, free, freeList, msg);
      ChainFrame(links, head, queue, msg, free);
      next[msg] := free;
      assert next[..] == links[msg := free];
      free := msg;
      freeList := [msg] + freeList;
      flights := flights - {c};
    }

    // RT_IPC_CMD_RESET
    method Reset()
      requires Valid()
      modifies this`head, this`tail, this`free, this`entry, this`queue, this`freeList, sched, next
      ensures Inv(old(sched.View())) && Valid() && Inv(ResetF(old(View())).k)
      ensures View() == Scheduled(ResetF(old(View())))
    {
      hide Inv, MqInv, S.LinksFor, S.BitsFor, S.MasksFor, Chain, Pending, Queue, Scheduled, WakeAllF, Parted;
      MqParts(View());
      ResetInv(View());
      MqParts(ResetF(View()));
      PartedNow(View());
      ListResumeAll(sched, w);
      FreeAll();
      entry := 0;
      Reschedule();
    }

    static lemma PartedNow(m: Mq)
      requires MqInv(m)
      ensures Parted(m.free, m.queue, m.flights, m.max)
    {
      hide Parted, Written, Inv;
    }

    // The loop of RT_IPC_CMD_RESET.
    method FreeAll()
      requires Linked() && Parted(freeList, queue, flights, max)
      modifies this`head, this`tail, this`free, this`queue, this`freeList, next
      ensures Linked() && queue == [] && freeList == Reversed(old(queue)) + old(freeList)
    {
      hide Chain, Parted;
      HeadIs(next[..], head, queue);
      while head != NULL
        invariant Linked() && Parted(freeList, queue, flights, max) && (head == NULL <==> queue == [])
        invariant Reversed(queue) + freeList == Reversed(old(queue)) + old(freeList)
        decreases |queue|
      {
        ReversedStep(queue, freeList);
        FreeFirst();
        HeadIs(next[..], head, queue);
      }
    }

    static lemma ReversedStep(queue: seq<nat>, free: seq<nat>)
      requires queue != []
      ensures Reversed(queue[1..]) + ([queue[0]] + free) == Reversed(queue) + free
    {
    }

    // One turn of that loop.
    method FreeFirst()
      requires Linked() && Parted(freeList, queue, flights, max) && queue != []
      modifies this`head, this`tail, this`free, this`queue, this`freeList, next
      ensures Linked() && queue == old(queue)[1..] && freeList == [old(queue)[0]] + old(freeList)
      ensures Parted(freeList, queue, flights, max)
    {
      hide Chain, Parted;
      PartMove(freeList, queue, flights, max);
      FirstApart(freeList, queue, flights, max);
      ChainPop(next[..], head, queue);
      QueueDistinct(next[..], head, queue);
      var msg := head;
      head := next[msg];
      if tail == msg { tail := NULL; }
      ghost var links := next[..];
      ChainPush(links, free, freeList, msg);
      ChainFrame(links, head, queue[1..], msg, free);
      next[msg] := free;
      assert next[..] == links[msg := free];
      free := msg;
      queue, freeList := queue[1..], [queue[0]] + freeList;
    }

    static lemma FirstApart(free: seq<nat>, queue: seq<nat>, flights: map<nat, Flight>, max: nat)
      requires Parted(free, queue, flights, max) && queue != []
      ensures queue[0] < max && queue[0] !in free && queue[0] !in queue[1..]
      ensures forall c :: c in flights ==> flights[c].buf != queue[0]
    {
      FirstOff(queue);
    }
  }
}
