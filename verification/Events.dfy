// The event set of ipc.c, over the whole state of the threads.
module Events {
  import opened Wrappers
  import opened Rings
  import opened WaitQueue
  import opened Threads
  import opened ThreadLaws
  import opened Waits
  import opened Callers
  import E = ThreadEffects

  // What a thread waits for: event_set and event_info of struct rt_thread. `all` stands for
  // RT_EVENT_FLAG_AND, `clear` for RT_EVENT_FLAG_CLEAR.
  datatype Ask = Ask(want: bv32, all: bool, clear: bool)

  function Joined(a: bv32, b: bv32): bv32 { a | b }
  function Common(a: bv32, b: bv32): bv32 { a & b }

  predicate Satisfied(now: bv32, a: Ask) {
    if a.all then Common(a.want, now) == a.want else Common(a.want, now) != 0
  }

  // What a satisfied request receives.
  function Received(now: bv32, a: Ask): bv32 {
    if a.all then a.want else Common(a.want, now)
  }

  function Cleared(now: bv32, bits: bv32): bv32 { now & !bits }

  predicate Within(a: bv32, b: bv32) { Common(a, b) == a }
  predicate Disjoint(a: bv32, b: bv32) { Common(a, b) == 0 }

  // `asks` holds event_set and event_info of all threads, `inside` the threads between blocking in
  // rt_event_recv and returning, with whether their event has come.
  datatype Event = Event(k: K, w: nat, flag: Flag, events: bv32, asks: map<nat, Ask>, inside: map<nat, bool>)

  // One thread resumed by rt_event_send: what it got, and the event set at that moment.
  datatype Delivery = Delivery(t: nat, got: bv32, before: bv32, clear: bool)

  // ----- the calls

  // Thread t, which is on the list and satisfied, gets its event.
  ghost function DeliverF(e: Event, t: nat): (e': Event)
    requires Inv(e.k) && t in Queue(e.k, e.w) && t in e.asks
  {
    var a := e.asks[t];
    var got := Received(e.events, a);
    QueueLaw(e.k, e.w);
    Usable(e.k);
    e.(k := ResumeF(e.k, t).0, asks := e.asks[t := a.(want := got)],
       events := if a.clear then Cleared(e.events, got) else e.events, inside := e.inside[t := true])
  }

  // The loop of rt_event_send from position i of the list on, with the threads it resumes.
  ghost function WalkF(e: Event, i: nat): (r: (Event, seq<Delivery>))
    requires EventInv0(e) && i <= |Queue(e.k, e.w)|
    decreases |Queue(e.k, e.w)| - i
  {
    if i == |Queue(e.k, e.w)| then (e, [])
    else
      var t := Queue(e.k, e.w)[i];
      if Satisfied(e.events, e.asks[t]) then
        DeliverLaw(e, i);
        var (e', ds) := WalkF(DeliverF(e, t), i);
        (e', [Delivery(t, Received(e.events, e.asks[t]), e.events, e.asks[t].clear)] + ds)
      else WalkF(e, i + 1)
  }

  // rt_event_send up to its rt_schedule.
  ghost function SendF(e: Event, bits: bv32): (r: (Event, Error, seq<Delivery>))
    requires EventInv(e)
  {
    if bits == 0 then (e, Failed, [])
    else
      var (e', ds) := WalkF(e.(events := Joined(e.events, bits)), 0);
      (e', Ok, ds)
  }

  // rt_event_recv, up to its rt_schedule when it blocks. The last result is what it received.
  ghost function RecvF(e: Event, a: Ask, timeout: int): (r: (Event, Outcome, bv32))
    requires EventInv(e) && Free(e.k, e.inside)
  {
    var t := e.k.current;
    if a.want == 0 then (e, Done(Failed), 0)
    else
      ErrorInv(e.k, t, Ok);
      var k := ErrorF(e.k, t, Ok);
      if Satisfied(e.events, a) then
        (e.(k := k, events := if a.clear then Cleared(e.events, a.want) else e.events), Done(Ok),
            Common(a.want, e.events))
      else if timeout == 0 then (e.(k := ErrorF(k, t, Timeout)), Done(Timeout), 0)
      else
        Usable(k);
        (e.(k := BlockF(k, e.w, e.flag, timeout > 0), asks := e.asks[t := a], inside := e.inside[t := false]), Blocked,
            0)
  }

  // What rt_event_recv returns after it had blocked.
  function ReturnF(e: Event): (r: (Event, Error, bv32))
    requires e.k.current in e.k.threads && e.k.current in e.asks
  {
    var error := e.k.threads[e.k.current].error;
    (e.(inside := e.inside - {e.k.current}), error, if error == Ok then e.asks[e.k.current].want else 0)
  }

  // RT_IPC_CMD_RESET up to its rt_schedule.
  ghost function ResetF(e: Event): (e': Event)
    requires Inv(e.k)
  {
    e.(k := WakeAllF(e.k, e.w), events := 0)
  }

  ghost function OtherF(e: Event, c: Call): (e': Event)
    requires Inv(e.k) && Legal(e.k, c)
  {
    e.(k := CallF(e.k, c), inside := After(e.inside, c))
  }

  // ----- the invariant

  ghost predicate EventInv0(e: Event) {
    && Inv(e.k) && Account(e.k, e.w, e.inside)
    && (forall t :: t in e.inside ==> t in e.asks && e.asks[t].want != 0)
    && (forall t :: t in Queue(e.k, e.w) ==> t in e.inside)
  }

  // The first n waiters are not satisfied.
  ghost predicate Unsatisfied(e: Event, n: nat) {
    forall i :: 0 <= i < n && i < |Queue(e.k, e.w)| ==>
      var t := Queue(e.k, e.w)[i]; t in e.asks && !Satisfied(e.events, e.asks[t])
  }

  // No waiter's condition holds for the current event set.
  ghost predicate EventInv(e: Event) {
    EventInv0(e) && Unsatisfied(e, |Queue(e.k, e.w)|)
  }

  lemma DeliverLaw(e: Event, i: nat)
    requires EventInv0(e) && i < |Queue(e.k, e.w)| && Satisfied(e.events, e.asks[Queue(e.k, e.w)[i]])
    ensures var t := Queue(e.k, e.w)[i];
            var e' := DeliverF(e, t);
            && EventInv0(e') && Queue(e'.k, e.w) == Drop(Queue(e.k, e.w), i) && e'.w == e.w && e'.flag == e.flag
            && t in Queue(e.k, e.w) && t in e'.asks && e'.asks[t].want == Received(e.events, e.asks[t])
            && (forall u :: u in Queue(e'.k, e.w) ==> u in Queue(e.k, e.w))
            && t !in Queue(e'.k, e.w) && (forall u :: u != t && u in e.asks ==> u in e'.asks && e'.asks[u] == e.asks[u])
            && (Unsatisfied(e, i) ==> Unsatisfied(e', i))
  {
    hide Inv, Queue, ResumeF, Satisfied, Received, Cleared, Account, Within;
    var t := Queue(e.k, e.w)[i];
    QueueLaw(e.k, e.w);
    AccountResume(e.k, e.w, e.inside, t);
    IndexUnique(Queue(e.k, e.w), i);
    ReceivedSome(e.events, e.asks[t]);
    if Unsatisfied(e, i) { DeliverUnsatisfied(e, i); }
  }

  lemma DeliverUnsatisfied(e: Event, i: nat)
    requires EventInv0(e) && i < |Queue(e.k, e.w)| && Unsatisfied(e, i)
    requires var t := Queue(e.k, e.w)[i];
             && t in e.asks && Queue(DeliverF(e, t).k, e.w) == Drop(Queue(e.k, e.w), i)
             && forall j :: 0 <= j < i ==> Queue(e.k, e.w)[j] != t
    ensures Inv(e.k) && Queue(e.k, e.w)[i] in e.asks && Unsatisfied(DeliverF(e, Queue(e.k, e.w)[i]), i)
  {
    hide Inv, Queue, ResumeF, Satisfied, Received, Cleared, Account;
    var t := Queue(e.k, e.w)[i];
    var e' := DeliverF(e, t);
    forall j | 0 <= j < i
      ensures var u := Queue(e'.k, e.w)[j]; u in e'.asks && !Satisfied(e'.events, e'.asks[u])
    {
      var u := Queue(e.k, e.w)[j];
      ShrinkKeeps(e.events, Received(e.events, e.asks[t]), e.asks[u]);
    }
  }

  lemma ReceivedSome(now: bv32, a: Ask)
    requires a.want != 0 && Satisfied(now, a)
    ensures Received(now, a) != 0 && Within(Received(now, a), now) && Within(Received(now, a), a.want)
    ensures a.all ==> Received(now, a) == a.want
  {
    hide Common;
    MaskedWithin(a.want, now);
  }

  lemma MaskedWithin(a: bv32, b: bv32)
    ensures Within(Common(a, b), a) && Within(Common(a, b), b) && Within(a, a)
  {
  }

  // Clearing events satisfies nobody.
  lemma ShrinkKeeps(now: bv32, bits: bv32, a: Ask)
    requires !Satisfied(now, a)
    ensures !Satisfied(Cleared(now, bits), a)
  {
    hide Common, Cleared;
    ClearedMasks(now, bits, a.want);
  }

  lemma ClearedMasks(now: bv32, bits: bv32, want: bv32)
    ensures Common(want, now) == 0 ==> Common(want, Cleared(now, bits)) == 0
    ensures Common(want, Cleared(now, bits)) == want ==> Common(want, now) == want
  {
  }

  // Nothing of the cleared bits is left.
  lemma ClearedGone(now: bv32, bits: bv32, got: bv32)
    requires Within(got, Cleared(now, bits))
    ensures Disjoint(got, bits) && Within(got, now)
  {
  }

  // ----- the loop of rt_event_send

  // Each thread got a part of the events there were at its turn; what it cleared nobody after it got.
  ghost predicate Deliveries(ds: seq<Delivery>) {
    && (forall i :: 0 <= i < |ds| ==> ds[i].got != 0 && Within(ds[i].got, ds[i].before))
    && (forall i, j :: 0 <= i < j < |ds| ==>
         Within(ds[j].got, ds[i].before) && (ds[i].clear ==> Disjoint(ds[j].got, ds[i].got)))
  }

  // Events delivered are taken from those that are there.
  ghost predicate Bounded(ds: seq<Delivery>, now: bv32) {
    forall i :: 0 <= i < |ds| ==> Within(ds[i].got, now)
  }

  lemma {:induction false} WalkLaw(e: Event, i: nat)
    requires EventInv0(e) && i <= |Queue(e.k, e.w)| && Unsatisfied(e, i)
    ensures var (e', ds) := WalkF(e, i);
            && EventInv(e') && Deliveries(ds) && Bounded(ds, e.events) && e'.w == e.w && e'.flag == e.flag
            && (forall t :: t in Queue(e'.k, e.w) ==> t in Queue(e.k, e.w))
            && (forall t :: t in e.asks && t !in Queue(e.k, e.w) ==> t in e'.asks && e'.asks[t] == e.asks[t])
            && (forall t :: t in Queue(e.k, e.w) && t !in Queue(e'.k, e.w) ==>
                  exists i :: 0 <= i < |ds| && ds[i].t == t)
            && (forall d :: d in ds ==>
               d.t in Queue(e.k, e.w) && d.t !in Queue(e'.k, e.w) && d.t in e'.asks && e'.asks[d.t].want == d.got)
    decreases |Queue(e.k, e.w)| - i
  {
    hide Inv, Queue, EventInv0, Deliveries, Bounded, DeliverF, Received, Satisfied, Account;
    if i < |Queue(e.k, e.w)| {
      AsksOk(e, i);
      var t := Queue(e.k, e.w)[i];
      if Satisfied(e.events, e.asks[t]) {
        DeliverLaw(e, i);
        DropMembers(Queue(e.k, e.w), i);
        WalkLaw(DeliverF(e, t), i);
        WalkStep(e, i);
        var (e', ds1) := WalkF(DeliverF(e, t), i);
        var ds := WalkF(e, i).1;
        forall u | u in Queue(e.k, e.w) && u !in Queue(e'.k, e.w)
          ensures exists j :: 0 <= j < |ds| && ds[j].t == u
        {
          if u == t {
            assert ds[0].t == u;
          } else {
            var j :| 0 <= j < |ds1| && ds1[j].t == u;
            assert ds[j + 1].t == u;
          }
        }
      } else {
        WalkLaw(e, i + 1);
      }
    } else {
      NoDeliveries(e.events);
    }
  }

  lemma NoDeliveries(now: bv32)
    ensures Deliveries([]) && Bounded([], now)
  {
  }

  lemma AsksOk(e: Event, i: nat)
    requires EventInv0(e) && i < |Queue(e.k, e.w)|
    ensures Inv(e.k) && Queue(e.k, e.w)[i] in e.asks && e.asks[Queue(e.k, e.w)[i]].want != 0
  {
    hide Queue, Account;
  }

  lemma WalkStep(e: Event, i: nat)
    requires EventInv0(e) && i < |Queue(e.k, e.w)|
    requires var t := Queue(e.k, e.w)[i];
             Satisfied(e.events, e.asks[t]) && EventInv0(DeliverF(e, t))
                 && Queue(DeliverF(e, t).k, e.w) == Drop(Queue(e.k, e.w), i)
             && DeliverF(e, t).w == e.w
    requires var t := Queue(e.k, e.w)[i];
             var (e', ds) := WalkF(DeliverF(e, t), i);
             && Deliveries(ds) && Bounded(ds, DeliverF(e, t).events)
    ensures Deliveries(WalkF(e, i).1) && Bounded(WalkF(e, i).1, e.events)
  {
    hide Inv, Queue, EventInv0, Received, Satisfied, Cleared, Within, Disjoint, Account;
    AsksOk(e, i);
    var t := Queue(e.k, e.w)[i];
    var (e', ds) := WalkF(DeliverF(e, t), i);
    var a := e.asks[t];
    ReceivedSome(e.events, a);
    forall j | 0 <= j < |ds|
      ensures Within(ds[j].got, e.events) && (a.clear ==> Disjoint(ds[j].got, Received(e.events, a)))
    {
      if a.clear { ClearedGone(e.events, Received(e.events, a), ds[j].got); }
    }
    FirstDelivery(Delivery(t, Received(e.events, a), e.events, a.clear), ds);
  }

  lemma FirstDelivery(d: Delivery, ds: seq<Delivery>)
    requires Deliveries(ds) && d.got != 0 && Within(d.got, d.before)
    requires forall j :: 0 <= j < |ds| ==> Within(ds[j].got, d.before) && (d.clear ==> Disjoint(ds[j].got, d.got))
    ensures Deliveries([d] + ds) && Bounded([d] + ds, d.before)
  {
  }

  // The thread that asked for a got all the events it asked for that were there, which satisfied it.
  predicate Fulfils(d: Delivery, a: Ask) {
    && d.got == Common(a.want, d.before) && d.clear == a.clear
    && (if a.all then d.got == a.want else d.got != 0)
  }

  // Thread by thread, from event set `now` on: each got its events, and took them out of the set if it had
  // told to.
  ghost predicate Exact(ds: seq<Delivery>, now: bv32, asks: map<nat, Ask>) {
    ds == []
    || (var d := ds[0];
        && d.t in asks && d.before == now && Fulfils(d, asks[d.t])
        && Exact(ds[1..], if d.clear then Cleared(now, d.got) else now, asks))
  }

  // The events that were taken out.
  ghost function Consumed(ds: seq<Delivery>): bv32 {
    if ds == [] then 0
    else if ds[0].clear then Joined(ds[0].got, Consumed(ds[1..]))
    else Consumed(ds[1..])
  }

  ghost function Whom(ds: seq<Delivery>): seq<nat> {
    if ds == [] then [] else [ds[0].t] + Whom(ds[1..])
  }

  // The threads of a are in line b, in this order.
  ghost predicate InLine(a: seq<nat>, b: seq<nat>) {
    a == [] || (b != [] && if a[0] == b[0] then InLine(a[1..], b[1..]) else InLine(a, b[1..]))
  }

  lemma {:induction false} InLineMembers(a: seq<nat>, b: seq<nat>)
    requires InLine(a, b)
    ensures forall t :: t in a ==> t in b
    decreases |b|
  {
    if a != [] {
      assert a == [a[0]] + a[1..] && b == [b[0]] + b[1..];
      if a[0] == b[0] { InLineMembers(a[1..], b[1..]); } else { InLineMembers(a, b[1..]); }
    }
  }

  // The threads `ts` have become ready and are marked as served, with their timers stopped; all others
  // are as they were.
  ghost predicate Readied(e: Event, e': Event, ts: seq<nat>) {
    && e'.k.current == e.k.current && e'.k.threads.Keys == e.k.threads.Keys
    && (forall u :: u in e.k.threads ==>
          e'.k.threads[u] ==
          if u in ts then e.k.threads[u].(stat := if u == e.k.current then Running else Ready, timed := false)
          else e.k.threads[u])
    && (forall u :: u in e.asks && u !in ts ==> u in e'.asks && e'.asks[u] == e.asks[u])
    && (forall u :: u in e.inside ==> u in e'.inside && e'.inside[u] == (u in ts || e.inside[u]))
  }

  lemma {:induction false} WalkExact(e: Event, i: nat)
    requires EventInv0(e) && i <= |Queue(e.k, e.w)|
    ensures var (e', ds) := WalkF(e, i);
            && Exact(ds, e.events, e.asks) && e'.events == Cleared(e.events, Consumed(ds))
            && InLine(Whom(ds), Queue(e.k, e.w)[i..]) && Readied(e, e', Whom(ds))
    decreases |Queue(e.k, e.w)| - i
  {
    hide Inv, Queue, EventInv0, DeliverF, Account, Satisfied, Received, Exact, Consumed, Readied, InLine, Cleared,
        Common, Joined;
    if i < |Queue(e.k, e.w)| {
      AsksOk(e, i);
      var t := Queue(e.k, e.w)[i];
      if Satisfied(e.events, e.asks[t]) {
        DeliverLaw(e, i);
        WalkExact(DeliverF(e, t), i);
        DeliverStep(e, i);
      } else {
        WalkExact(e, i + 1);
        NotInLine(e, i);
      }
    } else {
      NothingDelivered(e);
      assert Queue(e.k, e.w)[i..] == [];
    }
  }

  lemma NothingDelivered(e: Event)
    ensures Exact([], e.events, e.asks) && e.events == Cleared(e.events, Consumed([])) && Readied(e, e, [])
    ensures Whom([]) == [] && InLine([], [])
  {
  }

  lemma NotInLine(e: Event, i: nat)
    requires EventInv0(e) && i < |Queue(e.k, e.w)|
    ensures var q := Queue(e.k, e.w); forall a :: InLine(a, q[i + 1..]) ==> InLine(a, q[i..])
  {
    var q := Queue(e.k, e.w);
    QueueLaw(e.k, e.w);
    assert q[i..][1..] == q[i + 1..];
    forall a | InLine(a, q[i + 1..])
      ensures InLine(a, q[i..])
    {
      InLineMembers(a, q[i + 1..]);
      hide Queue;
      if a != [] { assert a[0] in q[i + 1..]; }
    }
  }

  lemma DeliverStep(e: Event, i: nat)
    requires EventInv0(e) && i < |Queue(e.k, e.w)| && Queue(e.k, e.w)[i] in e.asks && Inv(e.k)
    requires Satisfied(e.events, e.asks[Queue(e.k, e.w)[i]])
    requires var e1 := DeliverF(e, Queue(e.k, e.w)[i]);
             && EventInv0(e1) && Queue(e1.k, e.w) == Drop(Queue(e.k, e.w), i) && e1.w == e.w
    requires var e1 := DeliverF(e, Queue(e.k, e.w)[i]);
             var (e', ds) := WalkF(e1, i);
             && Exact(ds, e1.events, e1.asks) && e'.events == Cleared(e1.events, Consumed(ds))
             && InLine(Whom(ds), Queue(e1.k, e.w)[i..]) && Readied(e1, e', Whom(ds))
    ensures var (e', ds) := WalkF(e, i);
            && Exact(ds, e.events, e.asks) && e'.events == Cleared(e.events, Consumed(ds))
            && InLine(Whom(ds), Queue(e.k, e.w)[i..]) && Readied(e, e', Whom(ds))
  {
    hide Inv, Queue, EventInv0, Account, Satisfied, Received, Exact, Consumed, Readied, InLine, ResumeF, Common,
        Cleared;
    var t := Queue(e.k, e.w)[i];
    var e1, a := DeliverF(e, t), e.asks[t];
    var (e', ds1) := WalkF(e1, i);
    var d := Delivery(t, Received(e.events, a), e.events, a.clear);
    QueueDistinct(e.k, e.w);
    RestOfLine(Queue(e.k, e.w), i, Whom(ds1));
    WhomIs(ds1);
    ReceivedIs(e.events, a);
    assert ([d] + ds1)[1..] == ds1;
    ExactFrame(ds1, e1.events, e1.asks, e.asks);
    FirstExact(d, ds1, e.events, e1.events, e.asks);
    DeliverReady(e, t);
    ReadiedMore(e, e1, e', t, Whom(ds1));
  }

  lemma QueueDistinct(k: K, w: nat)
    requires Inv(k)
    ensures Distinct(Queue(k, w)) && forall t :: t in Queue(k, w) ==> t in k.threads
  {
    QueueLaw(k, w);
  }

  lemma RestOfLine(q: seq<nat>, i: nat, a: seq<nat>)
    requires i < |q| && Distinct(q) && InLine(a, Drop(q, i)[i..])
    ensures q[i] !in a && InLine([q[i]] + a, q[i..])
  {
    assert Drop(q, i)[i..] == q[i + 1..] == q[i..][1..];
    InLineMembers(a, q[i + 1..]);
    assert ([q[i]] + a)[1..] == a;
  }

  lemma {:induction false} WhomIs(ds: seq<Delivery>)
    ensures forall d :: d in ds ==> d.t in Whom(ds)
  {
    if ds != [] {
      assert ds == [ds[0]] + ds[1..];
      WhomIs(ds[1..]);
    }
  }

  lemma ReceivedIs(now: bv32, a: Ask)
    requires Satisfied(now, a)
    ensures Received(now, a) == Common(a.want, now)
    ensures if a.all then Received(now, a) == a.want else Received(now, a) != 0
  {
    hide Common;
  }

  lemma {:induction false} ExactFrame(ds: seq<Delivery>, now: bv32, asks: map<nat, Ask>, asks': map<nat, Ask>)
    requires Exact(ds, now, asks)
    requires forall d :: d in ds && d.t in asks ==> d.t in asks' && asks'[d.t] == asks[d.t]
    ensures Exact(ds, now, asks')
  {
    hide Common, Cleared;
    if ds != [] {
      assert ds == [ds[0]] + ds[1..];
      assert forall d :: d in ds[1..] ==> d in ds;
      ExactFrame(ds[1..], if ds[0].clear then Cleared(now, ds[0].got) else now, asks, asks');
    }
  }

  lemma FirstExact(d: Delivery, ds: seq<Delivery>, now: bv32, next: bv32, asks: map<nat, Ask>)
    requires d.t in asks && d.before == now && Fulfils(d, asks[d.t])
    requires next == (if d.clear then Cleared(now, d.got) else now) && Exact(ds, next, asks)
    ensures Exact([d] + ds, now, asks) && Cleared(next, Consumed(ds)) == Cleared(now, Consumed([d] + ds))
    ensures Whom([d] + ds) == [d.t] + Whom(ds)
  {
    hide Common, Cleared, Joined;
    assert ([d] + ds)[1..] == ds;
    ClearedTwice(now, d.got, Consumed(ds));
  }

  lemma ClearedTwice(now: bv32, a: bv32, b: bv32)
    ensures Cleared(Cleared(now, a), b) == Cleared(now, Joined(a, b))
  {
  }

  // What the operations on event sets mean: joining adds exactly the second set, the common events are
  // those of both, and clearing takes out exactly those.
  lemma JoinedIs(a: bv32, b: bv32, c: bv32)
    ensures Within(a, Joined(a, b)) && Within(b, Joined(a, b))
    ensures Within(a, c) && Within(b, c) ==> Within(Joined(a, b), c)
  {
    hide Joined, Common;
    JoinedHas(a, b);
    if Within(a, c) && Within(b, c) { JoinedLeast(a, b, c); }
  }

  lemma JoinedHas(a: bv32, b: bv32)
    ensures Within(a, Joined(a, b)) && Within(b, Joined(a, b))
  {
  }

  lemma JoinedLeast(a: bv32, b: bv32, c: bv32)
    requires Within(a, c) && Within(b, c)
    ensures Within(Joined(a, b), c)
  {
  }

  lemma CommonIs(a: bv32, b: bv32, c: bv32)
    ensures Within(Common(a, b), a) && Within(Common(a, b), b)
    ensures Within(c, a) && Within(c, b) ==> Within(c, Common(a, b))
  {
  }

  lemma ClearedIs(a: bv32, b: bv32)
    ensures Disjoint(Cleared(a, b), b) && Joined(Cleared(a, b), Common(a, b)) == a
  {
  }

  lemma DeliverReady(e: Event, t: nat)
    requires Inv(e.k) && t in Queue(e.k, e.w) && t in e.asks
    ensures Readied(e, DeliverF(e, t), [t]) && t in e.k.threads
  {
    hide Inv, Queue, ResumeF, E.Moved, Received, Cleared;
    QueueLaw(e.k, e.w);
    Usable(e.k);
    E.ResumeLaw(e.k, t);
    E.MovedThread(e.k, DeliverF(e, t).k, t);
    E.MovedKeys(e.k, DeliverF(e, t).k, t);
  }

  lemma ReadiedMore(e: Event, e1: Event, e': Event, t: nat, ts: seq<nat>)
    requires Readied(e, e1, [t]) && Readied(e1, e', ts) && t !in ts && t in e.k.threads
    ensures Readied(e, e', [t] + ts)
  {
  }

  // ----- every step keeps the invariant

  // After a send no waiter is satisfied, although the set shrank on the way: exactly the threads that
  // left the list got their events, in the order in which they were served.
  lemma SendLaw(e: Event, bits: bv32)
    requires EventInv(e)
    ensures var (e', error, ds) := SendF(e, bits);
            && EventInv(e') && e'.w == e.w && e'.flag == e.flag && (error == Ok <==> bits != 0)
            && (bits != 0 ==>
                  && Exact(ds, Joined(e.events, bits), e.asks)
                     && e'.events == Cleared(Joined(e.events, bits), Consumed(ds))
                  && InLine(Whom(ds), Queue(e.k, e.w)) && Readied(e, e', Whom(ds)))
            && (bits == 0 ==> e' == e && error == Failed)
            && Deliveries(ds) && Bounded(ds, Joined(e.events, bits))
            && (forall t :: t in Queue(e'.k, e.w) ==> t in Queue(e.k, e.w))
            && (forall t :: t in Queue(e.k, e.w) ==>
                  (t !in Queue(e'.k, e.w) <==> exists i :: 0 <= i < |ds| && ds[i].t == t))
            && (forall d :: d in ds ==> d.t in e'.asks && e'.asks[d.t].want == d.got)
  {
    hide Inv, Queue, EventInv0, Deliveries, Bounded, WalkF, Satisfied, Account, Exact, Consumed, InLine, Readied, Whom,
        Joined, Cleared, Common;
    if bits == 0 {
      NoDeliveries(Joined(e.events, bits));
    } else {
      MoreEvents(e, Joined(e.events, bits));
      WalkExact(e.(events := Joined(e.events, bits)), 0);
      assert Queue(e.k, e.w)[0..] == Queue(e.k, e.w);
      SameReadied(e, e.(events := Joined(e.events, bits)), SendF(e, bits).0, Whom(SendF(e, bits).2));
      WalkLaw(e.(events := Joined(e.events, bits)), 0);
    }
  }

  lemma SameReadied(e: Event, e0: Event, e': Event, ts: seq<nat>)
    requires e0 == e.(events := e0.events)
    ensures Readied(e0, e', ts) ==> Readied(e, e', ts)
  {
  }

  lemma MoreEvents(e: Event, now: bv32)
    requires EventInv0(e)
    ensures EventInv0(e.(events := now))
  {
  }

  // A receive whose condition holds gives all the events asked for that are there, and takes what was asked
  // for out of the set if told to; any other is refused, or puts the running thread on the list with its
  // request.
  lemma RecvInv(e: Event, a: Ask, timeout: int)
    requires EventInv(e) && Free(e.k, e.inside)
    ensures EventInv(RecvF(e, a, timeout).0)
    ensures var (e', r, got), t := RecvF(e, a, timeout), e.k.current;
            if a.want == 0 then (e', r, got) == (e, Done(Failed), 0)
            else if Satisfied(e.events, a) then
              && r == Done(Ok) && got == Common(a.want, e.events) && got != 0 && (a.all ==> got == a.want)
              && e'.events == (if a.clear then Cleared(e.events, a.want) else e.events)
              && ErrorOnly(e.k, e'.k, t, Ok) && e' == e.(k := e'.k, events := e'.events)
            else if timeout == 0 then
              r == Done(Timeout) && got == 0 && ErrorOnly(e.k, e'.k, t, Timeout) && e' == e.(k := e'.k)
            else
              && r == Blocked && HasBlocked(e.k, e'.k, e.w, e.flag, timeout > 0)
              && e' == e.(k := e'.k, asks := e.asks[t := a], inside := e.inside[t := false])
  {
    hide Inv, Queue, EventInv0, Unsatisfied, Satisfied, Common, Within, Disjoint, BlockF, Cleared, HasBlocked;
    InvParts(e);
    var t := e.k.current;
    if a.want != 0 {
      ErrorInv(e.k, t, Ok);
      OwnError(e.k, e.w, e.inside, Ok);
      var k := ErrorF(e.k, t, Ok);
      if Satisfied(e.events, a) {
        ReceivedSome(e.events, a);
        RecvAll(e.events, a);
        KeptInv(e, e.(k := k, events := if a.clear then Cleared(e.events, a.want) else e.events), a.want);
      } else if timeout == 0 {
        ErrorInv(k, t, Timeout);
        OwnError(k, e.w, e.inside, Timeout);
        KeptInv(e, e.(k := ErrorF(k, t, Timeout)), 0);
        SameError(e.k, t);
      } else {
        Usable(k);
        WaitInv(e, a, timeout > 0);
        BlockedIs(e.k, e.w, e.flag, timeout > 0);
      }
    }
  }

  lemma SameError(k: K, t: nat)
    requires t in k.threads
    ensures ErrorF(ErrorF(k, t, Ok), t, Timeout) == ErrorF(k, t, Timeout)
  {
    assert ErrorF(ErrorF(k, t, Ok), t, Timeout).threads == ErrorF(k, t, Timeout).threads;
  }

  lemma InvParts(e: Event)
    requires EventInv(e)
    ensures Inv(e.k) && Account(e.k, e.w, e.inside) && EventInv0(e)
  {
  }

  // What rt_event_recv reports and clears when it need not wait.
  lemma RecvAll(now: bv32, a: Ask)
    ensures Satisfied(now, a) && a.all ==> Common(a.want, now) == a.want
    ensures Satisfied(now, a) ==> Common(a.want, now) == Received(now, a)
    ensures Disjoint(Cleared(now, a.want), Common(a.want, now))
  {
    ClearedApart(now, a.want);
  }

  lemma ClearedApart(now: bv32, want: bv32)
    ensures Disjoint(Cleared(now, want), Common(want, now))
  {
  }

  // The running thread takes from the event set: still no waiter is satisfied.
  lemma KeptInv(e: Event, e': Event, bits: bv32)
    requires EventInv(e) && Inv(e'.k) && Account(e'.k, e.w, e.inside) && Queue(e'.k, e.w) == Queue(e.k, e.w)
    requires e' == e.(k := e'.k, events := e'.events) && (e'.events == e.events || e'.events == Cleared(e.events, bits))
    ensures EventInv(e')
  {
    hide Inv, Queue, Satisfied, Account, Cleared;
    forall i | 0 <= i < |Queue(e'.k, e.w)|
      ensures var t := Queue(e'.k, e.w)[i]; t in e'.asks && !Satisfied(e'.events, e'.asks[t])
    {
      ShrinkKeeps(e.events, bits, e.asks[Queue(e.k, e.w)[i]]);
    }
  }

  lemma WaitInv(e: Event, a: Ask, timed: bool)
    requires EventInv(e) && Free(e.k, e.inside) && a.want != 0 && !Satisfied(e.events, a)
    requires var k := ErrorF(e.k, e.k.current, Ok);
             Inv(k) && Account(k, e.w, e.inside) && Queue(k, e.w) == Queue(e.k, e.w)
             && forall l, t :: On(k.lists, l, t) ==> t in k.threads
    ensures var t := e.k.current;
            EventInv(e.(k := BlockF(ErrorF(e.k, t, Ok), e.w, e.flag, timed), asks := e.asks[t := a],
                inside := e.inside[t := false]))
  {
    hide Inv, Queue, Satisfied, Account, BlockF, Enqueue;
    var t := e.k.current;
    var k := ErrorF(e.k, t, Ok);
    AccountBlock(k, e.w, e.flag, timed, e.inside);
    BlockQueue(k, e.w, e.flag, timed);
    var q := Queue(BlockF(k, e.w, e.flag, timed), e.w);
    EnqueueMembers(e.flag, Queue(k, e.w), Prios(k), t);
    forall i | 0 <= i < |q|
      ensures q[i] == t || (q[i] in e.asks && !Satisfied(e.events, e.asks[q[i]]))
      ensures q[i] == t || q[i] in e.inside
    {
      if q[i] != t {
        assert q[i] in Queue(e.k, e.w);
        var j :| 0 <= j < |Queue(e.k, e.w)| && Queue(e.k, e.w)[j] == q[i];
      }
    }
  }

  // A thread that had blocked returns success if its event was delivered, with what the sender recorded
  // for it, and also if it goes on while it still waits, then with all the events it asked for.
  lemma ReturnInv(e: Event)
    requires EventInv(e) && e.k.current in e.inside
    ensures e.k.current in e.asks
    ensures var (e', error, got) := ReturnF(e);
            && (EventInv(e') <==> e.k.current !in Queue(e.k, e.w)) && e' == e.(inside := e.inside - {e.k.current})
            && (error == Ok <==> e.inside[e.k.current] || e.k.current in Queue(e.k, e.w))
            && (error == Ok ==> got == e.asks[e.k.current].want && got != 0)
    ensures e.k.current in Queue(e.k, e.w) ==> !Satisfied(e.events, e.asks[e.k.current])
    ensures e.k.threads[e.k.current].stat == Running ==> e.k.current !in Queue(e.k, e.w)
  {
    hide Inv, Queue, Satisfied, Account;
    Usable(e.k);
    AccountReturn(e.k, e.w, e.inside);
    QueueLaw(e.k, e.w);
    if e.k.current in Queue(e.k, e.w) { WaiterUnsatisfied(e, e.k.current); }
  }

  lemma ResetInv(e: Event)
    requires EventInv(e)
    ensures EventInv(ResetF(e)) && AllFailed(e.k, ResetF(e).k, e.w)
    ensures ResetF(e) == e.(k := ResetF(e).k, events := 0)
  {
    hide Inv, Queue, Satisfied, Account, WakeAllF;
    AccountWakeAll(e.k, e.w, e.inside);
    WakeAllLaw(e.k, e.w);
  }

  lemma OtherInv(e: Event, c: Call)
    requires EventInv(e) && Outside(e.k, e.w, e.inside, c)
    ensures Legal(e.k, c) && EventInv(OtherF(e, c))
    ensures OtherF(e, c) == e.(k := CallF(e.k, c), inside := After(e.inside, c))
  {
    hide Inv, Queue, Satisfied, Account, CallF, Outside;
    OutsideLegal(e.k, e.w, e.inside, c);
    OutsideQueue(e.k, e.w, e.inside, c);
    AccountCall(e.k, e.w, e.inside, c);
    var e' := OtherF(e, c);
    AccountMembers(e'.k, e.w, e'.inside);
    forall i | 0 <= i < |Queue(e'.k, e.w)|
      ensures var t := Queue(e'.k, e.w)[i]; t in e'.asks && !Satisfied(e'.events, e'.asks[t])
    {
      var t := Queue(e'.k, e.w)[i];
      assert t in Queue(e.k, e.w);
      var j :| 0 <= j < |Queue(e.k, e.w)| && Queue(e.k, e.w)[j] == t;
    }
  }

  lemma AccountMembers(k: K, w: nat, inside: map<nat, bool>)
    requires Account(k, w, inside)
    ensures forall t :: t in Queue(k, w) ==> t in inside
  {
  }

  // ----- where the program does not keep it

  // A receive that blocks returns success at once, with events that are not there, exactly if the
  // scheduler is locked or no other thread is ready.
  lemma SuccessWithoutEvent(e: Event, a: Ask, timeout: int)
    requires EventInv(e) && Free(e.k, e.inside) && a.want != 0 && !Satisfied(e.events, a) && timeout != 0
    ensures Inv(RecvF(e, a, timeout).0.k)
    ensures var t, e2 := e.k.current, OtherF(RecvF(e, a, timeout).0, Call.Schedule);
            && (e2.k.current == t <==> e.k.lock != 0 || !AnyReady(e.k))
            && (e2.k.current == t ==>
                  && t in e2.k.threads && t in e2.asks && e2.events == e.events
                  && ReturnF(e2).1 == Ok && ReturnF(e2).2 == a.want && !EventInv(ReturnF(e2).0))
  {
    hide Inv, Queue, BlockF, Account, CallF, EventInv, Satisfied;
    RecvInv(e, a, timeout);
    InvParts(e);
    InvParts(RecvF(e, a, timeout).0);
    BlockedGoesOn(e, a, timeout);
    var e1 := RecvF(e, a, timeout).0;
    if CallF(e1.k, Call.Schedule).current == e.k.current { ReturnInv(e1); }
  }

  lemma BlockedGoesOn(e: Event, a: Ask, timeout: int)
    requires EventInv(e) && Free(e.k, e.inside) && a.want != 0 && !Satisfied(e.events, a) && timeout != 0
    ensures Inv(RecvF(e, a, timeout).0.k)
    ensures var t, e1 := e.k.current, RecvF(e, a, timeout).0;
            && e1.k.current == t && t in e1.inside && t in Queue(e1.k, e1.w) && e1.events == e.events
            && t in e1.asks && e1.asks[t] == a
            && (CallF(e1.k, Call.Schedule).current == t <==> e.k.lock != 0 || !AnyReady(e.k))
            && (CallF(e1.k, Call.Schedule).current == t ==> OtherF(e1, Call.Schedule) == e1)
  {
    hide Inv, Queue, BlockF, Account, CallF, Satisfied;
    var t := e.k.current;
    ErrorInv(e.k, t, Ok);
    var k := ErrorF(e.k, t, Ok);
    Usable(k);
    GoesOn(k, e.w, e.flag, timeout > 0);
    SameReady(e.k, k);
  }

  // rt_thread_resume on a waiter breaks the account: the waiter returns success with all the events it
  // asked for, although they are not there.
  lemma ResumedByOutsider(e: Event, t: nat)
    requires EventInv(e) && t in e.k.threads
    ensures Inv(e.k) && Legal(e.k, Call.Resume(t))
    ensures EventInv(OtherF(e, Call.Resume(t))) <==> t !in Queue(e.k, e.w)
    ensures var e' := OtherF(e, Call.Resume(t));
            t in Queue(e.k, e.w) ==>
              && t !in Queue(e'.k, e.w) && t in e'.k.threads && e'.k.threads[t].error == Ok
              && t in e'.asks && !Satisfied(e'.events, e'.asks[t])
  {
    InvParts(e);
    if t in Queue(e.k, e.w) {
      WaiterUnsatisfied(e, t);
      QueueLaw(e.k, e.w);
      CallQueue(e.k, Call.Resume(t), e.w);
      CallThreads(e.k, Call.Resume(t));
      WithoutIs(Queue(e.k, e.w), t);
      hide Queue, Inv, CallF, Satisfied;
      var e' := OtherF(e, Call.Resume(t));
      assert !Account(e'.k, e'.w, e'.inside);
    } else {
      OtherInv(e, Call.Resume(t));
    }
  }

  // ----- runs

  datatype Step = Send(bits: bv32) | Recv(ask: Ask, timeout: int) | Return | Reset | Other(call: Call)

  ghost predicate Allowed(e: Event, step: Step)
    requires Inv(e.k)
  {
    match step
    case Send(_) => true
    case Recv(_, _) => Free(e.k, e.inside)
    case Return => e.k.threads[e.k.current].stat == Running && e.k.current in e.inside
    case Reset => true
    case Other(c) => Outside(e.k, e.w, e.inside, c)
  }

  ghost function StepF(e: Event, step: Step): (e': Event)
    requires EventInv(e) && Allowed(e, step)
  {
    match step
    case Send(bits) => SendF(e, bits).0
    case Recv(a, timeout) => RecvF(e, a, timeout).0
    case Return => ReturnF(e).0
    case Reset => ResetF(e)
    case Other(c) => OtherF(e, c)
  }

  lemma StepInv(e: Event, step: Step)
    requires EventInv(e) && Allowed(e, step)
    ensures EventInv(StepF(e, step)) && StepF(e, step).w == e.w && StepF(e, step).flag == e.flag
  {
    hide EventInv, SendF, RecvF, ReturnF, ResetF, OtherF;
    InvParts(e);
    match step
    case Send(bits) => SendLaw(e, bits);
    case Recv(a, timeout) => RecvInv(e, a, timeout);
    case Return => ReturnInv(e);
    case Reset => ResetInv(e);
    case Other(c) => OtherInv(e, c);
  }

  ghost predicate AllowedRun(e: Event, steps: seq<Step>)
    requires EventInv(e)
    decreases |steps|
  {
    steps == []
    || (Allowed(e, steps[0]) && (StepInv(e, steps[0]); AllowedRun(StepF(e, steps[0]), steps[1..])))
  }

  ghost function Run(e: Event, steps: seq<Step>): (e': Event)
    requires EventInv(e) && AllowedRun(e, steps)
    ensures EventInv(e')
    decreases |steps|
  {
    if steps == [] then e else StepInv(e, steps[0]); Run(StepF(e, steps[0]), steps[1..])
  }

  // In every reachable state no suspended thread waits for events that are already there.
  lemma {:induction false} NobodyWaitsInVain(e: Event, steps: seq<Step>, t: nat)
    requires EventInv(e) && AllowedRun(e, steps)
    ensures var e' := Run(e, steps);
            t in Queue(e'.k, e.w) ==> t in e'.asks && !Satisfied(e'.events, e'.asks[t])
    decreases |steps|
  {
    hide EventInv, Satisfied, StepF, Allowed, Queue;
    if steps == [] {
      if t in Queue(e.k, e.w) { WaiterUnsatisfied(e, t); }
    } else {
      StepInv(e, steps[0]);
      NobodyWaitsInVain(StepF(e, steps[0]), steps[1..], t);
    }
  }

  // Thread t does not return and is not deleted.
  ghost predicate StaysInside(e: Event, steps: seq<Step>, t: nat)
    requires EventInv(e) && AllowedRun(e, steps)
    decreases |steps|
  {
    steps == []
    || (&& !(steps[0].Return? && e.k.current == t) && steps[0] != Other(Call.Delete(t))
        && (StepInv(e, steps[0]); StaysInside(StepF(e, steps[0]), steps[1..], t)))
  }

  // What a waiter asked for stays what it asked for until a send serves it; and what it was then given
  // stays until it returns.
  lemma AskKept(e: Event, step: Step, t: nat)
    requires EventInv(e) && Allowed(e, step) && t in e.inside
    requires !(step.Return? && e.k.current == t) && step != Other(Call.Delete(t))
    ensures var e' := StepF(e, step);
            && t in e.asks && t in e'.inside && t in e'.asks
            && (t !in Queue(e.k, e.w) ==>
                  t !in Queue(e'.k, e.w) && e'.asks[t] == e.asks[t] && e'.inside[t] == e.inside[t])
            && (t in Queue(e.k, e.w) && t in Queue(e'.k, e.w) ==> e'.asks[t] == e.asks[t])
  {
    hide Inv, EventInv0, Unsatisfied, Account, Queue, WalkF, CallF, WakeAllF, BlockF, Satisfied, Exact, Deliveries,
        Bounded, Consumed, SendF, RecvF, ReturnF, ResetF, HasBlocked, AllFailed, Outside;
    InvParts(e);
    InsideAsks(e);
    match step
    case Send(bits) => SendLaw(e, bits); SendKept(e, bits, t);
    case Recv(a, timeout) => RecvKept(e, a, timeout, t);
    case Return => ReturnInv(e);
    case Reset => ResetInv(e); NotQueued(e, ResetF(e), t);
    case Other(c) => OtherInv(e, c); OutsideLegal(e.k, e.w, e.inside, c); OutsideQueue(e.k, e.w, e.inside, c);
  }

  lemma {:induction false} AskKeptRun(e: Event, steps: seq<Step>, t: nat)
    requires EventInv(e) && AllowedRun(e, steps) && StaysInside(e, steps, t) && t in e.inside
    ensures var e' := Run(e, steps);
            && t in e.asks && t in e'.inside && t in e'.asks && e'.w == e.w
            && (t !in Queue(e.k, e.w) ==>
                  t !in Queue(e'.k, e.w) && e'.asks[t] == e.asks[t] && e'.inside[t] == e.inside[t])
            && (t in Queue(e'.k, e.w) ==> e'.asks[t] == e.asks[t])
    decreases |steps|
  {
    hide EventInv, StepF, Allowed, Queue;
    InsideAsks(e);
    if steps != [] {
      StepInv(e, steps[0]);
      AskKept(e, steps[0], t);
      AskKeptRun(StepF(e, steps[0]), steps[1..], t);
    }
  }

  // A thread that has to wait for its events is served by the first send after which its request, as it
  // made it, is satisfied at its turn; and when it returns, it returns all that was there of it then.
  lemma DeliveredAsAsked(e: Event, a: Ask, timeout: int, mid: seq<Step>, bits: bv32, later: seq<Step>)
    requires EventInv(e) && Free(e.k, e.inside) && RecvF(e, a, timeout).1 == Blocked
    requires EventInv(RecvF(e, a, timeout).0) && AllowedRun(RecvF(e, a, timeout).0, mid)
    requires StaysInside(RecvF(e, a, timeout).0, mid, e.k.current)
    requires var t, e2 := e.k.current, Run(RecvF(e, a, timeout).0, mid);
             var e3 := SendF(e2, bits).0;
             && t in Queue(e2.k, e.w) && t !in Queue(e3.k, e.w)
             && EventInv(e3) && AllowedRun(e3, later) && StaysInside(e3, later, t) && Run(e3, later).k.current == t
    ensures var t, e2 := e.k.current, Run(RecvF(e, a, timeout).0, mid);
            var e4 := Run(SendF(e2, bits).0, later);
            && t in e4.k.threads && t in e4.asks && ReturnF(e4).1 == Ok
            && exists d :: d in SendF(e2, bits).2 && d.t == t && Fulfils(d, a) && ReturnF(e4).2 == d.got
  {
    hide Inv, EventInv0, Unsatisfied, Account, Queue, Satisfied, Deliveries, Bounded, Consumed, SendF, RecvF, StepF,
        Allowed, HasBlocked, Fulfils, InLine, Exact, EventInv, Common, Joined, Cleared, AllowedRun, Run;
    var t, e1 := e.k.current, RecvF(e, a, timeout).0;
    RecvInv(e, a, timeout);
    AskKeptRun(e1, mid, t);
    var e2 := Run(e1, mid);
    SendLaw(e2, bits);
    var (e3, error, ds) := SendF(e2, bits);
    var i :| 0 <= i < |ds| && ds[i].t == t;
    WhomOnly(ds, t);
    ExactAt(ds, Joined(e2.events, bits), e2.asks, i);
    AskKeptRun(e3, later, t);
    var e4 := Run(e3, later);
    ServedNow(e2, e3, Whom(ds), t);
    ReturnInv(e4);
    InvParts(e4);
    Usable(e4.k);
    assert ds[i] in ds;
  }

  lemma ServedNow(e: Event, e': Event, ts: seq<nat>, t: nat)
    requires Readied(e, e', ts) && t in ts && t in e.inside
    ensures t in e'.inside && e'.inside[t]
  {
  }

  lemma {:induction false} ExactAt(ds: seq<Delivery>, now: bv32, asks: map<nat, Ask>, i: nat)
    requires Exact(ds, now, asks) && i < |ds|
    ensures ds[i].t in asks && Fulfils(ds[i], asks[ds[i].t])
  {
    hide Fulfils, Cleared;
    if i > 0 { ExactAt(ds[1..], if ds[0].clear then Cleared(now, ds[0].got) else now, asks, i - 1); }
  }

  lemma InsideAsks(e: Event)
    requires EventInv(e)
    ensures forall t :: t in e.inside ==> t in e.asks
  {
  }

  lemma NotQueued(e: Event, e': Event, t: nat)
    requires AllFailed(e.k, e'.k, e.w)
    ensures t !in Queue(e'.k, e.w)
  {
    hide Queue;
  }

  lemma SendKept(e: Event, bits: bv32, t: nat)
    requires EventInv(e) && t in e.inside && t in e.asks
    requires var (e', error, ds) := SendF(e, bits);
             && EventInv(e') && (bits != 0 ==> Readied(e, e', Whom(ds)))
             && (forall u :: u in Queue(e.k, e.w) ==>
                   (u !in Queue(e'.k, e.w) <==> exists i :: 0 <= i < |ds| && ds[i].t == u))
             && (bits == 0 ==> e' == e) && (forall u :: u in Queue(e'.k, e.w) ==> u in Queue(e.k, e.w))
             && (bits != 0 ==> InLine(Whom(ds), Queue(e.k, e.w)))
    ensures var e' := SendF(e, bits).0;
            && t in e'.inside && t in e'.asks
            && (t !in Queue(e.k, e.w) ==>
                  t !in Queue(e'.k, e.w) && e'.asks[t] == e.asks[t] && e'.inside[t] == e.inside[t])
            && (t in Queue(e.k, e.w) && t in Queue(e'.k, e.w) ==> e'.asks[t] == e.asks[t])
  {
    hide EventInv, Queue, SendF, InLine;
    var (e', error, ds) := SendF(e, bits);
    InsideAsks(e');
    if bits != 0 {
      InLineMembers(Whom(ds), Queue(e.k, e.w));
      WhomOnly(ds, t);
    }
  }

  lemma RecvKept(e: Event, a: Ask, timeout: int, t: nat)
    requires EventInv(e) && Free(e.k, e.inside) && t in e.inside && t in e.asks
    ensures var e' := RecvF(e, a, timeout).0;
            && t in e'.inside && t in e'.asks && e'.asks[t] == e.asks[t] && e'.inside[t] == e.inside[t]
            && (t in Queue(e'.k, e.w) <==> t in Queue(e.k, e.w))
  {
    hide EventInv, RecvF, Satisfied, HasBlocked;
    RecvInv(e, a, timeout);
    var e' := RecvF(e, a, timeout).0;
    if HasBlocked(e.k, e'.k, e.w, e.flag, timeout > 0) { BlockedMembers(e.k, e'.k, e.w, e.flag, timeout > 0); }
  }

  lemma {:induction false} WhomOnly(ds: seq<Delivery>, t: nat)
    ensures t in Whom(ds) <==> exists i :: 0 <= i < |ds| && ds[i].t == t
  {
    if ds != [] {
      WhomOnly(ds[1..], t);
      assert Whom(ds) == [ds[0].t] + Whom(ds[1..]);
      if t in Whom(ds[1..]) {
        var i :| 0 <= i < |ds[1..]| && ds[1..][i].t == t;
        assert ds[i + 1].t == t;
      }
      if ds[0].t == t { assert ds[0].t == t; }
      if i :| 0 <= i < |ds| && ds[i].t == t {
        if i > 0 { assert ds[1..][i - 1].t == t; }
      }
    }
  }

  lemma WaiterUnsatisfied(e: Event, t: nat)
    requires EventInv(e) && t in Queue(e.k, e.w)
    ensures t in e.asks && !Satisfied(e.events, e.asks[t])
  {
    hide Queue, Satisfied, Account, Inv;
    var i :| 0 <= i < |Queue(e.k, e.w)| && Queue(e.k, e.w)[i] == t;
  }
}
