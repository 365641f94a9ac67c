// The timers of timer.c as values: which timers are listed, in what order, and what one call or one
// clock tick does to them. TimerList.dfy ties the skip list to the functions of this module.
module TimerModel {
  import opened Rings

  const WORD: int := 0x1_0000_0000
  const HALF: int := 0x7fff_ffff      // RT_TICK_MAX / 2

  // rt_tick_t subtraction: 32 bits, wrapping.
  function Sub(a: int, b: int): (d: int)
    ensures 0 <= d < WORD
  {
    (a - b) % WORD
  }

  // `started` numbers the start calls; the program has no such field, the ordering law refers to it.
  datatype Timer = Timer(timeout: int, init: int, periodic: bool, activated: bool, started: nat)

  datatype Action = Start(id: nat) | Stop(id: nat) | SetTime(id: nat, ticks: int) | SetPeriodic(id: nat, on: bool)

  // `acts` tells what the timeout functions will do to timers, call by call: its first entry is what the
  // next one to be called does, whichever timer that belongs to.
  datatype TS = TS(now: int, timers: map<nat, Timer>, pending: seq<nat>, starts: nat, acts: seq<seq<Action>>)

  // Where the insertion loop of rt_timer_start stops on one row: before the first timer that
  // expires later.
  function Rank(row: seq<nat>, timers: map<nat, Timer>, timeout: int): (k: nat)
    requires forall u :: u in row ==> u in timers
    ensures k <= |row|
  {
    if row == [] || 0 < Sub(timers[row[0]].timeout, timeout) < HALF then 0
    else 1 + Rank(row[1..], timers, timeout)
  }

  ghost predicate Known(s: TS) {
    forall u :: u in s.pending ==> u in s.timers
  }

  // The tick at which timer t expires when it is started now.
  function Expiry(s: TS, t: nat): int
    requires t in s.timers
  {
    (s.now + s.timers[t].init) % WORD
  }

  // rt_timer_start
  function StartF(s: TS, t: nat): (s': TS)
    requires t in s.timers && Known(s)
  {
    var rest := Without(s.pending, t);
    var timers := s.timers[t := s.timers[t].(timeout := Expiry(s, t), activated := true, started := s.starts)];
    TS(s.now, timers, Insert(rest, Rank(rest, s.timers, Expiry(s, t)), t), s.starts + 1, s.acts)
  }

  // The code of rt_timer_start in three parts, with interrupts enabled in between: the timer leaves the
  // list, it gets its new timeout, and it is put in.
  function StartBeginF(s: TS, t: nat): (s': TS)
    requires t in s.timers
    ensures s'.timers.Keys == s.timers.Keys
  {
    s.(pending := Without(s.pending, t), timers := s.timers[t := s.timers[t].(activated := false)])
  }

  function StartTimeF(s: TS, t: nat): (s': TS)
    requires t in s.timers
    ensures s'.timers.Keys == s.timers.Keys
  {
    s.(timers := s.timers[t := s.timers[t].(timeout := Expiry(s, t))])
  }

  function StartEndF(s: TS, t: nat): (s': TS)
    requires t in s.timers && Known(s)
    ensures s'.timers.Keys == s.timers.Keys
  {
    TS(s.now, s.timers[t := s.timers[t].(activated := true, started := s.starts)],
       Insert(s.pending, Rank(s.pending, s.timers, s.timers[t].timeout), t), s.starts + 1, s.acts)
  }

  // Without interruption they are the whole call.
  lemma StartParts(s: TS, t: nat)
    requires Known(s) && Distinct(s.pending) && t in s.timers
    ensures var s1 := StartTimeF(StartBeginF(s, t), t);
            Known(s1) && StartEndF(s1, t) == StartF(s, t)
  {
    hide Distinct, Rank, Insert, Without, Sub;
    WithoutIs(s.pending, t);
    var s1 := StartTimeF(StartBeginF(s, t), t);
    var tm := s.timers[t].(timeout := Expiry(s, t), activated := false);
    assert s1.timers == s.timers[t := tm];
    assert s1.timers[t := tm.(activated := true, started := s.starts)] ==
           s.timers[t := tm.(activated := true, started := s.starts)];
    RankFrame(s1.pending, s.timers, s1.timers, Expiry(s, t));
  }

  lemma {:induction false} RankFrame(row: seq<nat>, timers: map<nat, Timer>, timers': map<nat, Timer>, timeout: int)
    requires forall u :: u in row ==> u in timers && u in timers' && timers'[u] == timers[u]
    ensures Rank(row, timers, timeout) == Rank(row, timers', timeout)
  {
    if row != [] { RankFrame(row[1..], timers, timers', timeout); }
  }

  // rt_timer_stop: nothing happens unless the timer is flagged active.
  function StopF(s: TS, t: nat): (s': TS)
    requires t in s.timers
  {
    if !s.timers[t].activated then s
    else StopEndF(StopBeginF(s, t), t)
  }

  // Its two parts once it has found the flag: the removal, and after it, with interrupts enabled, the
  // write of the flag.
  function StopBeginF(s: TS, t: nat): (s': TS) { s.(pending := Without(s.pending, t)) }

  function StopEndF(s: TS, t: nat): (s': TS)
    requires t in s.timers
  {
    s.(timers := s.timers[t := s.timers[t].(activated := false)])
  }

  function ActF(s: TS, a: Action): (s': TS)
    requires Known(s)
  {
    if a.id !in s.timers then s
    else match a
      case Start(t) => StartF(s, t)
      case Stop(t) => StopF(s, t)
      case SetTime(t, n) => s.(timers := s.timers[t := s.timers[t].(init := n)])
      case SetPeriodic(t, on) => s.(timers := s.timers[t := s.timers[t].(periodic := on)])
  }

  lemma ActKnown(s: TS, a: Action)
    requires Known(s)
    ensures Known(ActF(s, a)) && ActF(s, a).timers.Keys == s.timers.Keys
    ensures ActF(s, a).now == s.now && ActF(s, a).acts == s.acts
  {
    if a.id in s.timers && a.Start? {
      InsertMembers(Without(s.pending, a.id), Rank(Without(s.pending, a.id), s.timers, Expiry(s, a.id)), a.id);
    }
  }

  function ActsF(s: TS, acts: seq<Action>): (s': TS)
    requires Known(s)
    ensures Known(s') && s'.timers.Keys == s.timers.Keys && s'.now == s.now && s'.acts == s.acts
    decreases |acts|
  {
    if acts == [] then s else ActKnown(s, acts[0]); ActsF(ActF(s, acts[0]), acts[1..])
  }

  // What the timeout function called next does, and what is left for the later ones.
  function NextActs(s: TS): seq<Action> {
    if s.acts == [] then [] else s.acts[0]
  }

  function LaterActs(s: TS): seq<seq<Action>> {
    if s.acts == [] then [] else s.acts[1..]
  }

  // Timer t has left the list and its function is about to run.
  function Taken(s: TS, t: nat): (s': TS)
    requires Known(s)
    ensures Known(s')
  {
    s.(pending := Without(s.pending, t), acts := LaterActs(s))
  }

  predicate Due(s: TS, t: nat)
    requires t in s.timers
  {
    Sub(s.now, s.timers[t].timeout) < HALF
  }

  // One turn of the loop of rt_timer_check: timer t leaves the list, its function runs, and it is
  // started again if it is periodic and still active.
  function FireF(s: TS, t: nat): (s': TS)
    requires Known(s) && t in s.timers
  {
    var s1 := ActsF(Taken(s, t), NextActs(s));
    var t1 := s1.timers[t];
    var s2 := s1.(timers := s1.timers[t := t1.(activated := false)]);
    if t1.periodic && t1.activated then StartF(s2, t) else s2
  }

  // ----- the invariant

  function Ahead(s: TS, t: nat): int
    requires t in s.timers
  {
    Sub(s.timers[t].timeout, s.now)
  }

  predicate WellSetAction(a: Action) {
    a.SetTime? ==> 1 <= a.ticks < HALF
  }

  // Periods lie in the range rt_timer_start asserts, and none is zero.
  ghost predicate WellSet(s: TS) {
    && 0 <= s.now < WORD
    && (forall t :: t in s.timers ==> 1 <= s.timers[t].init < HALF && 0 <= s.timers[t].timeout < WORD)
    && (forall n, i :: 0 <= n < |s.acts| && 0 <= i < |s.acts[n]| ==> WellSetAction(s.acts[n][i]))
  }

  // u expires before v, or together with v but was started first.
  ghost predicate Before(s: TS, u: nat, v: nat)
    requires u in s.timers && v in s.timers
  {
    Ahead(s, u) < Ahead(s, v) || (Ahead(s, u) == Ahead(s, v) && s.timers[u].started < s.timers[v].started)
  }

  ghost predicate Sorted(s: TS)
    requires Known(s)
  {
    forall i, j :: 0 <= i < j < |s.pending| ==> Before(s, s.pending[i], s.pending[j])
  }

  // The list holds each listed timer once, ordered by remaining time and start order, and no listed
  // timer is overdue.
  ghost predicate Inv(s: TS) {
    && Known(s) && Distinct(s.pending) && WellSet(s) && Sorted(s)
    && (forall u :: u in s.pending ==> Ahead(s, u) < HALF && s.timers[u].started < s.starts)
  }

  // Wrapping subtraction orders timeouts that lie less than half the range ahead of now.
  lemma SubOrder(x: int, y: int, now: int)
    requires Sub(x, now) < HALF && Sub(y, now) < HALF
    ensures Sub(x, y) == if Sub(x, now) >= Sub(y, now) then Sub(x, now) - Sub(y, now) else WORD + Sub(x, now) - Sub(y,
            now)
    ensures 0 < Sub(x, y) < HALF <==> Sub(y, now) < Sub(x, now)
  {
    var a, b, q := Sub(x, now), Sub(y, now), (x - now) / WORD - (y - now) / WORD;
    assert x - y == WORD * q + a - b;
    if a >= b { ModIs(x - y, q, a - b); } else { ModIs(x - y, q - 1, WORD + a - b); }
  }

  lemma ModIs(z: int, q: int, r: int)
    requires z == WORD * q + r && 0 <= r < WORD
    ensures z % WORD == r
  {
  }

  lemma SubAdd(now: int, d: int)
    requires 0 <= d < WORD
    ensures Sub((now + d) % WORD, now) == d
  {
  }

  lemma {:induction false} RankIs(row: seq<nat>, timers: map<nat, Timer>, timeout: int)
    requires forall u :: u in row ==> u in timers
    ensures var k := Rank(row, timers, timeout);
            && (forall i :: 0 <= i < k ==> !(0 < Sub(timers[row[i]].timeout, timeout) < HALF))
            && (k < |row| ==> 0 < Sub(timers[row[k]].timeout, timeout) < HALF)
  {
    if row != [] && !(0 < Sub(timers[row[0]].timeout, timeout) < HALF) {
      RankIs(row[1..], timers, timeout);
    }
  }

  // Taking a timer off the list keeps the rest in order.
  lemma WithoutInv(s: TS, t: nat)
    requires Inv(s)
    ensures Inv(s.(pending := Without(s.pending, t)))
  {
    WithoutIs(s.pending, t);
    var s' := s.(pending := Without(s.pending, t));
    var k := if t in s.pending then IndexOf(s.pending, t) else |s.pending|;
    forall i, j | 0 <= i < j < |s'.pending|
      ensures Before(s', s'.pending[i], s'.pending[j])
    {
      var i', j' := if i < k then i else i + 1, if j < k then j else j + 1;
      assert Before(s, s.pending[i'], s.pending[j']);
    }
  }

  // A timer that is put in goes between those that expire no later and those that expire later.
  lemma InsertSorted(s: TS, timeout: int)
    requires Inv(s) && Sub(timeout, s.now) < HALF
    ensures var k, n := Rank(s.pending, s.timers, timeout), Sub(timeout, s.now);
            && (forall i :: 0 <= i < k ==> Ahead(s, s.pending[i]) <= n)
            && (forall i :: k <= i < |s.pending| ==> Ahead(s, s.pending[i]) > n)
  {
    var k, n := Rank(s.pending, s.timers, timeout), Sub(timeout, s.now);
    RankIs(s.pending, s.timers, timeout);
    forall i | 0 <= i < k
      ensures Ahead(s, s.pending[i]) <= n
    {
      SubOrder(s.timers[s.pending[i]].timeout, timeout, s.now);
    }
    if k < |s.pending| {
      SubOrder(s.timers[s.pending[k]].timeout, timeout, s.now);
      assert forall i :: k < i < |s.pending| ==> Before(s, s.pending[k], s.pending[i]);
    }
  }

  lemma StartInv(s: TS, t: nat)
    requires Inv(s) && t in s.timers
    ensures Inv(StartF(s, t))
    ensures Ahead(StartF(s, t), t) == s.timers[t].init && t in StartF(s, t).pending
    ensures forall u :: u != t ==> (u in StartF(s, t).pending <==> u in s.pending)
  {
    assert Known(s) && Distinct(s.pending) && WellSet(s);
    hide Inv, StartF, StartEndF, Without, Distinct, Ahead;
    WithoutIs(s.pending, t);
    StartParts(s, t);
    StartTimed(s, t);
    StartEndInv(StartTimeF(StartBeginF(s, t), t), t);
  }

  // With its new timeout, and off the list, a timer disturbs nobody.
  lemma StartTimed(s: TS, t: nat)
    requires Inv(s) && t in s.timers
    ensures var s1 := StartTimeF(StartBeginF(s, t), t);
            Inv(s1) && t !in s1.pending && Ahead(s1, t) == s.timers[t].init
  {
    SubAdd(s.now, s.timers[t].init);
    WithoutIs(s.pending, t);
    WithoutInv(s, t);
    var s1 := StartTimeF(StartBeginF(s, t), t);
    UnlistedChange(s.(pending := s1.pending), t, s1.timers[t]);
  }

  // Changing an unlisted timer's settings does not disturb the list.
  lemma UnlistedChange(s: TS, t: nat, tm: Timer)
    requires Inv(s) && t in s.timers && t !in s.pending && 1 <= tm.init < HALF && 0 <= tm.timeout < WORD
    ensures Inv(s.(timers := s.timers[t := tm]))
  {
    var s' := s.(timers := s.timers[t := tm]);
    forall i, j | 0 <= i < j < |s'.pending|
      ensures Before(s', s'.pending[i], s'.pending[j])
    {
      assert Before(s, s.pending[i], s.pending[j]);
    }
  }

  // The last part of rt_timer_start keeps the list in order.
  lemma StartEndInv(s: TS, t: nat)
    requires Inv(s) && t in s.timers && t !in s.pending && Ahead(s, t) < HALF
    ensures Inv(StartEndF(s, t)) && Ahead(StartEndF(s, t), t) == Ahead(s, t)
    ensures forall u :: u in StartEndF(s, t).pending <==> u == t || u in s.pending
  {
    var timeout := s.timers[t].timeout;
    var k := Rank(s.pending, s.timers, timeout);
    var s' := StartEndF(s, t);
    assert WellSet(s) && Known(s);
    InsertSorted(s, timeout);
    InsertMembers(s.pending, k, t);
    hide Inv, Sorted, Rank, Insert, Sub, Distinct;
    InsertStays(s, s', t, k, Ahead(s, t));
  }

  // It does so exactly if the timer is not listed and its timeout is not past.
  lemma StartEndExact(s: TS, t: nat)
    requires Inv(s) && t in s.timers
    ensures Inv(StartEndF(s, t)) <==> t !in s.pending && Ahead(s, t) < HALF
  {
    var k := Rank(s.pending, s.timers, s.timers[t].timeout);
    InsertMembers(s.pending, k, t);
    if t in s.pending {
      InsertedTwice(s.pending, k, t);
    } else if Ahead(s, t) < HALF {
      StartEndInv(s, t);
    } else {
      assert Ahead(StartEndF(s, t), t) == Ahead(s, t);
    }
  }

  lemma InsertStays(s0: TS, s': TS, t: nat, k: nat, n: int)
    requires Inv(s0) && t in s0.timers && t !in s0.pending && k <= |s0.pending|
    requires s'.now == s0.now && s'.pending == Insert(s0.pending, k, t) && Known(s')
    requires forall u :: u in s0.pending ==> s'.timers[u] == s0.timers[u]
    requires t in s'.timers && s'.timers[t].started == s0.starts && s'.starts == s0.starts + 1
    requires WellSet(s') && Ahead(s', t) == n && n < HALF
    requires forall i :: 0 <= i < k ==> Ahead(s0, s0.pending[i]) <= n
    requires forall i :: k <= i < |s0.pending| ==> Ahead(s0, s0.pending[i]) > n
    ensures Inv(s')
  {
    InsertMembers(s0.pending, k, t);
    assert Distinct(s'.pending) && Sorted(s') by { InsertOrder(s0, s', t, k, n); }
  }

  lemma InsertOrder(s0: TS, s': TS, t: nat, k: nat, n: int)
    requires Inv(s0) && t in s0.timers && t !in s0.pending && k <= |s0.pending|
    requires s'.now == s0.now && s'.pending == Insert(s0.pending, k, t) && Known(s')
    requires forall u :: u in s0.pending ==> s'.timers[u] == s0.timers[u]
    requires t in s'.timers && s'.timers[t].started == s0.starts && Ahead(s', t) == n
    requires forall i :: 0 <= i < k ==> Ahead(s0, s0.pending[i]) <= n
    requires forall i :: k <= i < |s0.pending| ==> Ahead(s0, s0.pending[i]) > n
    ensures Sorted(s') && Distinct(s'.pending)
  {
    forall i, j | 0 <= i < j < |s'.pending|
      ensures Before(s', s'.pending[i], s'.pending[j])
    {
      var i', j' := if i <= k then i else i - 1, if j <= k then j else j - 1;
      if i != k && j != k {
        assert Before(s0, s0.pending[i'], s0.pending[j']);
      }
    }
  }

  lemma StopInv(s: TS, t: nat)
    requires Inv(s) && t in s.timers
    ensures Inv(StopF(s, t))
  {
    if s.timers[t].activated {
      WithoutInv(s, t);
      var s1, s2 := s.(pending := Without(s.pending, t)), StopF(s, t);
      SameClocks(s1, s2);
    }
  }

  // Flags, periods and periodicity have no part in the order.
  lemma SameClocks(s1: TS, s2: TS)
    requires Inv(s1) && s2.now == s1.now && s2.pending == s1.pending && s2.starts == s1.starts && WellSet(s2)
    requires s2.timers.Keys == s1.timers.Keys
    requires forall u :: u in s1.timers ==>
               s2.timers[u].timeout == s1.timers[u].timeout && s2.timers[u].started == s1.timers[u].started
    ensures Inv(s2)
  {
    forall i, j | 0 <= i < j < |s2.pending|
      ensures Before(s2, s2.pending[i], s2.pending[j])
    {
      assert Before(s1, s1.pending[i], s1.pending[j]);
    }
  }

  lemma ActInv(s: TS, a: Action)
    requires Inv(s) && WellSetAction(a)
    ensures Inv(ActF(s, a))
  {
    if a.id in s.timers {
      match a
      case Start(t) => StartInv(s, t);
      case Stop(t) => StopInv(s, t);
      case SetTime(t, n) => SameClocks(s, ActF(s, a));
      case SetPeriodic(t, on) => SameClocks(s, ActF(s, a));
    }
  }

  lemma {:induction false} ActsInv(s: TS, acts: seq<Action>)
    requires Inv(s) && forall i :: 0 <= i < |acts| ==> WellSetAction(acts[i])
    ensures Inv(ActsF(s, acts))
    decreases |acts|
  {
    if acts != [] {
      ActInv(s, acts[0]);
      ActKnown(s, acts[0]);
      ActsInv(ActF(s, acts[0]), acts[1..]);
    }
  }

  lemma TakenInv(s: TS, t: nat)
    requires Inv(s)
    ensures Inv(Taken(s, t)) && forall i :: 0 <= i < |NextActs(s)| ==> WellSetAction(NextActs(s)[i])
  {
    WithoutInv(s, t);
    var s0 := s.(pending := Without(s.pending, t));
    SameClocks(s0, Taken(s, t));
  }
}
