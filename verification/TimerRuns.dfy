// Whole runs of the timers: clock ticks, each followed by rt_timer_check, and timer calls between
// them, in any order.
module TimerRuns {
  import opened Rings
  import opened TimerModel

  ghost function DueSet(s: TS): set<nat>
    requires Known(s)
  {
    set u | u in s.pending && Due(s, u)
  }

  // A listed timer is due exactly when no tick remains.
  lemma DueIffZero(s: TS, u: nat)
    requires Inv(s) && u in s.pending
    ensures Due(s, u) <==> Ahead(s, u) == 0
  {
    var a := Ahead(s, u);
    var q := (s.timers[u].timeout - s.now) / WORD;
    assert s.now - s.timers[u].timeout == WORD * -q - a;
    if a == 0 { ModIs(s.now - s.timers[u].timeout, -q, 0); } else { ModIs(s.now - s.timers[u].timeout, -q - 1,
        WORD - a); }
  }

  lemma ActDue(s: TS, a: Action)
    requires Inv(s) && WellSetAction(a)
    ensures Inv(ActF(s, a)) && DueSet(ActF(s, a)) <= DueSet(s)
    ensures forall u :: u != a.id && u in s.timers ==>
              ActF(s, a).timers[u] == s.timers[u] && (u in ActF(s, a).pending <==> u in s.pending)
  {
    ActInv(s, a);
    ActKnown(s, a);
    if a.id in s.timers {
      WithoutIs(s.pending, a.id);
      if a.Start? {
        StartInv(s, a.id);
        DueIffZero(ActF(s, a), a.id);
      }
    }
  }

  lemma {:induction false} ActsDue(s: TS, acts: seq<Action>, t: nat)
    requires Inv(s) && t in s.timers
    requires forall i :: 0 <= i < |acts| ==> WellSetAction(acts[i])
    ensures Inv(ActsF(s, acts)) && DueSet(ActsF(s, acts)) <= DueSet(s)
    ensures (forall i :: 0 <= i < |acts| ==> acts[i].id != t) ==>
              ActsF(s, acts).timers[t] == s.timers[t] && (t in ActsF(s, acts).pending <==> t in s.pending)
    decreases |acts|
  {
    if acts != [] {
      ActDue(s, acts[0]);
      ActKnown(s, acts[0]);
      ActsDue(ActF(s, acts[0]), acts[1..], t);
    }
  }

  // No timer's function touches timer t.
  ghost predicate Spared(s: TS, t: nat) {
    forall n, i :: 0 <= n < |s.acts| && 0 <= i < |s.acts[n]| ==> s.acts[n][i].id != t
  }

  // The state in which u's function has run.
  function Called(s: TS, u: nat): (s1: TS)
    requires Known(s) && u in s.timers
    ensures Known(s1) && s1.timers.Keys == s.timers.Keys && s1.now == s.now && s1.acts == LaterActs(s)
  {
    ActsF(Taken(s, u), NextActs(s))
  }

  // What is left of the calls to come.
  ghost predicate StillToCome(acts': seq<seq<Action>>, acts: seq<seq<Action>>) {
    |acts'| <= |acts| && acts' == acts[|acts| - |acts'|..]
  }

  lemma LaterSpared(s: TS, s': TS, t: nat)
    requires StillToCome(s'.acts, s.acts) && Spared(s, t)
    ensures Spared(s', t)
  {
    assert forall n :: 0 <= n < |s'.acts| ==> s'.acts[n] == s.acts[n + |s.acts| - |s'.acts|];
  }

  lemma CalledLaw(s: TS, u: nat, t: nat)
    requires Inv(s) && u in s.timers && t in s.timers
    ensures Inv(Called(s, u)) && DueSet(Called(s, u)) <= DueSet(s) - {u}
    ensures Spared(s, t) ==> Called(s, u).timers[t] == s.timers[t]
    ensures Spared(s, t) ==> (t in Called(s, u).pending <==> t in s.pending && t != u)
  {
    var s0 := Taken(s, u);
    TakenInv(s, u);
    WithoutIs(s.pending, u);
    ActsDue(s0, NextActs(s), t);
    assert DueSet(s0) <= DueSet(s) - {u};
  }

  // Firing u takes it off the due timers.
  lemma FireDue(s: TS, u: nat)
    requires Inv(s) && u in s.timers
    ensures Inv(FireF(s, u)) && DueSet(FireF(s, u)) <= DueSet(s) - {u}
    ensures FireF(s, u).acts == LaterActs(s) && StillToCome(FireF(s, u).acts, s.acts)
    ensures FireF(s, u).now == s.now && FireF(s, u).timers.Keys == s.timers.Keys
  {
    CalledLaw(s, u, u);
    var s1 := Called(s, u);
    var s2 := s1.(timers := s1.timers[u := s1.timers[u].(activated := false)]);
    Unflagged(s1, u);
    hide Inv, DueSet, ActF, ActsF;
    ActDue(s2, Start(u));
    assert ActF(s2, Start(u)) == StartF(s2, u) by { StartIsAct(s2, u); }
  }

  lemma StartIsAct(s: TS, u: nat)
    requires Known(s) && u in s.timers
    ensures ActF(s, Start(u)) == StartF(s, u)
  {
  }

  lemma Unflagged(s: TS, u: nat)
    requires Inv(s) && u in s.timers
    ensures var s2 := s.(timers := s.timers[u := s.timers[u].(activated := false)]);
            Inv(s2) && DueSet(s2) == DueSet(s)
  {
    SameClocks(s, s.(timers := s.timers[u := s.timers[u].(activated := false)]));
  }

  // Firing u leaves a spared timer t alone.
  lemma FireOther(s: TS, u: nat, t: nat)
    requires Inv(s) && u in s.timers && t in s.timers && Spared(s, t) && u != t
    ensures FireF(s, u).timers[t] == s.timers[t] && (t in FireF(s, u).pending <==> t in s.pending)
  {
    CalledLaw(s, u, t);
    var s1 := Called(s, u);
    var s2 := s1.(timers := s1.timers[u := s1.timers[u].(activated := false)]);
    SameClocks(s1, s2);
    hide Inv;
    if s1.timers[u].periodic && s1.timers[u].activated { StartInv(s2, u); }
  }

  // A spared timer that fires is over, or set for its next period.
  lemma FireOwn(s: TS, t: nat)
    requires Inv(s) && t in s.timers && Spared(s, t) && s.timers[t].activated
    ensures var s' := FireF(s, t);
            if s.timers[t].periodic then
              && t in s'.pending && Ahead(s', t) == s.timers[t].init && s'.timers[t].init == s.timers[t].init
              && s'.timers[t].activated && s'.timers[t].periodic
            else t !in s'.pending
  {
    CalledLaw(s, t, t);
    var s1 := Called(s, t);
    var s2 := s1.(timers := s1.timers[t := s1.timers[t].(activated := false)]);
    SameClocks(s1, s2);
    hide Inv;
    if s1.timers[t].periodic { StartInv(s2, t); }
  }

  // ----- what each call and each firing does

  // Timer t is listed, behind every other timer that expires no later; the others are as they were.
  ghost predicate PutIn(s: TS, s': TS, t: nat)
    requires Known(s')
  {
    && t in s'.pending && Without(s'.pending, t) == Without(s.pending, t)
    && (forall i, j :: 0 <= i < j < |s'.pending| && s'.pending[j] == t ==>
          Ahead(s', s'.pending[i]) <= Ahead(s', t))
    && (forall i, j :: 0 <= i < j < |s'.pending| && s'.pending[i] == t ==>
          Ahead(s', s'.pending[j]) > Ahead(s', t))
  }

  // The timer calls: starting sets the timer to expire after the ticks it is set to and puts it in its
  // place; stopping takes a flagged timer off and clears the flag; the settings change nothing but themselves,
  // not even for a timer that is running.
  lemma ActLaw(s: TS, a: Action)
    requires Inv(s) && WellSetAction(a) && a.id in s.timers
    ensures Inv(ActF(s, a)) && ActF(s, a).now == s.now && ActF(s, a).acts == s.acts
    ensures var t, s' := a.id, ActF(s, a);
            match a
            case Start(_) =>
              && s'.timers == s.timers[t := s'.timers[t]] && s'.timers[t].activated && Ahead(s', t) == s.timers[t].init
              && s'.timers[t].init == s.timers[t].init && s'.timers[t].periodic == s.timers[t].periodic
              && PutIn(s, s', t)
            case Stop(_) =>
              if s.timers[t].activated then
                s' == s.(pending := s'.pending, timers := s.timers[t := s.timers[t].(activated := false)])
                && t !in s'.pending && s'.pending == Without(s.pending, t)
              else s' == s
            case SetTime(_, n) => s' == s.(timers := s.timers[t := s.timers[t].(init := n)])
            case SetPeriodic(_, on) => s' == s.(timers := s.timers[t := s.timers[t].(periodic := on)])
  {
    ActInv(s, a);
    ActKnown(s, a);
    WithoutIs(s.pending, a.id);
    if a.Start? { StartPlace(s, a.id); }
  }

  lemma StartPlace(s: TS, t: nat)
    requires Inv(s) && t in s.timers
    ensures Inv(StartF(s, t)) && Ahead(StartF(s, t), t) == s.timers[t].init && PutIn(s, StartF(s, t), t)
  {
    hide Inv, StartF, Without, Distinct, Ahead;
    SoundKnown(s);
    StartInv(s, t);
    NewestStarted(s, t);
    InPlace(StartF(s, t), t);
    OthersStay(s, t);
  }

  lemma OthersStay(s: TS, t: nat)
    requires Inv(s) && t in s.timers
    ensures Without(StartF(s, t).pending, t) == Without(s.pending, t)
  {
    hide Rank, Insert, Without, Sorted, WellSet, Sub;
    WithoutIs(s.pending, t);
    WithoutInsert(Without(s.pending, t), Rank(Without(s.pending, t), s.timers, Expiry(s, t)), t);
  }

  // The timer started last stands behind all others that expire no later.
  lemma InPlace(s: TS, t: nat)
    requires Inv(s) && t in s.pending
    requires forall u :: u in s.pending && u != t ==> s.timers[u].started < s.timers[t].started
    ensures forall i, j :: 0 <= i < j < |s.pending| && s.pending[j] == t ==> Ahead(s, s.pending[i]) <= Ahead(s, t)
    ensures forall i, j :: 0 <= i < j < |s.pending| && s.pending[i] == t ==> Ahead(s, s.pending[j]) > Ahead(s, t)
  {
    hide WellSet, Ahead;
    forall i, j | 0 <= i < j < |s.pending|
      ensures s.pending[j] == t ==> Ahead(s, s.pending[i]) <= Ahead(s, t)
      ensures s.pending[i] == t ==> Ahead(s, s.pending[j]) > Ahead(s, t)
    {
      assert Before(s, s.pending[i], s.pending[j]);
    }
  }

  lemma WithoutInsert(s: seq<nat>, k: nat, t: nat)
    requires t !in s && k <= |s|
    ensures Without(Insert(s, k, t), t) == s
  {
    assert Insert(s, k, t)[k] == t;
    assert IndexOf(Insert(s, k, t), t) == k;
  }

  lemma NewestStarted(s: TS, t: nat)
    requires Inv(s) && t in s.timers
    ensures StartF(s, t).timers[t].started == s.starts && Known(StartF(s, t))
    ensures forall u :: u in StartF(s, t).pending && u != t ==> StartF(s, t).timers[u].started < s.starts
    ensures Distinct(StartF(s, t).pending)
  {
    StartInv(s, t);
  }

  // The calls a timeout function makes take effect one after the other.
  lemma {:induction false} ActsInTurn(s: TS, acts: seq<Action>, more: seq<Action>)
    requires Known(s)
    ensures ActsF(s, []) == s && (|acts| == 1 ==> ActsF(s, acts) == ActF(s, acts[0]))
    ensures ActsF(s, acts + more) == ActsF(ActsF(s, acts), more)
    decreases |acts|
  {
    if acts == [] {
      assert acts + more == more;
    } else {
      ActKnown(s, acts[0]);
      assert (acts + more)[1..] == acts[1..] + more;
      ActsInTurn(ActF(s, acts[0]), acts[1..], more);
    }
  }

  // One firing: the timer leaves the list, its function does `acts`, and after that the timer is started
  // again exactly if it is still periodic and its function has not stopped it. It ends flagged exactly then.
  lemma FireLaw(s: TS, t: nat, acts: seq<Action>, later: seq<seq<Action>>)
    requires Inv(s) && t in s.timers && s.acts == [acts] + later
    ensures Known(s.(pending := Without(s.pending, t), acts := later))
    ensures var s1 := ActsF(s.(pending := Without(s.pending, t), acts := later), acts);
            var again, s' := s1.timers[t].periodic && s1.timers[t].activated, FireF(s, t);
            && Inv(s1) && Inv(s') && s'.now == s.now && s'.acts == later
            && s'.timers == s1.timers[t := s'.timers[t]] && (s'.timers[t].activated <==> again)
            && s'.timers[t].init == s1.timers[t].init && s'.timers[t].periodic == s1.timers[t].periodic
            && (t in s'.pending <==> t in s1.pending || again)
            && (if again then PutIn(s1, s', t) && Ahead(s', t) == s1.timers[t].init else s'.pending == s1.pending)
  {
    hide Inv, StartF, ActsF, Without, Ahead, DueSet, PutIn;
    assert s.acts[1..] == later;
    KnownNow(s, t, later);
    CalledLaw(s, t, t);
    FireDue(s, t);
    FireIs(s, t);
    var s1 := Called(s, t);
    var s2 := s1.(timers := s1.timers[t := s1.timers[t].(activated := false)]);
    Unflagged(s1, t);
    if s1.timers[t].periodic && s1.timers[t].activated {
      StartPlace(s2, t);
      SoundKnown(StartF(s2, t));
      StartTouches(s1, s2, t);
    }
  }

  lemma SoundKnown(s: TS)
    requires Inv(s)
    ensures Known(s)
  {
  }

  lemma FireIs(s: TS, t: nat)
    requires Known(s) && t in s.timers
    ensures var s1 := Called(s, t);
            var s2 := s1.(timers := s1.timers[t := s1.timers[t].(activated := false)]);
            FireF(s, t) == if s1.timers[t].periodic && s1.timers[t].activated then StartF(s2, t) else s2
  {
  }

  lemma KnownNow(s: TS, t: nat, later: seq<seq<Action>>)
    requires Inv(s)
    ensures Known(s) && Known(s.(pending := Without(s.pending, t), acts := later))
  {
    WithoutIs(s.pending, t);
  }

  // Starting timer t after its flag is cleared comes to the same for all others.
  lemma StartTouches(s1: TS, s2: TS, t: nat)
    requires Known(s1) && t in s1.timers && s2 == s1.(timers := s1.timers[t := s1.timers[t].(activated := false)])
    requires Known(StartF(s2, t)) && PutIn(s2, StartF(s2, t), t)
    ensures var s' := StartF(s2, t);
            && s'.now == s1.now && s'.acts == s1.acts && s'.timers == s1.timers[t := s'.timers[t]]
            && s'.timers[t].activated && s'.timers[t].init == s1.timers[t].init
            && s'.timers[t].periodic == s1.timers[t].periodic && PutIn(s1, s', t) && t in s'.pending
  {
    hide Without, Rank, Insert, Sub;
  }

  // A timer that its own function stops is over: it is neither listed nor flagged, periodic or not.
  lemma StoppedByItself(s: TS, t: nat)
    requires Inv(s) && t in s.timers && s.timers[t].activated && NextActs(s) == [Stop(t)]
    ensures Inv(FireF(s, t)) && t !in FireF(s, t).pending && !FireF(s, t).timers[t].activated
  {
    FireDue(s, t);
    WithoutIs(s.pending, t);
    var s0 := Taken(s, t);
    TakenInv(s, t);
    WithoutIs(s0.pending, t);
    ActsInTurn(s0, NextActs(s), []);
    assert Called(s, t) == ActF(s0, Stop(t));
  }

  // rt_timer_check: fires due timers from the head of the list, until the head is not due.
  ghost function CheckF(s: TS): (r: (TS, seq<nat>))
    requires Inv(s)
    ensures Inv(r.0) && r.0.now == s.now && StillToCome(r.0.acts, s.acts) && r.0.timers.Keys == s.timers.Keys
    decreases |DueSet(s)|
  {
    if s.pending == [] || !Due(s, s.pending[0]) then (s, [])
    else
      var u := s.pending[0];
      FireDue(s, u);
      SubsetSmaller(DueSet(FireF(s, u)), DueSet(s), u);
      var (s', fired) := CheckF(FireF(s, u));
      (s', [u] + fired)
  }

  lemma SubsetSmaller(a: set<nat>, b: set<nat>, u: nat)
    requires a <= b - {u} && u in b
    ensures |a| < |b|
  {
    CardMono(a, b - {u});
  }

  lemma CardMono(a: set<nat>, b: set<nat>)
    requires a <= b
    ensures |a| <= |b|
  {
    if a != {} {
      var x :| x in a;
      CardMono(a - {x}, b - {x});
    }
  }

  // Between clock ticks nothing is due.
  ghost predicate Quiet(s: TS) {
    Inv(s) && forall u :: u in s.pending ==> Ahead(s, u) >= 1
  }

  lemma {:induction false} CheckQuiet(s: TS)
    requires Inv(s)
    ensures Quiet(CheckF(s).0)
    decreases |DueSet(s)|
  {
    if s.pending == [] {
    } else if !Due(s, s.pending[0]) {
      DueIffZero(s, s.pending[0]);
      forall u | u in s.pending
        ensures Ahead(s, u) >= 1
      {
        var i :| 0 <= i < |s.pending| && s.pending[i] == u;
        if i > 0 { assert Before(s, s.pending[0], s.pending[i]); }
      }
    } else {
      var u := s.pending[0];
      FireDue(s, u);
      SubsetSmaller(DueSet(FireF(s, u)), DueSet(s), u);
      CheckQuiet(FireF(s, u));
    }
  }

  function Count(fired: seq<nat>, t: nat): nat {
    if fired == [] then 0 else (if fired[0] == t then 1 else 0) + Count(fired[1..], t)
  }

  // In one check a spared timer fires once if it is due and not at all otherwise.
  lemma {:induction false} CheckSpared(s: TS, t: nat)
    requires Inv(s) && t in s.timers && Spared(s, t) && (t in s.pending ==> s.timers[t].activated)
    ensures var (s', fired) := CheckF(s);
            if t in s.pending && Ahead(s, t) == 0 then
              && Count(fired, t) == 1
              && (if s.timers[t].periodic then
                    && t in s'.pending && Ahead(s', t) == s.timers[t].init && s'.timers[t].init == s.timers[t].init
                    && s'.timers[t].activated && s'.timers[t].periodic
                  else t !in s'.pending)
            else Count(fired, t) == 0 && s'.timers[t] == s.timers[t] && (t in s'.pending <==> t in s.pending)
    decreases |DueSet(s)|
  {
    if s.pending != [] && Due(s, s.pending[0]) {
      var u := s.pending[0];
      FireDue(s, u);
      SubsetSmaller(DueSet(FireF(s, u)), DueSet(s), u);
      DueIffZero(s, u);
      if u == t { FireOwn(s, t); } else { FireOther(s, u, t); }
      LaterSpared(s, FireF(s, u), t);
      CheckSpared(FireF(s, u), t);
      var (s1, f1) := CheckF(FireF(s, u));
      assert ([u] + f1)[1..] == f1;
    } else if t in s.pending {
      CheckQuiet(s);
    }
  }

  // ----- runs

  datatype Event = Tick | Do(action: Action)

  function TickF(s: TS): TS { s.(now := (s.now + 1) % WORD) }

  lemma TickInv(s: TS)
    requires Quiet(s)
    ensures Inv(TickF(s))
    ensures forall u :: u in s.pending ==> Ahead(TickF(s), u) == Ahead(s, u) - 1
  {
    var s' := TickF(s);
    forall u | u in s.pending
      ensures Ahead(s', u) == Ahead(s, u) - 1
    {
      var x := s.timers[u].timeout;
      var q := (x - s.now) / WORD + (s.now + 1) / WORD;
      assert x - s'.now == WORD * q + Ahead(s, u) - 1;
      ModIs(x - s'.now, q, Ahead(s, u) - 1);
    }
    forall i, j | 0 <= i < j < |s'.pending|
      ensures Before(s', s'.pending[i], s'.pending[j])
    {
      assert Before(s, s.pending[i], s.pending[j]);
    }
  }

  ghost predicate WellSetEvents(es: seq<Event>) {
    forall i :: 0 <= i < |es| && es[i].Do? ==> WellSetAction(es[i].action)
  }

  // One event: a clock tick with its check, or one timer call. The second result lists what fired.
  ghost function StepF(s: TS, e: Event): (r: (TS, seq<nat>))
    requires Quiet(s) && (e.Do? ==> WellSetAction(e.action))
    ensures Quiet(r.0) && StillToCome(r.0.acts, s.acts) && r.0.timers.Keys == s.timers.Keys
  {
    match e
    case Tick =>
      TickInv(s);
      CheckQuiet(TickF(s));
      CheckF(TickF(s))
    case Do(a) =>
      ActQuiet(s, a);
      ActKnown(s, a);
      (ActF(s, a), [])
  }

  lemma ActQuiet(s: TS, a: Action)
    requires Quiet(s) && WellSetAction(a)
    ensures Quiet(ActF(s, a))
  {
    ActDue(s, a);
    ActInv(s, a);
    forall u | u in s.pending
      ensures u !in DueSet(s)
    {
      DueIffZero(s, u);
    }
    forall u | u in ActF(s, a).pending
      ensures Ahead(ActF(s, a), u) >= 1
    {
      DueIffZero(ActF(s, a), u);
    }
  }

  ghost function RunF(s: TS, es: seq<Event>): (r: (TS, seq<nat>))
    requires Quiet(s) && WellSetEvents(es)
    ensures Quiet(r.0)
    decreases |es|
  {
    if es == [] then (s, [])
    else
      var (s1, f1) := StepF(s, es[0]);
      var (s2, f2) := RunF(s1, es[1..]);
      (s2, f1 + f2)
  }

  function Ticks(es: seq<Event>): nat {
    if es == [] then 0 else (if es[0].Tick? then 1 else 0) + Ticks(es[1..])
  }

  // Nothing but time happens to timer t.
  ghost predicate LeftAlone(s: TS, t: nat, es: seq<Event>) {
    Spared(s, t) && forall i :: 0 <= i < |es| && es[i].Do? ==> es[i].action.id != t
  }

  // How often a timer with d ticks to go and period p fires in k ticks.
  function Firings(k: nat, d: int, p: int, periodic: bool): nat
    requires d >= 1 && p >= 1
    decreases k
  {
    if k < d then 0 else if periodic then 1 + Firings(k - d, p, p, periodic) else 1
  }

  lemma {:induction false} CountConcat(a: seq<nat>, b: seq<nat>, t: nat)
    ensures Count(a + b, t) == Count(a, t) + Count(b, t)
  {
    if a == [] {
      assert a + b == b;
    } else {
      assert (a + b)[1..] == a[1..] + b;
      CountConcat(a[1..], b, t);
    }
  }

  // A timer that is not listed never fires on its own.
  lemma {:induction false} UnlistedNeverFires(s: TS, t: nat, es: seq<Event>)
    requires Quiet(s) && WellSetEvents(es) && t in s.timers && t !in s.pending && LeftAlone(s, t, es)
    ensures Count(RunF(s, es).1, t) == 0
    decreases |es|
  {
    if es != [] {
      RunCons(s, es, t);
      hide Inv, Quiet, StepF, Spared, Count, RunF, WellSetEvents, LeftAlone;
      EventUnlisted(s, t, es[0]);
      UnlistedNeverFires(StepF(s, es[0]).0, t, es[1..]);
    }
  }

  lemma EventUnlisted(s: TS, t: nat, e: Event)
    requires Quiet(s) && t in s.timers && t !in s.pending && LeftAlone(s, t, [e])
    requires e.Do? ==> WellSetAction(e.action)
    ensures Count(StepF(s, e).1, t) == 0 && t !in StepF(s, e).0.pending
  {
    assert [e][0] == e;
    if e.Tick? { TickInv(s); CheckSpared(TickF(s), t); } else { ActDue(s, e.action); }
  }

  // A listed timer that is left alone fires in its d-th check and, if it is periodic, in every
  // p-th check after that, whatever happens to the other timers and wherever the 32-bit clock wraps.
  lemma {:induction false} FiringLaw(s: TS, t: nat, es: seq<Event>)
    requires Quiet(s) && WellSetEvents(es) && t in s.pending && s.timers[t].activated && LeftAlone(s, t, es)
    ensures Count(RunF(s, es).1, t) == Firings(Ticks(es), Ahead(s, t), s.timers[t].init, s.timers[t].periodic)
    decreases |es|
  {
    hide *;
    PendingFacts(s, t);
    if es == [] {
      RunNil(s, t, Ahead(s, t), s.timers[t].init, s.timers[t].periodic);
      return;
    }
    RunCons(s, es, t);
    EventLaw(s, t, es[0]);
    FiringsStep(Ticks(es), Ahead(s, t), s.timers[t].init, s.timers[t].periodic);
    var s1 := StepF(s, es[0]).0;
    if t in s1.pending {
      FiringLaw(s1, t, es[1..]);
    } else {
      UnlistedNeverFires(s1, t, es[1..]);
    }
  }

  lemma PendingFacts(s: TS, t: nat)
    requires Quiet(s) && t in s.pending
    ensures t in s.timers && Ahead(s, t) >= 1 && s.timers[t].init >= 1
  {
  }

  lemma RunNil(s: TS, t: nat, d: int, p: int, periodic: bool)
    requires Quiet(s) && WellSetEvents([]) && d >= 1 && p >= 1
    ensures Count(RunF(s, []).1, t) == 0 == Firings(Ticks([]), d, p, periodic)
  {
  }

  lemma RunCons(s: TS, es: seq<Event>, t: nat)
    requires Quiet(s) && WellSetEvents(es) && LeftAlone(s, t, es) && es != []
    ensures var (s1, f1) := StepF(s, es[0]);
            && (es[0].Do? ==> WellSetAction(es[0].action)) && LeftAlone(s, t, [es[0]])
            && WellSetEvents(es[1..]) && LeftAlone(s1, t, es[1..])
            && RunF(s, es).0 == RunF(s1, es[1..]).0 && StillToCome(s1.acts, s.acts)
            && Count(RunF(s, es).1, t) == Count(f1, t) + Count(RunF(s1, es[1..]).1, t)
            && Ticks(es) == (if es[0].Tick? then 1 else 0) + Ticks(es[1..])
            && (t in s.timers ==> t in s1.timers)
  {
    var (s1, f1) := StepF(s, es[0]);
    LaterSpared(s, s1, t);
    hide Inv, StepF, Count;
    CountConcat(f1, RunF(s1, es[1..]).1, t);
  }

  lemma FiringsStep(k: nat, d: int, p: int, periodic: bool)
    requires d >= 1 && p >= 1
    ensures k >= 1 && d > 1 ==> Firings(k, d, p, periodic) == Firings(k - 1, d - 1, p, periodic)
    ensures k >= 1 && d == 1 ==>
            Firings(k, d, p, periodic) == 1 + (if periodic then Firings(k - 1, p, p, periodic) else 0)
  {
  }

  // One event seen from a listed timer that is left alone.
  lemma EventLaw(s: TS, t: nat, e: Event)
    requires Quiet(s) && t in s.pending && s.timers[t].activated && LeftAlone(s, t, [e])
    requires e.Do? ==> WellSetAction(e.action)
    ensures var (s1, f1) := StepF(s, e);
            var d, due := Ahead(s, t), e.Tick? && Ahead(s, t) == 1;
            && Count(f1, t) == (if due then 1 else 0)
            && (t in s1.pending <==> !due || s.timers[t].periodic)
            && (t in s1.pending ==>
                  && s1.timers[t].init == s.timers[t].init && s1.timers[t].periodic == s.timers[t].periodic
                  && s1.timers[t].activated
                  && Ahead(s1, t) == (if due then s.timers[t].init else if e.Tick? then d - 1 else d))
  {
    assert [e][0] == e;
    if e.Tick? {
      TickInv(s);
      CheckSpared(TickF(s), t);
    } else {
      ActDue(s, e.action);
      ActKnown(s, e.action);
    }
  }

  // From the start call on: a timer set to n ticks fires in the check of the n-th tick.
  lemma StartFires(s: TS, t: nat, es: seq<Event>)
    requires Quiet(s) && t in s.timers && WellSetEvents(es) && LeftAlone(s, t, es)
    ensures var s' := StartF(s, t);
            && Quiet(s') && Ahead(s', t) == s.timers[t].init
            && Count(RunF(s', es).1, t) == Firings(Ticks(es), s.timers[t].init, s.timers[t].init, s.timers[t].periodic)
  {
    StartInv(s, t);
    ActQuiet(s, Start(t));
    FiringLaw(StartF(s, t), t, es);
  }

  // Set to n ticks, made periodic or not, and then started, a timer fires in the check of the n-th tick and,
  // if periodic, in every n-th after that, whatever it was set to before.
  lemma SetThenStart(s: TS, t: nat, n: int, on: bool, es: seq<Event>)
    requires Quiet(s) && t in s.timers && 1 <= n < HALF && WellSetEvents(es) && LeftAlone(s, t, es)
    ensures var s' := ActsF(s, [SetTime(t, n), SetPeriodic(t, on), Start(t)]);
            Quiet(s') && Count(RunF(s', es).1, t) == Firings(Ticks(es), n, n, on)
  {
    hide RunF, StepF, StartF, Count, Firings, Sorted, WellSet, Distinct;
    ActQuiet(s, SetTime(t, n));
    var s1 := ActF(s, SetTime(t, n));
    ActQuiet(s1, SetPeriodic(t, on));
    var s2 := ActF(s1, SetPeriodic(t, on));
    StartFires(s2, t, es);
    ThreeActs(s, SetTime(t, n), SetPeriodic(t, on), Start(t));
  }

  lemma ThreeActs(s: TS, a: Action, b: Action, c: Action)
    requires Known(s)
    ensures Known(ActF(s, a)) && Known(ActF(ActF(s, a), b)) && ActsF(s, [a, b, c]) == ActF(ActF(ActF(s, a), b), c)
  {
    hide ActF;
    ActKnown(s, a);
    ActKnown(ActF(s, a), b);
    assert [a, b, c][1..] == [b, c] && [b, c][1..] == [c] && [c][1..] == [];
    ActsInTurn(ActF(ActF(s, a), b), [c], []);
  }

  // A timer that is stopped does not fire, however long it is left alone.
  lemma StopSilences(s: TS, t: nat, es: seq<Event>)
    requires Quiet(s) && t in s.timers && s.timers[t].activated && WellSetEvents(es) && LeftAlone(s, t, es)
    ensures Quiet(StopF(s, t)) && Count(RunF(StopF(s, t), es).1, t) == 0
  {
    ActQuiet(s, Stop(t));
    WithoutIs(s.pending, t);
    UnlistedNeverFires(StopF(s, t), t, es);
  }

  // Stopped by its own function, it does not fire again in the rest of that check, nor later.
  lemma SelfStopped(s: TS, t: nat, es: seq<Event>)
    requires Inv(s) && t in s.timers && s.timers[t].activated && NextActs(s) == [Stop(t)]
    requires WellSetEvents(es) && LeftAlone(FireF(s, t), t, es)
    ensures Inv(FireF(s, t))
    ensures var (s2, fired) := CheckF(FireF(s, t));
            Count(fired, t) == 0 && Quiet(s2) && Count(RunF(s2, es).1, t) == 0
  {
    StoppedByItself(s, t);
    hide FireF;
    var s1 := FireF(s, t);
    FireKeys(s, t);
    CheckSpared(s1, t);
    CheckQuiet(s1);
    var (s2, fired) := CheckF(s1);
    LaterSpared(s1, s2, t);
    UnlistedNeverFires(s2, t, es);
  }

  lemma FireKeys(s: TS, t: nat)
    requires Inv(s) && t in s.timers
    ensures t in FireF(s, t).timers
  {
    FireDue(s, t);
  }

  // The timers of a row that have no tick left, up to the first one that has.
  ghost function DuePrefix(s: TS, row: seq<nat>): (r: seq<nat>)
    requires forall u :: u in row ==> u in s.timers
    ensures r <= row && forall u :: u in r ==> Ahead(s, u) == 0
    ensures |r| < |row| ==> Ahead(s, row[|r|]) != 0
  {
    if row == [] || Ahead(s, row[0]) != 0 then [] else [row[0]] + DuePrefix(s, row[1..])
  }

  // Timers whose functions leave timers alone fire in the order of the list: by the time they expire,
  // and those of one tick in the order they were started in.
  lemma {:induction false} FiringOrder(s: TS)
    requires Inv(s) && forall n :: 0 <= n < |s.acts| ==> s.acts[n] == []
    ensures CheckF(s).1 == DuePrefix(s, s.pending)
    ensures forall u :: u in s.pending ==> (u in CheckF(s).1 <==> Ahead(s, u) == 0)
    decreases |DueSet(s)|
  {
    DueFirst(s);
    if s.pending != [] {
      var u := s.pending[0];
      DueIffZero(s, u);
      if Due(s, u) {
        FireDue(s, u);
        SubsetSmaller(DueSet(FireF(s, u)), DueSet(s), u);
        FiringOrder(FireF(s, u));
        FiredPrefix(s, u);
      }
    }
  }

  // All timers that are due stand at the head of the list.
  lemma DueFirst(s: TS)
    requires Inv(s)
    ensures forall u :: u in s.pending ==> (u in DuePrefix(s, s.pending) <==> Ahead(s, u) == 0)
  {
    var k := |DuePrefix(s, s.pending)|;
    forall u | u in s.pending && Ahead(s, u) == 0
      ensures u in DuePrefix(s, s.pending)
    {
      var i :| 0 <= i < |s.pending| && s.pending[i] == u;
      assert i < k;
      assert DuePrefix(s, s.pending)[i] == u;
    }
  }

  // The timer that has fired is behind those still due, if it is listed again.
  lemma FiredPrefix(s: TS, u: nat)
    requires Inv(s) && s.pending != [] && u == s.pending[0] && Ahead(s, u) == 0 && NextActs(s) == []
    ensures var s' := FireF(s, u);
            Inv(s') && DuePrefix(s, s.pending) == [u] + DuePrefix(s', s'.pending)
  {
    var s', rest := FireF(s, u), s.pending[1..];
    FireDue(s, u);
    WithoutIs(s.pending, u);
    assert Without(s.pending, u) == rest;
    assert forall v :: v in rest ==> v in s.timers && v != u;
    var s1 := Called(s, u);
    CalledLaw(s, u, u);
    assert s1.timers == s.timers && s1.pending == rest;
    assert forall v :: v in rest ==> s'.timers[v] == s.timers[v] && Ahead(s', v) == Ahead(s, v);
    SamePrefix(s, s', rest);
    var s2 := s1.(timers := s1.timers[u := s1.timers[u].(activated := false)]);
    if s1.timers[u].periodic && s1.timers[u].activated {
      Unflagged(s1, u);
      StartPlace(s2, u);
      SkipsLater(s', rest, u);
    }
  }

  lemma {:induction false} SamePrefix(s: TS, s': TS, row: seq<nat>)
    requires forall u :: u in row ==> u in s.timers && u in s'.timers && Ahead(s', u) == Ahead(s, u)
    ensures DuePrefix(s, row) == DuePrefix(s', row)
  {
    if row != [] { SamePrefix(s, s', row[1..]); }
  }

  // A timer with ticks left does not count, as nothing behind it is due.
  lemma SkipsLater(s: TS, rest: seq<nat>, u: nat)
    requires Inv(s) && u in s.pending && Ahead(s, u) > 0 && Without(s.pending, u) == rest
    ensures (forall v :: v in rest ==> v in s.timers) && DuePrefix(s, s.pending) == DuePrefix(s, rest)
  {
    hide WellSet, Distinct, Sub;
    WithoutAround(s.pending, u);
    var k, n := IndexOf(s.pending, u), |DuePrefix(s, s.pending)|;
    assert n <= k;
    assert rest[..n] == s.pending[..n] == DuePrefix(s, s.pending);
    if n < |rest| && n >= k { assert Before(s, s.pending[k], s.pending[n + 1]); }
    PrefixIs(s, rest, n);
  }

  lemma WithoutAround(s: seq<nat>, u: nat)
    requires Distinct(s) && u in s
    ensures var k, r := IndexOf(s, u), Without(s, u);
            && k < |s| && s[k] == u && |r| == |s| - 1 && (forall v :: v in r ==> v in s)
            && forall i :: 0 <= i < |r| ==> r[i] == if i < k then s[i] else s[i + 1]
  {
    WithoutIs(s, u);
  }

  lemma {:induction false} PrefixIs(s: TS, row: seq<nat>, n: nat)
    requires (forall u :: u in row ==> u in s.timers) && n <= |row|
    requires (forall i :: 0 <= i < n ==> Ahead(s, row[i]) == 0) && (n < |row| ==> Ahead(s, row[n]) != 0)
    ensures DuePrefix(s, row) == row[..n]
  {
    if n > 0 {
      PrefixIs(s, row[1..], n - 1);
      assert row[..n] == [row[0]] + row[1..][..n - 1];
    }
  }

  // ----- interrupts between the parts of a call

  // An unlisted timer that is left alone stays as it is while the clock goes on.
  lemma {:induction false} UnlistedStays(s: TS, t: nat, es: seq<Event>)
    requires Quiet(s) && WellSetEvents(es) && t in s.timers && t !in s.pending && LeftAlone(s, t, es)
    ensures var s' := RunF(s, es).0;
            && t in s'.timers && s'.timers[t] == s.timers[t] && t !in s'.pending
            && s'.now == (s.now + Ticks(es)) % WORD && StillToCome(s'.acts, s.acts)
    decreases |es|
  {
    hide *;
    if es == [] {
      RunNone(s);
    } else {
      RunCons(s, es, t);
      EventStays(s, t, es[0]);
      var s1 := StepF(s, es[0]).0;
      UnlistedStays(s1, t, es[1..]);
      ClockSum(s.now, if es[0].Tick? then 1 else 0, Ticks(es[1..]));
      ComesLater(RunF(s, es).0.acts, s1.acts, s.acts);
    }
  }

  lemma RunNone(s: TS)
    requires Quiet(s) && WellSetEvents([])
    ensures RunF(s, []).0 == s && Ticks([]) == 0 && StillToCome(s.acts, s.acts) && s.now == s.now % WORD
  {
  }

  lemma ClockSum(now: int, a: nat, b: nat)
    ensures ((now + a) % WORD + b) % WORD == (now + (a + b)) % WORD
  {
  }

  lemma ComesLater(a: seq<seq<Action>>, b: seq<seq<Action>>, c: seq<seq<Action>>)
    requires StillToCome(a, b) && StillToCome(b, c)
    ensures StillToCome(a, c)
  {
  }

  lemma EventStays(s: TS, t: nat, e: Event)
    requires Quiet(s) && t in s.timers && t !in s.pending && LeftAlone(s, t, [e])
    requires e.Do? ==> WellSetAction(e.action)
    ensures var s1 := StepF(s, e).0;
            && t in s1.timers && s1.timers[t] == s.timers[t] && t !in s1.pending
            && s1.now == (s.now + if e.Tick? then 1 else 0) % WORD
  {
    hide Inv, CheckF, ActF, Count;
    assert [e][0] == e;
    if e.Tick? {
      QuietInv(s);
      TickInv(s);
      CheckSpared(TickF(s), t);
    } else {
      QuietInv(s);
      ActDue(s, e.action);
      ActKnown(s, e.action);
    }
  }

  lemma QuietInv(s: TS)
    requires Quiet(s)
    ensures Inv(s) && Known(s) && s.now == s.now % WORD
  {
  }

  lemma StartedQuiet(s: TS, t: nat)
    requires Quiet(s) && t in s.timers
    ensures Quiet(StartTimeF(StartBeginF(s, t), t))
  {
    StartTimed(s, t);
    WithoutIs(s.pending, t);
  }

  // Whatever interrupts do before the last part of rt_timer_start: it keeps the timers in order exactly
  // if the timer has not been listed meanwhile and its timeout is not past.
  lemma StartGap(s: TS, t: nat, es: seq<Event>)
    requires Quiet(s) && t in s.timers && WellSetEvents(es)
    ensures var s1 := StartTimeF(StartBeginF(s, t), t);
            && Quiet(s1) && t !in s1.pending
            && var s2 := RunF(s1, es).0;
               t in s2.timers && (Inv(StartEndF(s2, t)) <==> t !in s2.pending && Ahead(s2, t) < HALF)
  {
    StartedQuiet(s, t);
    StartTimed(s, t);
    var s1 := StartTimeF(StartBeginF(s, t), t);
    RunKeys(s1, es);
    StartEndExact(RunF(s1, es).0, t);
  }

  lemma {:induction false} RunKeys(s: TS, es: seq<Event>)
    requires Quiet(s) && WellSetEvents(es)
    ensures RunF(s, es).0.timers.Keys == s.timers.Keys
    decreases |es|
  {
    if es != [] { RunKeys(StepF(s, es[0]).0, es[1..]); }
  }

  // If an interrupt starts the same timer in between, the last part lists it a second time.
  lemma StartedTwice(s: TS, t: nat)
    requires Quiet(s) && t in s.timers
    ensures var s1 := StartTimeF(StartBeginF(s, t), t);
            && Quiet(s1) && WellSetEvents([Do(Start(t))])
            && var s2 := RunF(s1, [Do(Start(t))]).0;
               t in s2.timers && t in s2.pending && !Inv(StartEndF(s2, t)) && !Distinct(StartEndF(s2, t).pending)
  {
    StartGap(s, t, [Do(Start(t))]);
    var s1 := StartTimeF(StartBeginF(s, t), t);
    StartInv(s1, t);
    var s2 := RunF(s1, [Do(Start(t))]).0;
    assert s2 == StartF(s1, t);
    InsertedTwice(s2.pending, Rank(s2.pending, s2.timers, s2.timers[t].timeout), t);
  }

  // If the clock goes on in between, the timer is put in in time exactly if fewer ticks pass than it was
  // set to; then it fires as if there had been no interruption.
  lemma StartInterrupted(s: TS, t: nat, es: seq<Event>, later: seq<Event>)
    requires Quiet(s) && t in s.timers && WellSetEvents(es) && LeftAlone(s, t, es) && Ticks(es) <= HALF
    requires WellSetEvents(later) && LeftAlone(s, t, later)
    ensures var s1, n := StartTimeF(StartBeginF(s, t), t), s.timers[t].init;
            && Quiet(s1)
            && var s2 := RunF(s1, es).0;
               && t in s2.timers && (Quiet(StartEndF(s2, t)) <==> Ticks(es) < n)
               && (Ticks(es) < n ==>
                     Count(RunF(StartEndF(s2, t), later).1, t)
                     == Firings(Ticks(es) + Ticks(later), n, n, s.timers[t].periodic))
               && (Ticks(es) >= n ==> t in StartEndF(s2, t).pending && Due(StartEndF(s2, t), t))
  {
    hide *;
    InterruptedState(s, t, es);
    QuietEnd(RunF(StartTimeF(StartBeginF(s, t), t), es).0, t);
    if Ticks(es) < s.timers[t].init { InterruptedFires(s, t, es, later); }
  }

  lemma InterruptedFires(s: TS, t: nat, es: seq<Event>, later: seq<Event>)
    requires Quiet(s) && t in s.timers && WellSetEvents(es) && LeftAlone(s, t, es) && Ticks(es) < s.timers[t].init
    requires WellSetEvents(later) && LeftAlone(s, t, later)
    ensures var s1, n := StartTimeF(StartBeginF(s, t), t), s.timers[t].init;
            && Quiet(s1)
            && var s2 := RunF(s1, es).0;
               && Known(s2) && t in s2.timers && Quiet(StartEndF(s2, t))
               && Count(RunF(StartEndF(s2, t), later).1, t)
                  == Firings(Ticks(es) + Ticks(later), n, n, s.timers[t].periodic)
  {
    hide *;
    SetShort(s, t);
    InterruptedState(s, t, es);
    var s2 := RunF(StartTimeF(StartBeginF(s, t), t), es).0;
    QuietEnd(s2, t);
    EndedState(s, s2, t, later);
    EndedFirings(StartEndF(s2, t), t, Ticks(es), s.timers[t].init, s.timers[t].periodic, later);
  }

  lemma SetShort(s: TS, t: nat)
    requires Quiet(s) && t in s.timers
    ensures 1 <= s.timers[t].init < HALF
  {
  }

  lemma EndedFirings(s: TS, t: nat, k: nat, n: nat, periodic: bool, later: seq<Event>)
    requires Quiet(s) && WellSetEvents(later) && t in s.pending && s.timers[t].activated && LeftAlone(s, t, later)
    requires k < n && s.timers[t].init == n && s.timers[t].periodic == periodic && Ahead(s, t) == n - k
    ensures Count(RunF(s, later).1, t) == Firings(k + Ticks(later), n, n, periodic)
  {
    hide *;
    PendingFacts(s, t);
    FiringLaw(s, t, later);
    FiringsShift(k, Ticks(later), n, n, periodic);
  }

  // The state before the last part.
  lemma InterruptedState(s: TS, t: nat, es: seq<Event>)
    requires Quiet(s) && t in s.timers && WellSetEvents(es) && LeftAlone(s, t, es) && Ticks(es) <= HALF
    ensures var s1, n, k := StartTimeF(StartBeginF(s, t), t), s.timers[t].init, Ticks(es);
            && Quiet(s1) && 1 <= n < HALF
            && var s2 := RunF(s1, es).0;
               && Quiet(s2) && t in s2.timers && t !in s2.pending && StillToCome(s2.acts, s.acts)
               && s2.timers[t].init == n && s2.timers[t].periodic == s.timers[t].periodic
               && Ahead(s2, t) == (if k <= n then n - k else WORD + n - k)
               && (1 <= Ahead(s2, t) < HALF <==> k < n)
               && Known(s2) && t in StartEndF(s2, t).timers && (k >= n ==> Due(StartEndF(s2, t), t))
  {
    hide *;
    BegunState(s, t, es);
    var s1 := StartTimeF(StartBeginF(s, t), t);
    UnlistedStays(s1, t, es);
    AheadAfter(s.now, s.timers[t].init, Ticks(es));
    TimesOf(s1, RunF(s1, es).0, t);
  }

  lemma BegunState(s: TS, t: nat, es: seq<Event>)
    requires Quiet(s) && t in s.timers && LeftAlone(s, t, es)
    ensures var s1 := StartTimeF(StartBeginF(s, t), t);
            && Quiet(s1) && t in s1.timers && t !in s1.pending && LeftAlone(s1, t, es) && s1.acts == s.acts
            && s1.now == s.now && 0 <= s.now < WORD && 1 <= s.timers[t].init < HALF
            && s1.timers[t].init == s.timers[t].init && s1.timers[t].periodic == s.timers[t].periodic
            && s1.timers[t].timeout == (s.now + s.timers[t].init) % WORD
  {
    StartedQuiet(s, t);
    StartTimed(s, t);
  }

  lemma TimesOf(s1: TS, s2: TS, t: nat)
    requires t in s1.timers && t in s2.timers && s2.timers[t] == s1.timers[t] && Quiet(s2)
    ensures Ahead(s2, t) == Sub(s1.timers[t].timeout, s2.now) && Known(s2) && t in StartEndF(s2, t).timers
    ensures Due(StartEndF(s2, t), t) <==> Sub(s2.now, s1.timers[t].timeout) < HALF
  {
  }

  lemma EndedState(s: TS, s2: TS, t: nat, later: seq<Event>)
    requires Known(s2) && t in s2.timers && StillToCome(s2.acts, s.acts) && LeftAlone(s, t, later)
    ensures var s3 := StartEndF(s2, t);
            && LeftAlone(s3, t, later) && t in s3.timers && s3.timers[t].activated
            && s3.timers[t].init == s2.timers[t].init && s3.timers[t].periodic == s2.timers[t].periodic
  {
    LaterSpared(s, StartEndF(s2, t), t);
  }

  // After k ticks a timeout set n ticks ahead is n - k ticks ahead, or k - n ticks past.
  lemma AheadAfter(now: int, n: int, k: nat)
    requires 0 <= now < WORD && 1 <= n < HALF && k <= HALF
    ensures Sub((now + n) % WORD, (now + k) % WORD) == (n - k) % WORD == (if k <= n then n - k else WORD + n - k)
    ensures 1 <= Sub((now + n) % WORD, (now + k) % WORD) < HALF <==> k < n
    ensures Sub((now + k) % WORD, (now + n) % WORD) == (if k >= n then k - n else WORD + k - n)
    ensures Sub((now + k) % WORD, (now + n) % WORD) < HALF <==> k >= n
  {
    var q := (now + k) / WORD - (now + n) / WORD;
    assert (now + n) % WORD - (now + k) % WORD == WORD * q + (n - k);
    if k <= n {
      ModIs((now + n) % WORD - (now + k) % WORD, q, n - k);
    } else {
      ModIs((now + n) % WORD - (now + k) % WORD, q - 1, WORD + n - k);
    }
    assert (now + k) % WORD - (now + n) % WORD == WORD * -q + (k - n);
    if k >= n {
      ModIs((now + k) % WORD - (now + n) % WORD, -q, k - n);
    } else {
      ModIs((now + k) % WORD - (now + n) % WORD, -q - 1, WORD + k - n);
    }
  }

  // The last part of rt_timer_start between two checks.
  lemma QuietEnd(s: TS, t: nat)
    requires Quiet(s) && t in s.timers && t !in s.pending
    ensures Quiet(StartEndF(s, t)) <==> 1 <= Ahead(s, t) < HALF
    ensures t in StartEndF(s, t).pending && Ahead(StartEndF(s, t), t) == Ahead(s, t)
  {
    StartEndExact(s, t);
    InsertMembers(s.pending, Rank(s.pending, s.timers, s.timers[t].timeout), t);
    var s' := StartEndF(s, t);
    assert forall u :: u in s.pending ==> Ahead(s', u) == Ahead(s, u);
  }

  lemma FiringsShift(k: nat, j: nat, d: int, p: int, periodic: bool)
    requires k < d && p >= 1
    ensures Firings(k + j, d, p, periodic) == Firings(j, d - k, p, periodic)
  {
  }

  // rt_timer_stop leaves its timer off the list if nobody starts it before the flag is written. If an
  // interrupt does, the timer ends listed and unflagged, where rt_timer_stop does nothing any more.
  lemma StopGap(s: TS, t: nat, es: seq<Event>)
    requires Quiet(s) && t in s.pending && s.timers[t].activated && WellSetEvents(es) && LeftAlone(s, t, es)
    ensures var s1 := StopBeginF(s, t);
            && Quiet(s1) && t in RunF(s1, es).0.timers && t !in StopEndF(RunF(s1, es).0, t).pending
            && WellSetEvents([Do(Start(t))])
            && var s2 := RunF(s1, [Do(Start(t))]).0;
               && t in s2.timers && t in StopEndF(s2, t).pending && !StopEndF(s2, t).timers[t].activated
               && StopF(StopEndF(s2, t), t) == StopEndF(s2, t)
  {
    WithoutInv(s, t);
    WithoutIs(s.pending, t);
    var s1 := StopBeginF(s, t);
    UnlistedStays(s1, t, es);
    StartInv(s1, t);
    assert RunF(s1, [Do(Start(t))]).0 == StartF(s1, t);
  }

  // ----- where the program does not do this

  // A periodic timer set to zero ticks is due again as soon as it has fired, so that the loop of
  // rt_timer_check finds the same list for ever.
  lemma ZeroPeriodNeverEnds(s: TS, t: nat)
    requires t in s.timers && s.pending == [t] && s.timers[t].init == 0 && s.timers[t].periodic && s.timers[t].activated
    requires s.acts == [] && 0 <= s.now < WORD && s.timers[t].timeout == s.now
    ensures Due(s, t)
    ensures FireF(s, t) == s.(starts := s.starts + 1, timers := s.timers[t := s.timers[t].(started := s.starts)])
  {
  }

  // A periodic timer that has fired is due again at once exactly if its period is zero.
  lemma DueAgain(s: TS, t: nat)
    requires Known(s) && t in s.timers && s.timers[t].periodic && s.timers[t].activated
    requires NextActs(s) == [] && 0 <= s.now < WORD && 0 <= s.timers[t].init < HALF
    ensures t in FireF(s, t).pending && (Due(FireF(s, t), t) <==> s.timers[t].init == 0)
  {
    var n := s.timers[t].init;
    var s2 := FireF(s, t);
    assert s2.timers[t].timeout == (s.now + n) % WORD && s2.now == s.now;
    SubAdd(s.now, n);
    var x := s2.timers[t].timeout;
    var q := (x - s.now) / WORD;
    assert s.now - x == WORD * -q - n;
    if n == 0 { ModIs(s.now - x, -q, 0); } else { ModIs(s.now - x, -q - 1, WORD - n); }
    InsertedIn(s, t);
  }

  lemma InsertedIn(s: TS, t: nat)
    requires Known(s) && t in s.timers && s.timers[t].periodic && s.timers[t].activated && NextActs(s) == []
    ensures t in FireF(s, t).pending
  {
    var s1 := Taken(s, t);
    var s2 := s1.(timers := s1.timers[t := s1.timers[t].(activated := false)]);
    var rest := Without(s2.pending, t);
    InsertMembers(rest, Rank(rest, s2.timers, Expiry(s2, t)), t);
    assert FireF(s, t) == StartF(s2, t);
  }

  // A timer set to zero ticks and started between two checks is overdue in the next one: it fires one
  // tick later than it was set to.
  lemma ZeroTicksLate(s: TS, t: nat)
    requires Known(s) && t in s.timers && s.timers[t].init == 0 && 0 <= s.now < WORD
    ensures Known(StartF(s, t)) && t in StartF(s, t).pending
    ensures Due(StartF(s, t), t) && Due(TickF(StartF(s, t)), t) && Ahead(TickF(StartF(s, t)), t) == WORD - 1
  {
    var rest := Without(s.pending, t);
    InsertMembers(rest, Rank(rest, s.timers, Expiry(s, t)), t);
  }

  ghost predicate FlagsAgree(s: TS) {
    forall u :: u in s.timers ==> (u in s.pending <==> s.timers[u].activated)
  }

  lemma ActFlags(s: TS, a: Action)
    requires Inv(s) && FlagsAgree(s)
    ensures FlagsAgree(ActF(s, a))
  {
    WithoutIs(s.pending, a.id);
    if a.id in s.timers && a.Start? { StartInv(s, a.id); }
  }

  // After a firing, the active flags still tell which timers are listed, except when a one-shot
  // timer's own function has started it again: it is listed and not flagged.
  lemma FireFlags(s: TS, t: nat)
    requires Inv(s) && t in s.timers
    requires forall u :: u in Called(s, t).timers && u != t ==>
             (u in Called(s, t).pending <==> Called(s, t).timers[u].activated)
    requires t in Called(s, t).pending ==> Called(s, t).timers[t].activated
    ensures FlagsAgree(FireF(s, t)) <==> (t in Called(s, t).pending ==> Called(s, t).timers[t].periodic)
  {
    CalledLaw(s, t, t);
    var s1 := Called(s, t);
    var s2 := s1.(timers := s1.timers[t := s1.timers[t].(activated := false)]);
    SameClocks(s1, s2);
    if s1.timers[t].periodic && s1.timers[t].activated { StartInv(s2, t); }
  }

  // Such a timer cannot be stopped: rt_timer_stop looks at the flag only.
  lemma UnflaggedCannotStop(s: TS, t: nat)
    requires t in s.timers && t in s.pending && Distinct(s.pending)
    ensures t !in StopF(s, t).pending <==> s.timers[t].activated
  {
    WithoutIs(s.pending, t);
  }

  // The input: a one-shot timer whose function does nothing but start it again. It is listed, not
  // flagged, and rt_timer_stop leaves it listed.
  lemma RestartLosesFlag(s: TS, t: nat)
    requires Inv(s) && FlagsAgree(s) && t in s.pending && !s.timers[t].periodic && NextActs(s) == [Start(t)]
    ensures var s' := FireF(s, t);
            t in s'.pending && !s'.timers[t].activated && t in StopF(s', t).pending && !FlagsAgree(s')
  {
    var s0 := Taken(s, t);
    TakenInv(s, t);
    StartInv(s0, t);
    assert ActsF(s0, NextActs(s)) == ActsF(ActF(s0, Start(t)), []);
  }
}
