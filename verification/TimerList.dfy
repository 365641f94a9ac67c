// rt-thread/src/timer.c: the hard timers on a skip list. Every level is one circular list of
// intrusive nodes; the last level holds all started timers, the others are sparser.
module TimerList {
  import opened Rings
  import opened TimerModel
  import opened TimerRuns

  const SKIP_LIST_MASK: bv32 := 3     // RT_TIMER_SKIP_LIST_MASK
  const SKIP_LIST_SHIFT: nat := 2     // (RT_TIMER_SKIP_LIST_MASK + 1) >> 1

  datatype Node = Head(level: nat) | Row(level: nat, id: nat)

  // The nodes of one level, list head first.
  ghost function Nodes(level: nat, row: seq<nat>): (r: seq<Node>)
    ensures |r| == |row| + 1 && r[0] == Head(level)
    ensures forall i :: 0 <= i < |row| ==> r[i + 1] == Row(level, row[i])
  {
    [Head(level)] + seq(|row|, i requires 0 <= i < |row| => Row(level, row[i]))
  }

  predicate Later(timers: map<nat, Timer>, u: nat, timeout: int) {
    u in timers && 0 < Sub(timers[u].timeout, timeout) < HALF
  }

  // The insertion place is the only one between timers that are not later and a later one.
  lemma {:induction false} RankUnique(row: seq<nat>, timers: map<nat, Timer>, timeout: int, k: nat)
    requires k <= |row| && forall u :: u in row ==> u in timers
    requires forall i :: 0 <= i < k ==> !Later(timers, row[i], timeout)
    requires k < |row| ==> Later(timers, row[k], timeout)
    ensures Rank(row, timers, timeout) == k
  {
    if k > 0 { RankUnique(row[1..], timers, timeout, k - 1); }
  }

  lemma NodesInsert(level: nat, row: seq<nat>, k: nat, t: nat)
    requires k <= |row|
    ensures Nodes(level, Insert(row, k, t)) == Insert(Nodes(level, row), k + 1, Row(level, t))
  {
  }

  lemma NodesRemove(level: nat, row: seq<nat>, t: nat)
    requires t in row
    ensures Nodes(level, Remove(row, t)) == Drop(Nodes(level, row), IndexOf(row, t) + 1)
  {
    hide IndexOf;
    NodesDrop(level, row, IndexOf(row, t));
  }

  lemma NodesDrop(level: nat, row: seq<nat>, k: nat)
    requires k < |row|
    ensures Nodes(level, Drop(row, k)) == Drop(Nodes(level, row), k + 1)
  {
    var nodes, dropped := Nodes(level, Drop(row, k)), Drop(Nodes(level, row), k + 1);
    forall i | 0 <= i < |dropped|
      ensures dropped[i] == nodes[i]
    {
      if i > 0 { assert Drop(row, k)[i - 1] == row[if i - 1 < k then i - 1 else i]; }
    }
  }

  lemma NodesMembers(level: nat, row: seq<nat>, t: nat)
    ensures Row(level, t) in Nodes(level, row) <==> t in row
    ensures forall n :: n in Nodes(level, row) ==> n.level == level
  {
    forall n | n in Nodes(level, row)
      ensures n.level == level && (n.Row? ==> n.id in row)
    {
      var i :| 0 <= i < |Nodes(level, row)| && Nodes(level, row)[i] == n;
    }
    if t in row {
      var i :| 0 <= i < |row| && row[i] == t;
      assert Nodes(level, row)[i + 1] == Row(level, t);
    }
  }

  // Only nodes of `ring` were relinked.
  ghost predicate Untouched(next: map<Node, Node>, prev: map<Node, Node>, next': map<Node, Node>, prev': map<Node,
                            Node>, ring: seq<Node>) {
    && (forall n :: n in next && n !in ring ==> n in next' && next'[n] == next[n])
    && (forall n :: n in prev && n !in ring ==> n in prev' && prev'[n] == prev[n])
  }

  // One level: its list, and the nodes of unlisted timers pointing to themselves.
  ghost predicate Level(next: map<Node, Node>, prev: map<Node, Node>, ids: set<nat>, level: nat, row: seq<nat>) {
    && Ring(next, prev, Nodes(level, row))
    && forall t :: t in ids && t !in row ==> Ring(next, prev, [Row(level, t)])
  }

  lemma LevelFrame(next: map<Node, Node>, prev: map<Node, Node>, next': map<Node, Node>, prev': map<Node, Node>,
                   ids: set<nat>, level: nat, row: seq<nat>, ring: seq<Node>)
    requires Level(next, prev, ids, level, row) && Untouched(next, prev, next', prev', ring)
    requires forall n :: n in ring ==> n.level != level
    ensures Level(next', prev', ids, level, row)
  {
    NodesMembers(level, row, 0);
    RingFrame(next, prev, Nodes(level, row), next', prev');
    forall t | t in ids && t !in row
      ensures Ring(next', prev', [Row(level, t)])
    {
      RingFrame(next, prev, [Row(level, t)], next', prev');
    }
  }

  ghost function RingOf(level: nat, row: seq<nat>, t: nat): seq<Node> {
    if t in row then Nodes(level, row) else [Row(level, t)]
  }

  lemma RingOfLevel(next: map<Node, Node>, prev: map<Node, Node>, ids: set<nat>, level: nat, row: seq<nat>, t: nat)
    requires Level(next, prev, ids, level, row) && t in ids
    ensures Ring(next, prev, RingOf(level, row, t))
    ensures var k := if t in row then IndexOf(row, t) + 1 else 0;
            k < |RingOf(level, row, t)| && RingOf(level, row, t)[k] == Row(level, t)
    ensures forall n :: n in RingOf(level, row, t) ==> n.level == level
  {
    NodesMembers(level, row, t);
  }

  // A level after one of its timers, or an unlisted one, was taken out.
  lemma LevelRemoved(next: map<Node, Node>, prev: map<Node, Node>, next': map<Node, Node>, prev': map<Node, Node>,
                     ids: set<nat>, level: nat, row: seq<nat>, t: nat)
    requires Level(next, prev, ids, level, row) && t in ids && Distinct(row)
    requires var ring := RingOf(level, row, t);
             var k := if t in row then IndexOf(row, t) + 1 else 0;
             && Untouched(next, prev, next', prev', ring) && Ring(next', prev', [Row(level, t)])
             && k < |ring| && (|ring| > 1 ==> Ring(next', prev', Drop(ring, k)))
    ensures Level(next', prev', ids, level, Without(row, t))
  {
    WithoutIs(row, t);
    NodesMembers(level, row, t);
    if t in row {
      NodesRemove(level, row, t);
    } else {
      RingFrame(next, prev, Nodes(level, row), next', prev');
    }
    forall u | u in ids && u !in Without(row, t)
      ensures Ring(next', prev', [Row(level, u)])
    {
      if u != t {
        NodesMembers(level, row, u);
        RingFrame(next, prev, [Row(level, u)], next', prev');
      }
    }
  }

  // A level after an unlisted timer was put in.
  lemma LevelInserted(next: map<Node, Node>, prev: map<Node, Node>, next': map<Node, Node>, prev': map<Node, Node>,
                      ids: set<nat>, level: nat, row: seq<nat>, t: nat, k: nat)
    requires Level(next, prev, ids, level, row) && t !in row && k <= |row|
    requires Untouched(next, prev, next', prev', Nodes(level, row) + [Row(level, t)])
    requires Ring(next', prev', Insert(Nodes(level, row), k + 1, Row(level, t)))
    ensures Level(next', prev', ids, level, Insert(row, k, t))
  {
    NodesInsert(level, row, k, t);
    InsertMembers(row, k, t);
    forall u | u in ids && u !in Insert(row, k, t)
      ensures Ring(next', prev', [Row(level, u)])
    {
      NodesMembers(level, row, u);
      RingFrame(next, prev, [Row(level, u)], next', prev');
    }
  }

  // Level l is part of the next denser level.
  ghost predicate PartOf(rows: seq<seq<nat>>, l: nat)
    requires l + 1 < |rows|
  {
    forall u :: u in rows[l] ==> u in rows[l + 1]
  }

  // The first k timers of a level do not expire after `timeout`.
  ghost predicate Passed(timers: map<nat, Timer>, row: seq<nat>, k: nat, timeout: int) {
    k <= |row| && forall j :: 0 <= j < k ==> !Later(timers, row[j], timeout)
  }

  // Node n stands for position k of level l.
  ghost predicate Stands(n: Node, l: nat, row: seq<nat>, k: nat) {
    k <= |row| && n == Nodes(l, row)[k]
  }

  ghost predicate RowKnown(timers: map<nat, Timer>, row: seq<nat>) {
    forall u :: u in row ==> u in timers
  }

  // Node n is where a timer expiring at `timeout` goes on level l.
  ghost predicate Placed(n: Node, l: nat, row: seq<nat>, timers: map<nat, Timer>, timeout: int) {
    RowKnown(timers, row) && Stands(n, l, row, Rank(row, timers, timeout))
  }

  // A sparser level keeps the order of the denser one: it is an order-preserving sub-list.
  lemma SparserKeepsOrder(sparse: TS, dense: TS, i: nat, j: nat)
    requires Inv(sparse) && Inv(dense) && sparse.now == dense.now && sparse.timers == dense.timers
    requires forall u :: u in sparse.pending ==> u in dense.pending
    requires i < j < |sparse.pending|
    ensures IndexOf(dense.pending, sparse.pending[i]) < IndexOf(dense.pending, sparse.pending[j])
  {
    var u, v := sparse.pending[i], sparse.pending[j];
    assert Before(sparse, u, v);
    var a, b := IndexOf(dense.pending, u), IndexOf(dense.pending, v);
    assert dense.pending[a] == u && dense.pending[b] == v;
  }

  // ----- one level under the calls of the whole list

  // A level that timer t was not put on, although it was started.
  ghost function SkippedF(s: TS, t: nat): TS
    requires t in s.timers && Known(s)
  {
    StartEndF(s, t).(pending := s.pending)
  }

  lemma SkippedInv(s: TS, t: nat)
    requires Inv(s) && t in s.timers && t !in s.pending
    ensures Inv(SkippedF(s, t))
  {
    var s1 := s.(timers := SkippedF(s, t).timers);
    UnlistedChange(s, t, s1.timers[t]);
    forall i, j | 0 <= i < j < |s1.pending|
      ensures Before(SkippedF(s, t), s1.pending[i], s1.pending[j])
    {
      assert Before(s1, s1.pending[i], s1.pending[j]);
    }
  }

  // The two things the last part of a start can do to a level.
  ghost function LevelF(s: TS, t: nat, listed: bool): (s': TS)
    requires Inv(s) && t in s.timers && t !in s.pending && Ahead(s, t) < HALF
    ensures Inv(s') && s'.now == s.now && s'.starts == s.starts + 1 && s'.acts == s.acts
    ensures s'.timers == s.timers[t := s.timers[t].(activated := true, started := s.starts)]
    ensures forall u :: u in s'.pending <==> (u == t && listed) || (u != t && u in s.pending)
  {
    StartEndInv(s, t);
    SkippedInv(s, t);
    if listed then StartEndF(s, t) else SkippedF(s, t)
  }

  // ----- all levels

  ghost predicate LevelsLinked(next: map<Node, Node>, prev: map<Node, Node>, ids: set<nat>, rows: seq<seq<nat>>) {
    forall l :: 0 <= l < |rows| ==> Level(next, prev, ids, l, rows[l])
  }

  // All list heads, and one node of every timer for every level.
  function AllNodes(levels: nat, ids: set<nat>): set<Node> {
    (set l | 0 <= l < levels :: Head(l)) + (set l, t | 0 <= l < levels && t in ids :: Row(l, t))
  }

  lemma NothingListed(next: map<Node, Node>, prev: map<Node, Node>, ids: set<nat>, rows: seq<seq<nat>>)
    requires next == prev && forall n :: n in AllNodes(|rows|, ids) ==> n in next && next[n] == n
    requires forall l :: 0 <= l < |rows| ==> rows[l] == []
    ensures LevelsLinked(next, prev, ids, rows)
  {
  }

  lemma NothingSound(rows: seq<seq<nat>>, tick: int, timers: map<nat, Timer>, acts: seq<seq<Action>>)
    requires WellSet(TS(tick, timers, [], 0, acts)) && forall l :: 0 <= l < |rows| ==> rows[l] == []
    ensures Sound(rows, tick, timers, 0, acts)
  {
    forall l | 0 <= l < |rows|
      ensures Inv(TS(tick, timers, rows[l], 0, acts))
    {
    }
  }

  // Relinking one level leaves the others linked.
  lemma OneRelinked(next: map<Node, Node>, prev: map<Node, Node>, next': map<Node, Node>, prev': map<Node, Node>,
                    ids: set<nat>, rows: seq<seq<nat>>, i: nat, row': seq<nat>, ring: seq<Node>)
    requires LevelsLinked(next, prev, ids, rows) && i < |rows| && Level(next', prev', ids, i, row')
    requires Untouched(next, prev, next', prev', ring) && forall n :: n in ring ==> n.level == i
    ensures LevelsLinked(next', prev', ids, rows[i := row'])
  {
    forall l | 0 <= l < |rows| && l != i
      ensures Level(next', prev', ids, l, rows[l])
    {
      assert Level(next, prev, ids, l, rows[l]);
      LevelFrame(next, prev, next', prev', ids, l, rows[l], ring);
    }
  }

  // Every level is in order, and every level is part of the next denser one.
  ghost predicate Sound(rows: seq<seq<nat>>, tick: int, timers: map<nat, Timer>, starts: nat, acts: seq<seq<Action>>) {
    && (forall l :: 0 <= l < |rows| ==> Inv(TS(tick, timers, rows[l], starts, acts)))
    && (forall l :: 0 <= l < |rows| - 1 ==> PartOf(rows, l))
  }

  lemma SoundWithout(rows: seq<seq<nat>>, tick: int, timers: map<nat, Timer>, starts: nat, acts: seq<seq<Action>>,
                     t: nat, rows': seq<seq<nat>>)
    requires Sound(rows, tick, timers, starts, acts) && |rows'| == |rows|
    requires forall l :: 0 <= l < |rows| ==> rows'[l] == Without(rows[l], t)
    ensures Sound(rows', tick, timers, starts, acts)
    ensures forall l :: 0 <= l < |rows| ==> t !in rows'[l]
  {
    forall l | 0 <= l < |rows|
      ensures Inv(TS(tick, timers, rows'[l], starts, acts)) && t !in rows'[l]
    {
      WithoutInv(TS(tick, timers, rows[l], starts, acts), t);
      WithoutIs(rows[l], t);
    }
    forall l | 0 <= l < |rows| - 1
      ensures PartOf(rows', l)
    {
      assert PartOf(rows, l);
      assert Inv(TS(tick, timers, rows[l], starts, acts)) && Inv(TS(tick, timers, rows[l + 1], starts, acts));
      WithoutIs(rows[l], t);
      WithoutIs(rows[l + 1], t);
    }
  }

  lemma SoundRetimed(rows: seq<seq<nat>>, tick: int, timers: map<nat, Timer>, starts: nat, acts: seq<seq<Action>>,
                     t: nat, tm: Timer)
    requires Sound(rows, tick, timers, starts, acts) && t in timers
    requires 1 <= tm.init < HALF && 0 <= tm.timeout < WORD
    requires forall l :: 0 <= l < |rows| ==> t !in rows[l]
    ensures Sound(rows, tick, timers[t := tm], starts, acts)
  {
    forall l | 0 <= l < |rows|
      ensures Inv(TS(tick, timers[t := tm], rows[l], starts, acts))
    {
      UnlistedChange(TS(tick, timers, rows[l], starts, acts), t, tm);
    }
  }

  // Changing flags and periods disturbs no level.
  lemma SoundFlagged(rows: seq<seq<nat>>, tick: int, timers: map<nat, Timer>, starts: nat, acts: seq<seq<Action>>,
                     t: nat, tm: Timer)
    requires Sound(rows, tick, timers, starts, acts) && t in timers && 1 <= tm.init < HALF
    requires tm.timeout == timers[t].timeout && tm.started == timers[t].started
    ensures Sound(rows, tick, timers[t := tm], starts, acts)
  {
    forall l | 0 <= l < |rows|
      ensures Inv(TS(tick, timers[t := tm], rows[l], starts, acts))
    {
      SameClocks(TS(tick, timers, rows[l], starts, acts), TS(tick, timers[t := tm], rows[l], starts, acts));
    }
  }

  lemma SoundStarted(rows: seq<seq<nat>>, tick: int, timers: map<nat, Timer>, starts: nat, acts: seq<seq<Action>>,
                     t: nat, rows': seq<seq<nat>>, from: nat)
    requires Sound(rows, tick, timers, starts, acts) && t in timers && |rows'| == |rows| && from < |rows|
    requires Sub(timers[t].timeout, tick) < HALF && forall l :: 0 <= l < |rows| ==> t !in rows[l]
    requires forall l :: 0 <= l < from ==> rows'[l] == rows[l]
    requires forall l :: from <= l < |rows| ==>
               RowKnown(timers, rows[l])
               && rows'[l] == Insert(rows[l], Rank(rows[l], timers, timers[t].timeout), t)
    ensures var tm := timers[t].(activated := true, started := starts);
            Sound(rows', tick, timers[t := tm], starts + 1, acts)
    ensures var s, tm := TS(tick, timers, rows[|rows| - 1], starts, acts),
            timers[t].(activated := true, started := starts);
            Known(s) && TS(tick, timers[t := tm], rows'[|rows| - 1], starts + 1, acts) == StartEndF(s, t)
  {
    var tm := timers[t].(activated := true, started := starts);
    forall l | 0 <= l < |rows|
      ensures Inv(TS(tick, timers, rows[l], starts, acts))
      ensures TS(tick, timers[t := tm], rows'[l], starts + 1, acts)
              == LevelF(TS(tick, timers, rows[l], starts, acts), t, l >= from)
    {
      assert Inv(TS(tick, timers, rows[l], starts, acts));
      hide Inv, Sound, Rank, Insert, RowKnown;
    }
    hide Inv, Rank, Insert, RowKnown, StartEndF, SkippedF;
    forall l | 0 <= l < |rows| - 1
      ensures PartOf(rows', l)
    {
      assert PartOf(rows, l);
      assert rows'[l] == LevelF(TS(tick, timers, rows[l], starts, acts), t, l >= from).pending;
      assert rows'[l + 1] == LevelF(TS(tick, timers, rows[l + 1], starts, acts), t, l + 1 >= from).pending;
    }
  }

  lemma SoundLater(rows: seq<seq<nat>>, tick: int, timers: map<nat, Timer>, starts: nat, acts: seq<seq<Action>>)
    requires Sound(rows, tick, timers, starts, acts) && acts != []
    ensures Sound(rows, tick, timers, starts, acts[1..])
  {
    forall l | 0 <= l < |rows|
      ensures Inv(TS(tick, timers, rows[l], starts, acts[1..]))
    {
      SameClocks(TS(tick, timers, rows[l], starts, acts), TS(tick, timers, rows[l], starts, acts[1..]));
    }
  }

  class TimerList {
    const levels: nat                 // RT_TIMER_SKIP_LIST_LEVEL
    var next: map<Node, Node>
    var prev: map<Node, Node>
    var timers: map<nat, Timer>
    var tick: int
    var randomNr: bv32
    var acts: seq<seq<Action>>        // what the timeout functions yet to be called will do
    var starts: nat                   // numbers the start calls, for the ordering law only
    ghost var rows: seq<seq<nat>>

    // rt_system_timer_init and rt_timer_init: no timer is started, every node points to itself.
    constructor (levels: nat, initial: map<nat, Timer>, calls: seq<seq<Action>>, tick: int)
      requires levels > 0 && WellSet(TS(tick, initial, [], 0, calls))
      ensures Valid() && this.levels == levels && View() == TS(tick, initial, [], 0, calls)
    {
      this.levels, this.acts, this.tick, this.timers, this.randomNr, this.starts := levels, calls, tick, initial, 0, 0;
      rows := seq(levels, l => []);
      next := map n | n in AllNodes(levels, initial.Keys) :: n;
      prev := map n | n in AllNodes(levels, initial.Keys) :: n;
      new;
      ghost var ids, rows0 := initial.Keys, rows;
      assert forall l :: 0 <= l < |rows| ==> rows[l] == [];
      assert next == prev && forall n :: n in AllNodes(levels, ids) ==> n in next && next[n] == n;
      hide *;
      NothingListed(next, prev, ids, rows);
      NothingSound(rows, tick, initial, calls);
    }

    // The timers as level l shows them.
    ghost function At(l: nat): TS
      requires l < |rows|
      reads this
    {
      TS(tick, timers, rows[l], starts, acts)
    }

    ghost function View(): TS
      requires |rows| == levels > 0
      reads this
    {
      At(levels - 1)
    }

    ghost predicate Linked()
      reads `next, `prev, `timers, `rows
    {
      |rows| == levels > 0 && LevelsLinked(next, prev, timers.Keys, rows)
    }

    ghost predicate Valid()
      reads this
    {
      Linked() && Sound(rows, tick, timers, starts, acts)
    }

    // rt_list_remove
    method ListRemove(n: Node, ghost ring: seq<Node>, ghost k: nat)
      requires Ring(next, prev, ring) && k < |ring| && ring[k] == n
      modifies `next, `prev
      ensures |ring| > 1 ==> Ring(next, prev, Drop(ring, k))
      ensures Ring(next, prev, [n])
      ensures Untouched(old(next), old(prev), next, prev, ring)
    {
      ghost var next1 := next[prev[n] := next[n]];
      ghost var prev1 := prev[next[n] := prev[n]];
      if |ring| > 1 {
        RingRemove(next, prev, ring, k, next1, prev1);
        DropOut(ring, k);
        RingFrame(next1, prev1, Drop(ring, k), next1[n := n], prev1[n := n]);
      }
      LinksInRing(next, prev, ring, k);
      prev := prev[next[n] := prev[n]];
      next := next[prev[n] := next[n]];
      next := next[n := n];
      prev := prev[n := n];
    }

    lemma DropOut(ring: seq<Node>, k: nat)
      requires k < |ring| && Distinct(ring)
      ensures ring[k] !in Drop(ring, k)
    {
    }

    lemma LinksInRing(next: map<Node, Node>, prev: map<Node, Node>, ring: seq<Node>, k: nat)
      requires Ring(next, prev, ring) && k < |ring|
      ensures next[ring[k]] in ring && prev[ring[k]] in ring
              && (|ring| > 1 ==> next[ring[k]] != ring[k] && prev[ring[k]] != ring[k])
      ensures |ring| == 1 ==> next[ring[k]] == ring[k] && prev[ring[k]] == ring[k]
    {
      assert next[ring[k]] == ring[if k + 1 < |ring| then k + 1 else 0];
      assert prev[ring[k]] == ring[if k > 0 then k - 1 else |ring| - 1];
    }

    // rt_list_insert_after
    method ListInsertAfter(l: Node, n: Node, ghost ring: seq<Node>, ghost k: nat)
      requires Ring(next, prev, ring) && k < |ring| && ring[k] == l && n !in ring
      modifies `next, `prev
      ensures Ring(next, prev, Insert(ring, k + 1, n))
      ensures Untouched(old(next), old(prev), next, prev, ring + [n])
    {
      LinksInRing(next, prev, ring, k);
      ghost var after := next[l];
      RingInsert(next, prev, ring, k, n, next[n := after][l := n], prev[after := n][n := l]);
      prev := prev[next[l] := n];
      next := next[n := next[l]];
      next := next[l := n];
      prev := prev[n := l];
    }
  
    // One turn of _rt_timer_remove.
    method RemoveAt(i: nat, t: nat)
      requires Linked() && t in timers && i < levels && Distinct(rows[i])
      modifies `next, `prev, `rows
      ensures Linked() && rows == old(rows)[i := Without(old(rows)[i], t)]
    {
      hide Ring, Level, Untouched, Without, IndexOf, RingOf;
      ghost var row, next0, prev0 := rows[i], next, prev;
      assert Level(next, prev, timers.Keys, i, row);
      ghost var k := if t in row then IndexOf(row, t) + 1 else 0;
      RingOfLevel(next, prev, timers.Keys, i, row, t);
      ListRemove(Row(i, t), RingOf(i, row, t), k);
      LevelRemoved(next0, prev0, next, prev, timers.Keys, i, row, t);
      OneRelinked(next0, prev0, next, prev, timers.Keys, rows, i, Without(row, t), RingOf(i, row, t));
      rows := rows[i := Without(row, t)];
    }

    // _rt_timer_remove
    method RemoveAll(t: nat)
      requires Linked() && t in timers && forall l :: 0 <= l < levels ==> Distinct(rows[l])
      modifies `next, `prev, `rows
      ensures Linked()
      ensures forall l :: 0 <= l < levels ==> rows[l] == Without(old(rows)[l], t)
    {
      hide Ring, Level, Without, IndexOf, Distinct;
      var i := 0;
      while i < levels
        invariant i <= levels && Linked()
        invariant forall l :: 0 <= l < i ==> rows[l] == Without(old(rows)[l], t)
        invariant forall l :: i <= l < levels ==> rows[l] == old(rows)[l]
      {
        RemoveAt(i, t);
        i := i + 1;
      }
    }

    // The search of rt_timer_start: on every level, the node after which a timer expiring at
    // `timeout` belongs, each level starting from where the sparser one stopped.
    method FindPlaces(timeout: int) returns (heads: seq<Node>)
      requires Valid() && Sub(timeout, tick) < HALF
      ensures |heads| == levels
      ensures forall l :: 0 <= l < levels ==> Placed(heads[l], l, rows[l], timers, timeout)
    {
      hide Inv, Ring, Sub, Passed, Stands, Placed;
      heads := [];
      var head := Head(0);
      ghost var k: nat := 0;
      AtStart(timeout);
      var i := 0;
      while i < levels
        invariant i <= levels && |heads| == i
        invariant i < levels ==> Stands(head, i, rows[i], k) && Passed(timers, rows[i], k, timeout)
        invariant forall l :: 0 <= l < i ==> Placed(heads[l], l, rows[l], timers, timeout)
      {
        head, k := WalkLevel(i, head, k, timeout);
        ghost var heads0 := heads;
        heads := heads + [head];
        assert forall l :: 0 <= l < i ==> heads[l] == heads0[l];
        if i + 1 < levels {
          head, k := Descend(head, k, i, timeout);
        }
        i := i + 1;
      }
    }

    lemma AtStart(timeout: int)
      requires Valid()
      ensures Stands(Head(0), 0, rows[0], 0) && Passed(timers, rows[0], 0, timeout)
    {
    }

    // The inner loop of the search, on level i.
    method WalkLevel(i: nat, from: Node, ghost k0: nat, timeout: int) returns (head: Node, ghost k: nat)
      requires Valid() && i < levels && Stands(from, i, rows[i], k0) && Passed(timers, rows[i], k0, timeout)
      ensures Stands(head, i, rows[i], k) && Passed(timers, rows[i], k, timeout)
      ensures Placed(head, i, rows[i], timers, timeout)
    {
      hide Linked, Sound, Sub, Level, Rank, Nodes;
      ViewIs();
      head, k := from, k0;
      Walk(i, k);
      while head != prev[Head(i)]
        invariant Stands(head, i, rows[i], k) && Passed(timers, rows[i], k, timeout)
        decreases |rows[i]| - k
      {
        Walk(i, k);
        var p := next[head];
        var d := Sub(timers[p.id].timeout, timeout);
        if d != 0 && d < HALF { break; }
        head := p;
        k := k + 1;
      }
      Walk(i, k);
      RankUnique(rows[i], timers, timeout, k);
    }

    // Position k of level l.
    lemma Walk(l: nat, k: nat)
      requires Valid() && l < levels && k <= |rows[l]|
      ensures RowKnown(timers, rows[l])
      ensures var n := Nodes(l, rows[l])[k];
              && Head(l) in prev && n in next && (n == prev[Head(l)] <==> k == |rows[l]|)
              && (k < |rows[l]| ==> next[n] == Row(l, rows[l][k]) && rows[l][k] in timers)
    {
      var ring := Nodes(l, rows[l]);
      assert Level(next, prev, timers.Keys, l, rows[l]) && Inv(At(l));
      assert prev[ring[0]] == ring[|ring| - 1];
      assert k < |rows[l]| ==> next[ring[k]] == ring[k + 1];
    }

    // The same timer one level down.
    method Descend(head: Node, ghost k: nat, i: nat, ghost timeout: int) returns (down: Node, ghost k': nat)
      requires Valid() && Sub(timeout, tick) < HALF
      requires i + 1 < levels && Stands(head, i, rows[i], k) && Passed(timers, rows[i], k, timeout)
      ensures Stands(down, i + 1, rows[i + 1], k') && Passed(timers, rows[i + 1], k', timeout)
    {
      down := if head.Head? then Head(i + 1) else Row(i + 1, head.id);
      if k == 0 {
        k' := 0;
      } else {
        assert PartOf(rows, i);
        ghost var u, row := rows[i][k - 1], rows[i + 1];
        assert u in rows[i];
        k' := IndexOf(row, u) + 1;
        EarlierPassed(i + 1, IndexOf(row, u), timeout);
      }
    }

    // What comes before a timer that is not later is not later.
    lemma EarlierPassed(l: nat, m: nat, timeout: int)
      requires Valid() && Sub(timeout, tick) < HALF && l < levels && m < |rows[l]|
      requires !Later(timers, rows[l][m], timeout)
      ensures Passed(timers, rows[l], m + 1, timeout)
    {
      var s, row := At(l), rows[l];
      assert Inv(s);
      forall j | 0 <= j <= m
        ensures !Later(timers, row[j], timeout)
      {
        if j < m { assert Before(s, row[j], row[m]); }
        SubOrder(timers[row[j]].timeout, timeout, tick);
        SubOrder(timers[row[m]].timeout, timeout, tick);
      }
    }
  
    // Timer t goes on level l, right after node head.
    method PutAt(l: nat, head: Node, t: nat, ghost k: nat)
      requires Linked() && t in timers && l < levels && t !in rows[l] && Stands(head, l, rows[l], k)
      modifies `next, `prev, `rows
      ensures Linked() && rows == old(rows)[l := Insert(old(rows)[l], k, t)]
    {
      hide Ring, Level, Untouched, Insert;
      ghost var row, next0, prev0 := rows[l], next, prev;
      NodesMembers(l, row, t);
      assert Level(next, prev, timers.Keys, l, row);
      LevelRing(next, prev, timers.Keys, l, row);
      ListInsertAfter(head, Row(l, t), Nodes(l, row), k);
      LevelInserted(next0, prev0, next, prev, timers.Keys, l, row, t, k);
      OneRelinked(next0, prev0, next, prev, timers.Keys, rows, l, Insert(row, k, t), Nodes(l, row) + [Row(l, t)]);
      rows := rows[l := Insert(row, k, t)];
    }

    // The insertion loop of rt_timer_start: the densest level always gets the timer, each sparser
    // one only if the next two bits of the counter are zero.
    method PutIn(heads: seq<Node>, t: nat, ghost timeout: int) returns (ghost from: nat)
      requires Linked() && t in timers && |heads| == levels
      requires forall l :: 0 <= l < levels ==> t !in rows[l] && Placed(heads[l], l, rows[l], timers, timeout)
      modifies `next, `prev, `rows, `randomNr
      ensures Linked() && from < levels && randomNr == old(randomNr) + 1
      ensures forall l :: 0 <= l < from ==> rows[l] == old(rows)[l]
      ensures forall l :: from <= l < levels ==>
                RowKnown(timers, old(rows)[l]) && rows[l] == Insert(old(rows)[l], Rank(old(rows)[l], timers, timeout),
                    t)
    {
      hide Level, Insert, Rank, Stands;
      randomNr := randomNr + 1;
      var tst := randomNr;
      PutAt(levels - 1, heads[levels - 1], t, Rank(rows[levels - 1], timers, timeout));
      from := levels - 1;
      var rowLvl := 2;
      while rowLvl <= levels
        invariant 2 <= rowLvl <= levels + 1 && from == levels - rowLvl + 1 && Linked() && |rows| == levels
        invariant randomNr == old(randomNr) + 1
        invariant forall l :: 0 <= l < from ==> rows[l] == old(rows)[l]
        invariant forall l :: from <= l < levels ==>
                    RowKnown(timers, old(rows)[l])
                        && rows[l] == Insert(old(rows)[l], Rank(old(rows)[l], timers, timeout), t)
      {
        if tst & SKIP_LIST_MASK != 0 { break; }
        var l := levels - rowLvl;
        assert rows[l] == old(rows)[l];
        PutAt(l, heads[l], t, Rank(rows[l], timers, timeout));
        from := l;
        tst := tst >> SKIP_LIST_SHIFT;
        rowLvl := rowLvl + 1;
      }
    }

    // Takes timer t off all levels.
    method Detach(t: nat)
      requires Valid() && t in timers
      modifies `next, `prev, `rows
      ensures Valid() && forall l :: 0 <= l < levels ==> t !in rows[l] && rows[l] == Without(old(rows)[l], t)
    {
      ghost var rows0 := rows;
      assert forall l :: 0 <= l < levels ==> Inv(At(l)) && Distinct(rows[l]);
      hide Inv, Without, Sound, Level;
      RemoveAll(t);
      SoundWithout(rows0, tick, timers, starts, acts, t, rows);
    }

    // The first section of rt_timer_start: the timer leaves all levels and is flagged stopped.
    method StartBegin(t: nat)
      requires Valid() && t in timers
      modifies `next, `prev, `timers, `rows
      ensures Valid() && View() == StartBeginF(old(View()), t) && timers.Keys == old(timers).Keys && Unlisted(t)
      ensures forall u :: u in old(timers) ==> timers[u].init == old(timers)[u].init
    {
      hide Inv, LevelsLinked, Sound, Without;
      Detach(t);
      Deactivate(t);
      assert timers.Keys == old(timers).Keys;
    }

    // The statement between the sections: the timer gets its new timeout.
    method StartTime(t: nat)
      requires Valid() && t in timers && Unlisted(t)
      modifies `timers
      ensures Valid() && View() == StartTimeF(old(View()), t) && timers.Keys == old(timers).Keys && Unlisted(t)
      ensures Sub(timers[t].timeout, tick) < HALF
    {
      WellTimed(t);
      hide Inv, LevelsLinked, Sound, Sub;
      timers := timers[t := timers[t].(timeout := (tick + timers[t].init) % WORD)];
      SoundRetimed(rows, tick, old(timers), starts, acts, t, timers[t]);
      assert timers == old(timers)[t := timers[t]] && timers.Keys == old(timers).Keys;
    }

    ghost predicate Unlisted(t: nat)
      reads `rows
    {
      forall l :: 0 <= l < |rows| ==> t !in rows[l]
    }

    // The second section: the timer is put in where it belongs, and flagged active.
    method StartEnd(t: nat)
      requires Valid() && t in timers && Unlisted(t) && Sub(timers[t].timeout, tick) < HALF
      modifies `next, `prev, `timers, `randomNr, `starts, `rows
      ensures Valid() && Known(old(View())) && View() == StartEndF(old(View()), t)
      ensures randomNr == old(randomNr) + 1
    {
      hide Inv, LevelsLinked, Sound, Sub, Placed, RowKnown, Insert, Rank, Known, StartEndF;
      var heads := FindPlaces(timers[t].timeout);
      ghost var from := PutIn(heads, t, timers[t].timeout);
      timers := timers[t := timers[t].(activated := true, started := starts)];
      starts := starts + 1;
      SoundStarted(old(rows), tick, old(timers), old(starts), acts, t, rows, from);
      assert timers.Keys == old(timers).Keys;
    }

    // rt_timer_start
    method Start(t: nat)
      requires Valid() && t in timers
      modifies `next, `prev, `timers, `randomNr, `starts, `rows
      ensures Valid() && Known(old(View())) && View() == StartF(old(View()), t)
      ensures randomNr == old(randomNr) + 1
    {
      ViewInv();
      ViewDistinct();
      hide Inv, LevelsLinked, Sound, Sub, Known, StartF, StartBeginF, StartTimeF, StartEndF, Distinct, Unlisted;
      StartParts(View(), t);
      StartBegin(t);
      StartTime(t);
      StartEnd(t);
    }

    lemma ViewDistinct()
      requires Valid()
      ensures Distinct(View().pending)
    {
      ViewInv();
    }

    // rt_timer_stop; false stands for -RT_ERROR.
    method Stop(t: nat) returns (ok: bool)
      requires Valid() && t in timers
      modifies `next, `prev, `timers, `rows
      ensures Valid() && View() == StopF(old(View()), t) && ok == old(timers)[t].activated
    {
      if !timers[t].activated { return false; }
      hide Inv, LevelsLinked, Sound, Without;
      Detach(t);
      Deactivate(t);
      return true;
    }

    // rt_timer_control
    method SetTime(t: nat, ticks: int)
      requires Valid() && t in timers && 1 <= ticks < HALF
      modifies `timers
      ensures Valid() && View() == ActF(old(View()), Action.SetTime(t, ticks))
    {
      WellTimed(t);
      hide Inv, LevelsLinked, Sound;
      timers := timers[t := timers[t].(init := ticks)];
      SoundFlagged(rows, tick, old(timers), starts, acts, t, timers[t]);
      assert timers == old(timers)[t := timers[t]] && timers.Keys == old(timers).Keys;
    }

    method SetPeriodic(t: nat, on: bool)
      requires Valid() && t in timers
      modifies `timers
      ensures Valid() && View() == ActF(old(View()), Action.SetPeriodic(t, on))
    {
      WellTimed(t);
      hide Inv, LevelsLinked, Sound;
      timers := timers[t := timers[t].(periodic := on)];
      SoundFlagged(rows, tick, old(timers), starts, acts, t, timers[t]);
      assert timers == old(timers)[t := timers[t]] && timers.Keys == old(timers).Keys;
    }

    // What a timeout function does to timers, one call at a time.
    method Perform(a: Action)
      requires Valid() && WellSetAction(a)
      modifies `next, `prev, `timers, `randomNr, `starts, `rows
      ensures Valid() && Known(old(View())) && View() == ActF(old(View()), a)
    {
      ViewInv();
      hide Inv, LevelsLinked, Sound, StartF, StopF;
      if a.id in timers {
        match a
        case Start(t) => Start(t);
        case Stop(t) => var ok := Stop(t);
        case SetTime(t, n) => SetTime(t, n);
        case SetPeriodic(t, on) => SetPeriodic(t, on);
      }
    }

    lemma ViewInv()
      requires Valid()
      ensures Inv(View()) && Known(View())
    {
    }

    method PerformAll(todo: seq<Action>)
      requires Valid() && forall i :: 0 <= i < |todo| ==> WellSetAction(todo[i])
      modifies `next, `prev, `timers, `randomNr, `starts, `rows
      ensures Valid() && Known(old(View())) && View() == ActsF(old(View()), todo)
    {
      ViewInv();
      hide Inv, LevelsLinked, Sound, ActF;
      var i := 0;
      while i < |todo|
        invariant i <= |todo| && Valid() && Known(View())
        invariant ActsF(View(), todo[i..]) == ActsF(old(View()), todo)
      {
        ActKnown(View(), todo[i]);
        assert todo[i..][0] == todo[i] && todo[i..][1..] == todo[i + 1..];
        Perform(todo[i]);
        i := i + 1;
      }
      assert todo[i..] == [];
    }

    // One turn of the loop of rt_timer_check, for the timer at the head of the list.
    method Fire(t: nat)
      requires Valid() && t in timers
      modifies `next, `prev, `timers, `randomNr, `starts, `rows, `acts
      ensures Valid() && Known(old(View())) && View() == FireF(old(View()), t)
    {
      ViewInv();
      ActsWellSet(t);
      hide Inv, LevelsLinked, Sound, StartF, ActsF, Without;
      Detach(t);
      var todo := NextCall();
      ViewInv();
      PerformAll(todo);
      var again := timers[t].periodic && timers[t].activated;
      Deactivate(t);
      if again { Start(t); }
    }

    // What the timeout function about to be called does.
    method NextCall() returns (todo: seq<Action>)
      requires Valid()
      modifies `acts
      ensures Valid() && todo == NextActs(old(View())) && View() == old(View()).(acts := LaterActs(old(View())))
    {
      if acts == [] { return []; }
      todo := acts[0];
      SoundLater(rows, tick, timers, starts, acts);
      acts := acts[1..];
    }

    method Deactivate(t: nat)
      requires Valid() && t in timers
      modifies `timers
      ensures Valid() && timers == old(timers)[t := old(timers)[t].(activated := false)]
    {
      WellTimed(t);
      hide Inv, LevelsLinked, Sound;
      timers := timers[t := timers[t].(activated := false)];
      SoundFlagged(rows, tick, old(timers), starts, acts, t, timers[t]);
      assert timers == old(timers)[t := timers[t]] && timers.Keys == old(timers).Keys;
    }

    lemma ActsWellSet(t: nat)
      requires Valid()
      ensures Known(View()) && forall i :: 0 <= i < |NextActs(View())| ==> WellSetAction(NextActs(View())[i])
    {
      ViewInv();
      TakenInv(View(), t);
    }

    // rt_timer_check; `fired` lists the timers whose functions ran.
    method Check() returns (fired: seq<nat>)
      requires Valid()
      modifies `next, `prev, `timers, `randomNr, `starts, `rows, `acts
      ensures Valid() && Inv(old(View())) && (View(), fired) == CheckF(old(View()))
    {
      ViewInv();
      ViewIs();
      hide *;
      fired := [];
      FirstNode();
      ghost var goal := CheckF(View());
      ReachedStart(View());
      while next[Head(levels - 1)] != Head(levels - 1)
        invariant Valid() && Head(levels - 1) in next && |rows| == levels > 0
        invariant Reached(goal, fired, View())
        decreases Remaining(View())
      {
        FirstNode();
        ViewIs();
        var t := next[Head(levels - 1)].id;
        if Sub(tick, timers[t].timeout) >= HALF { break; }
        ReachedStep(goal, fired, View());
        Fire(t);
        ViewIs();
        FirstNode();
        fired := fired + [t];
      }
      ViewIs();
      FirstNode();
      ReachedEnd(goal, fired, View());
    }

    lemma ViewIs()
      requires Valid()
      ensures levels > 0 && |rows| == levels
      ensures View().timers == timers && View().now == tick && View().pending == rows[levels - 1]
    {
      hide Inv, Sound, LevelsLinked;
    }

    // The head of the densest level.
    lemma FirstNode()
      requires Valid()
      ensures levels > 0 && |rows| == levels && Head(levels - 1) in next
      ensures var row := rows[levels - 1];
              && next[Head(levels - 1)] == (if row == [] then Head(levels - 1) else Row(levels - 1, row[0]))
              && (row != [] ==> row[0] in timers)
    {
      hide *;
      ViewIs();
      KnownPending();
      LevelAt(levels - 1);
      HeadLink(next, prev, timers.Keys, levels - 1, rows[levels - 1]);
    }

    lemma LevelAt(l: nat)
      requires Valid() && l < levels
      ensures |rows| == levels && Level(next, prev, timers.Keys, l, rows[l])
    {
      hide Sound, Level;
    }

    lemma KnownPending()
      requires Valid()
      ensures |rows| == levels > 0 && forall u :: u in rows[levels - 1] ==> u in timers
    {
      assert Inv(At(levels - 1));
      hide Inv;
      InvKnown(View());
    }

    // The timer half of rt_tick_increase.
    method Tick() returns (fired: seq<nat>)
      requires Valid() && Quiet(View())
      modifies `tick, `next, `prev, `timers, `randomNr, `starts, `rows, `acts
      ensures Valid() && (View(), fired) == StepF(old(View()), Event.Tick)
    {
      hide *;
      ViewIs();
      TickStep(View());
      Advance();
      fired := Check();
    }

    method Advance()
      requires Valid() && levels > 0 && |rows| == levels && Quiet(View())
      modifies `tick
      ensures Valid() && |rows| == levels && View() == TickF(old(View()))
    {
      hide Inv, LevelsLinked, Sound, Quiet;
      Quieter();
      tick := (tick + 1) % WORD;
    }

    // On every level the clock may advance, because no listed timer is due.
    lemma Quieter()
      requires Valid() && Quiet(View())
      ensures Sound(rows, (tick + 1) % WORD, timers, starts, acts)
    {
      hide Inv, Quiet, LevelsLinked, TickF;
      forall l | 0 <= l < levels
        ensures Inv(TS((tick + 1) % WORD, timers, rows[l], starts, acts))
      {
        forall u | u in rows[l]
          ensures u in rows[levels - 1]
        {
          InDensest(l, u);
        }
        assert Inv(At(l));
        QuietLevel(At(l), View());
      }
    }

    lemma InDensest(l: nat, u: nat)
      requires Valid() && l < levels && u in rows[l]
      ensures u in rows[levels - 1]
      decreases levels - l
    {
      if l < levels - 1 {
        assert PartOf(rows, l);
        InDensest(l + 1, u);
      }
    }

    lemma WellTimed(t: nat)
      requires Valid() && t in timers
      ensures 1 <= timers[t].init < HALF && 0 <= (tick + timers[t].init) % WORD < WORD
      ensures Sub((tick + timers[t].init) % WORD, tick) < HALF
    {
      assert Inv(At(0));
      SubAdd(tick, timers[t].init);
    }
  }

  lemma HeadLink(next: map<Node, Node>, prev: map<Node, Node>, ids: set<nat>, level: nat, row: seq<nat>)
    requires Level(next, prev, ids, level, row)
    ensures Head(level) in next && next[Head(level)] == if row == [] then Head(level) else Row(level, row[0])
  {
    var ring := Nodes(level, row);
    assert ring[0] == Head(level);
    assert next[ring[0]] == if |ring| > 1 then ring[1] else ring[0];
  }

  // What is still to fire in state s, after `fired`, is what the whole check comes to.
  ghost predicate Reached(goal: (TS, seq<nat>), fired: seq<nat>, s: TS) {
    Inv(s) && goal == (CheckF(s).0, fired + CheckF(s).1)
  }

  ghost function Remaining(s: TS): nat {
    if Known(s) then |DueSet(s)| else 0
  }

  lemma ReachedStart(s: TS)
    requires Inv(s)
    ensures Reached(CheckF(s), [], s)
  {
    assert [] + CheckF(s).1 == CheckF(s).1;
  }

  lemma ReachedStep(goal: (TS, seq<nat>), fired: seq<nat>, s: TS)
    requires Reached(goal, fired, s) && s.pending != [] && s.pending[0] in s.timers
    requires Sub(s.now, s.timers[s.pending[0]].timeout) < HALF
    ensures var t := s.pending[0];
            && Known(s) && Reached(goal, fired + [t], FireF(s, t)) && Remaining(FireF(s, t)) < Remaining(s)
  {
    var t := s.pending[0];
    FireDue(s, t);
    assert Known(s) && Known(FireF(s, t)) && t in DueSet(s);
    var rest := CheckF(FireF(s, t)).1;
    assert fired + ([t] + rest) == (fired + [t]) + rest;
    hide Inv, FireF;
    SubsetSmaller(DueSet(FireF(s, t)), DueSet(s), t);
  }

  lemma ReachedEnd(goal: (TS, seq<nat>), fired: seq<nat>, s: TS)
    requires Reached(goal, fired, s)
    requires s.pending != [] ==> s.pending[0] in s.timers && Sub(s.now, s.timers[s.pending[0]].timeout) >= HALF
    ensures goal == (s, fired)
  {
    assert fired + [] == fired;
  }

  lemma TickStep(s: TS)
    requires Quiet(s)
    ensures Inv(TickF(s)) && StepF(s, Event.Tick) == CheckF(TickF(s))
  {
    TickInv(s);
  }

  lemma QuietLevel(s: TS, v: TS)
    requires Inv(s) && Quiet(v) && s.now == v.now && s.timers == v.timers
    requires forall u :: u in s.pending ==> u in v.pending
    ensures Inv(TS((s.now + 1) % WORD, s.timers, s.pending, s.starts, s.acts))
  {
    assert Quiet(s) by {
      forall u | u in s.pending
        ensures Ahead(s, u) >= 1
      {
        assert Ahead(v, u) >= 1;
      }
    }
    TickInv(s);
  }

  lemma InvKnown(s: TS)
    requires Inv(s)
    ensures Known(s) && forall u :: u in s.pending ==> u in s.timers
  {
  }

  lemma LevelRing(next: map<Node, Node>, prev: map<Node, Node>, ids: set<nat>, level: nat, row: seq<nat>)
    requires Level(next, prev, ids, level, row)
    ensures Ring(next, prev, Nodes(level, row))
  {
  }
}
