// rt-thread/src/scheduler.c and thread.c: the ready lists with their bit masks, and the calls that
// change a thread's state. Without SMP and without signals; hooks, stacks and objects are left out.
module Scheduler {
  import opened Wrappers
  import opened Rings
  import opened ReadyBits
  import opened WaitQueue
  import opened Threads
  import opened ThreadLaws

  // A bit is set exactly for the ready lists that are not empty.
  ghost predicate BitsFor(b: Bits, lists: map<List, seq<nat>>) {
    && Whole(b)
    && forall p: nat :: p < Limit(b.wide) ==> PrioList(p) in lists && (Marked(b, p) <==> lists[PrioList(p)] != [])
  }

  // Every started thread carries the masks of its priority.
  ghost predicate MasksFor(wide: bool, masks: map<nat, Masks>, threads: map<nat, Thread>) {
    forall t :: t in threads ==>
      t in masks && threads[t].prio < Limit(wide)
      && (threads[t].stat != Init ==> masks[t] == MasksOf(wide, threads[t].prio))
  }

  // `link` tells for each thread which list its node is linked into.
  ghost predicate LinksFor(link: map<nat, Option<List>>, lists: map<List, seq<nat>>) {
    && (forall l :: l in lists ==> Distinct(lists[l]))
    && (forall l, t :: On(lists, l, t) ==> t in link && link[t] == Some(l))
    && (forall t :: t in link && link[t].Some? ==> On(lists, link[t].value, t))
  }

  lemma BitsUnlinked(b: Bits, lists: map<List, seq<nat>>, t: nat, p: nat)
    requires BitsFor(b, lists) && p < Limit(b.wide)
    requires forall l :: l in lists ==> Distinct(lists[l])
    requires forall q :: On(lists, PrioList(q), t) ==> q == p
    ensures PrioList(p) in Unlinked(lists, t) && (b.wide ==> |b.table| == 32 && MasksOf(b.wide, p).number < 32)
    ensures BitsFor(if Unlinked(lists, t)[PrioList(p)] == [] then Unmark(b, MasksOf(b.wide, p)) else b,
            Unlinked(lists, t))
  {
    hide Whole, Marked, MasksOf, Unmark, Distinct;
    WholeTable(b);
    UnlinkedIs(lists, t);
    MarksStay(b, p);
    var after := Unlinked(lists, t);
    forall q: nat | q < Limit(b.wide)
      ensures Whole(Unmark(b, MasksOf(b.wide, p)))
      ensures Marked(Unmark(b, MasksOf(b.wide, p)), q) <==> Marked(b, q) && q != p
      ensures q != p ==> after[PrioList(q)] == lists[PrioList(q)]
    {
      UnmarkLaw(b, p, q);
      if q != p { WithoutAbsent(lists, PrioList(q), t); }
    }
    if after[PrioList(p)] != [] {
      assert On(after, PrioList(p), after[PrioList(p)][0]);
      assert On(lists, PrioList(p), after[PrioList(p)][0]);
    }
  }

  lemma WithoutAbsent(lists: map<List, seq<nat>>, l: List, t: nat)
    requires l in lists && !On(lists, l, t)
    ensures Unlinked(lists, t)[l] == lists[l]
  {
  }

  lemma WholeTable(b: Bits)
    requires Whole(b)
    ensures b.wide ==> |b.table| == 32
  {
  }

  lemma MarksStay(b: Bits, p: nat)
    requires Whole(b) && p < Limit(b.wide)
    ensures b.wide ==> |b.table| == 32 && MasksOf(b.wide, p).number < 32
    ensures Whole(Mark(b, MasksOf(b.wide, p))) && Whole(Unmark(b, MasksOf(b.wide, p)))
  {
    hide Whole, Marked, MasksOf, Mark, Unmark;
    WholeTable(b);
    MarkLaw(b, p, p);
    UnmarkLaw(b, p, p);
  }

  lemma BitsLinked(b: Bits, lists: map<List, seq<nat>>, t: nat, p: nat, pos: nat)
    requires BitsFor(b, lists) && p < Limit(b.wide) && PrioList(p) in lists && pos <= |lists[PrioList(p)]|
    ensures b.wide ==> |b.table| == 32 && MasksOf(b.wide, p).number < 32
    ensures BitsFor(Mark(b, MasksOf(b.wide, p)), Linked(lists, PrioList(p), pos, t))
  {
    hide Whole, Marked, MasksOf, Mark;
    WholeTable(b);
    MarksStay(b, p);
    forall q: nat | q < Limit(b.wide)
      ensures Marked(Mark(b, MasksOf(b.wide, p)), q) <==> Marked(b, q) || q == p
    {
      MarkLaw(b, p, q);
    }
  }

  // Lists of other kinds do not show in the bits.
  lemma BitsOther(b: Bits, lists: map<List, seq<nat>>, l: List, queue: seq<nat>)
    requires BitsFor(b, lists) && !l.PrioList?
    ensures BitsFor(b, lists[l := queue])
  {
    hide Whole, Marked;
  }

  // The bit search finds the first ready list that is not empty.
  lemma HighestIs(b: Bits, lists: map<List, seq<nat>>)
    requires BitsFor(b, lists)
    ensures forall q: nat :: q < Limit(b.wide) ==> PrioList(q) in lists
    ensures FirstReady(lists, 0, Limit(b.wide)) == if b.group == 0 then None else Some(Highest(b))
  {
    hide Whole, Marked, Highest, FirstReady;
    WholeTable(b);
    var top := FirstReady(lists, 0, Limit(b.wide));
    HighestLaw(b, 0);
    if top.Some? { HighestLaw(b, top.value); }
  }

  lemma LinksUnlinked(link: map<nat, Option<List>>, lists: map<List, seq<nat>>, t: nat)
    requires LinksFor(link, lists) && t in link
    ensures LinksFor(link[t := None], Unlinked(lists, t))
    ensures Unlinked(lists, t) ==
              if link[t].Some? then lists[link[t].value := Without(lists[link[t].value], t)] else lists
  {
    hide Distinct, Without;
    UnlinkedIs(lists, t);
    forall l | l in lists && !On(lists, l, t)
      ensures Unlinked(lists, t)[l] == lists[l]
    {
      WithoutAbsent(lists, l, t);
    }
  }

  lemma LinksLinked(link: map<nat, Option<List>>, lists: map<List, seq<nat>>, l: List, pos: nat, t: nat)
    requires LinksFor(link, lists) && t in link && link[t] == None && l in lists && pos <= |lists[l]|
    ensures LinksFor(link[t := Some(l)], Linked(lists, l, pos, t))
  {
    hide Distinct, Linked;
    OffIs(link, lists, t);
    LinkedIs(lists, l, pos, t);
  }

  lemma OffIs(link: map<nat, Option<List>>, lists: map<List, seq<nat>>, t: nat)
    requires LinksFor(link, lists) && t in link
    ensures link[t] == None <==> Off(lists, t)
  {
    forall l | l in lists && t in lists[l]
      ensures link[t] == Some(l)
    {
      assert On(lists, l, t);
    }
  }

  class Scheduler {
    const wide: bool                            // RT_THREAD_PRIORITY_MAX > 32
    var lists: map<List, seq<nat>>              // rt_thread_priority_table, suspend lists, rt_thread_defunct
    var group: bv32                             // rt_thread_ready_priority_group
    var table: seq<bv8>                         // rt_thread_ready_table
    var threads: map<nat, Thread>
    var masks: map<nat, Masks>                  // number, number_mask and high_mask of each thread
    var link: map<nat, Option<List>>            // tlist of each thread
    var current: nat                            // rt_current_thread
    var lockNest: int                           // rt_scheduler_lock_nest

    ghost function View(): K
      reads this
    {
      K(Limit(wide), threads, lists, current, lockNest)
    }

    ghost predicate Shape()
      reads `lists, `group, `table, `threads, `masks, `link
    {
      && BitsFor(Bits(wide, group, table), lists)
      && MasksFor(wide, masks, threads)
      && LinksFor(link, lists)
      && link.Keys == threads.Keys
      && Defunct in lists
    }

    ghost predicate Valid()
      reads this
    {
      Inv(View()) && Shape()
    }

    // rt_system_scheduler_init, and rt_system_scheduler_start with thread `first` the only one started.
    constructor (wide: bool, initial: map<nat, Thread>, first: nat)
      requires first in initial
      requires forall t :: t in initial ==> initial[t].stat == Init && Sound(initial[t], Limit(wide))
      ensures Valid() && this.wide == wide && current == first && lockNest == 0
      ensures threads == initial[first := initial[first].(stat := Running)]
    {
      hide Whole, Marked, MasksOf, NoLists;
      this.wide := wide;
      lists := NoLists(wide);
      group := 0;
      table := seq(32, i => 0);
      threads := initial[first := initial[first].(stat := Running)];
      masks := map t | t in initial :: MasksOf(wide, initial[t].prio);
      link := map t | t in initial :: None;
      current := first;
      lockNest := 0;
      new;
      NoListsIs(wide);
      NoBits(wide);
    }

    static function NoLists(wide: bool): map<List, seq<nat>> {
      (map p: nat | p < Limit(wide) :: PrioList(p) := [])[Defunct := []]
    }

    static lemma NoListsIs(wide: bool)
      ensures var lists := NoLists(wide);
              && Defunct in lists && (forall p: nat :: p < Limit(wide) ==>
                 PrioList(p) in lists && lists[PrioList(p)] == [])
              && (forall l :: l in lists ==> lists[l] == []) && (forall l, t :: !On(lists, l, t))
    {
    }

    static lemma NoBits(wide: bool)
      ensures var b := Bits(wide, 0, seq(32, i => 0));
              Whole(b) && forall p: nat :: p < Limit(wide) ==> !Marked(b, p)
    {
      var b := Bits(wide, 0, seq(32, i => 0));
      assert Whole(b) by {
        forall n: bv8 | n < 32 ensures Row(b, n) { PrioNat(0, n); }
      }
      forall p: nat | p < Limit(wide)
        ensures !Marked(b, p)
      {
        hide Marked;
        HighestLaw(b, p);
      }
    }

    // rt_list_remove on a thread's node
    method ListRemove(t: nat)
      requires LinksFor(link, lists) && t in link
      modifies `lists, `link
      ensures LinksFor(link, lists) && lists == Unlinked(old(lists), t) && link == old(link)[t := None]
    {
      hide LinksFor, Unlinked, Without;
      LinksUnlinked(link, lists, t);
      if link[t].Some? {
        LinkedWhere(link, lists, t);
        lists := lists[link[t].value := Without(lists[link[t].value], t)];
      }
      link := link[t := None];
    }

    lemma LinkedWhere(link: map<nat, Option<List>>, lists: map<List, seq<nat>>, t: nat)
      requires LinksFor(link, lists) && t in link && link[t].Some?
      ensures link[t].value in lists
    {
      assert On(lists, link[t].value, t);
    }

    // rt_list_insert_before on the node at position pos of list l, or on its head at the end
    method ListInsert(l: List, pos: nat, t: nat)
      requires LinksFor(link, lists) && t in link && link[t] == None && l in lists && pos <= |lists[l]|
      modifies `lists, `link
      ensures LinksFor(link, lists) && lists == Linked(old(lists), l, pos, t) && link == old(link)[t := Some(l)]
    {
      LinksLinked(link, lists, l, pos, t);
      lists := lists[l := Insert(lists[l], pos, t)];
      link := link[t := Some(l)];
    }

    // rt_schedule_remove_thread
    method RemoveThread(t: nat)
      requires Shape() && t in threads && threads[t].stat != Init
      requires forall q :: On(lists, PrioList(q), t) ==> q == threads[t].prio
      modifies `lists, `link, `group, `table
      ensures Shape() && lists == Unlinked(old(lists), t) && link == old(link)[t := None]
    {
      hide LinksFor, Unlinked, Without, BitsFor;
      var p := threads[t].prio;
      ListsDistinct(link, lists);
      BitsUnlinked(Bits(wide, group, table), lists, t, p);
      UnlinkedMembers(lists, t);
      ListRemove(t);
      if lists[PrioList(p)] == [] {
        var b := Unmark(Bits(wide, group, table), masks[t]);
        group, table := b.group, b.table;
      }
    }

    lemma ListsDistinct(link: map<nat, Option<List>>, lists: map<List, seq<nat>>)
      requires LinksFor(link, lists)
      ensures forall l :: l in lists ==> Distinct(lists[l])
    {
    }

    // rt_schedule_insert_thread
    method InsertThread(t: nat)
      requires Shape() && t in threads && threads[t].initPrio < Limit(wide)
      requires threads[t].stat != Init && (t != current ==> link[t] == None)
      modifies `lists, `link, `group, `table, `threads
      ensures Exists(old(View()), t) && HasLists(old(View()))
      ensures Shape() && View() == InsertF(old(View()), t)
    {
      hide LinksFor, BitsFor, MasksFor, MasksOf, Mark;
      BitsLists(Bits(wide, group, table), lists);
      HasMasks(t);
      if t == current {
        SetThread(t, threads[t].(stat := Running));
        return;
      }
      SetThread(t, threads[t].(stat := Ready));
      var p := threads[t].prio;
      BitsLinked(Bits(wide, group, table), lists, t, p, |lists[PrioList(p)]|);
      ListInsert(PrioList(p), |lists[PrioList(p)]|, t);
      var b := Mark(Bits(wide, group, table), masks[t]);
      group, table := b.group, b.table;
    }

    lemma HasMasks(t: nat)
      requires Shape() && t in threads
      ensures t in masks && t in link && threads[t].prio < Limit(wide)
      ensures threads[t].stat != Init ==> masks[t] == MasksOf(wide, threads[t].prio)
    {
    }

    // Assignments to a thread's fields other than its priority.
    method SetThread(t: nat, th: Thread)
      requires Shape() && t in threads && th.prio == threads[t].prio
      requires threads[t].stat != Init || th.stat == Init
               || (t in masks && th.prio < Limit(wide) && masks[t] == MasksOf(wide, th.prio))
      modifies `threads
      ensures Shape() && threads == old(threads)[t := th]
    {
      hide LinksFor, BitsFor, MasksOf;
      threads := threads[t := th];
    }

    // A change of priority, with the masks that go with it.
    method SetPriority(t: nat, p: nat)
      requires Shape() && t in threads && p < Limit(wide)
      modifies `threads, `masks
      ensures Shape() && threads == old(threads)[t := old(threads)[t].(prio := p)]
      ensures t in masks && masks[t] == MasksOf(wide, p)
    {
      hide LinksFor, BitsFor, MasksOf;
      threads := threads[t := threads[t].(prio := p)];
      masks := masks[t := MasksOf(wide, p)];
    }

    lemma BitsLists(b: Bits, lists: map<List, seq<nat>>)
      requires BitsFor(b, lists)
      ensures forall p: nat :: p < Limit(b.wide) ==> PrioList(p) in lists
    {
    }

    // rt_schedule
    method Schedule()
      requires Valid()
      modifies `lists, `link, `group, `table, `threads, `current
      ensures HasLists(old(View())) && Exists(old(View()), old(current))
      ensures forall l, t :: On(old(lists), l, t) ==> t in old(threads)
      ensures Valid() && View() == ScheduleF(old(View()))
    {
      hide LinksFor, BitsFor, MasksFor, Inv, Unlinked, FirstReady, Highest, Whole, Off;
      ScheduleInv(View());
      CurrentFacts();
      if lockNest == 0 {
        HighestIs(Bits(wide, group, table), lists);
        if group != 0 {
          BitsWhole(Bits(wide, group, table), lists);
          var highest := Highest(Bits(wide, group, table));
          ToFacts(highest);
          var to := lists[PrioList(highest)][0];
          var needInsert := false;
          if threads[current].stat == Running {
            if threads[current].prio < highest { to := current; } else { needInsert := true; }
          }
          if to != current {
            Switch(to, highest, needInsert);
          } else {
            RemoveThread(current);
            UnlinkedSame(old(lists), current);
            threads := threads[current := threads[current].(stat := Running)];
            assert threads == old(threads);
          }
        }
      }
    }

    // The switching part of rt_schedule.
    method Switch(to: nat, ghost highest: nat, needInsert: bool)
      requires Shape() && to in threads && current in threads && to != current
      requires threads[to].stat == Ready && threads[to].prio == highest
      requires forall q :: On(lists, PrioList(q), to) ==> q == highest
      requires threads[current].stat != Init && threads[current].initPrio < Limit(wide)
      requires needInsert ==> link[current] == None && Off(lists, current)
      modifies `lists, `link, `group, `table, `threads, `current
      ensures Shape() && current == to
      ensures Exists(old(View()), old(current)) && HasLists(old(View()))
      ensures var k1 := old(View()).(current := to);
              var k2 := if needInsert then InsertF(k1, old(current)) else k1;
              to in k2.threads
              && View() == k2.(lists := Unlinked(k2.lists, to),
                 threads := k2.threads[to := k2.threads[to].(stat := Running)])
    {
      hide LinksFor, BitsFor, MasksFor, Unlinked, Off, InsertF, On;
      BitsLists(Bits(wide, group, table), lists);
      LimitsOk(View());
      var from := current;
      current := to;
      if needInsert {
        InsertThread(from);
        InsertedElsewhere(old(View()).(current := to), from, to);
      }
      RemoveThread(to);
      SetThread(to, threads[to].(stat := Running));
    }

    lemma LimitsOk(k: K)
      requires Shape() && k == View()
      ensures forall t :: t in threads ==> threads[t].prio < Limit(wide)
    {
    }

    lemma InsertedElsewhere(k: K, from: nat, to: nat)
      requires Exists(k, from) && HasLists(k) && from != to && to in k.threads
      ensures to in InsertF(k, from).threads && InsertF(k, from).threads[to] == k.threads[to]
      ensures forall q :: On(InsertF(k, from).lists, PrioList(q), to) ==> On(k.lists, PrioList(q), to)
    {
      var p := k.threads[from].prio;
      InsertMembers(k.lists[PrioList(p)], |k.lists[PrioList(p)]|, from);
    }

    lemma UnlinkedSame(lists: map<List, seq<nat>>, t: nat)
      requires Off(lists, t)
      ensures Unlinked(lists, t) == lists
    {
    }

    lemma CurrentFacts()
      requires Valid()
      ensures current in threads && threads[current].stat != Init && threads[current].initPrio < Limit(wide)
      ensures current in link && (threads[current].stat == Running ==> Off(lists, current) && link[current] == None)
      ensures forall q :: !On(lists, PrioList(q), current)
    {
      CurrentOff(View());
      hide Inv, Off;
      InvCurrent(View());
      OffIs(link, lists, current);
    }

    // The first thread of the first ready list that is not empty.
    lemma ToFacts(highest: nat)
      requires Valid() && highest < Limit(wide) && PrioList(highest) in lists && lists[PrioList(highest)] != []
      ensures var to := lists[PrioList(highest)][0];
              && to in threads && threads[to].stat == Ready && threads[to].prio == highest && to != current
              && forall q :: On(lists, PrioList(q), to) ==> q == highest
    {
      assert On(lists, PrioList(highest), lists[PrioList(highest)][0]);
    }

    lemma BitsWhole(b: Bits, lists: map<List, seq<nat>>)
      requires BitsFor(b, lists)
      ensures Whole(b)
    {
    }

    lemma InvCurrent(k: K)
      requires Inv(k)
      ensures k.current in k.threads && k.threads[k.current].stat != Init && k.threads[k.current].initPrio < k.limit
    {
    }

    // rt_thread_suspend; false stands for -RT_ERROR.
    method Suspend(t: nat) returns (ok: bool)
      requires Valid() && t in threads
      modifies `lists, `link, `group, `table, `threads
      ensures Valid() && (View(), ok) == SuspendF(old(View()), t)
      ensures ok ==> link[t] == None
    {
      hide LinksFor, BitsFor, MasksFor, Inv, Unlinked;
      SuspendInv(View(), t);
      if threads[t].stat != Ready && threads[t].stat != Running { return false; }
      OnOwnList(t);
      RemoveThread(t);
      SetThread(t, threads[t].(stat := Suspended, timed := false));
      return true;
    }

    // A thread is on no ready list but that of its priority.
    lemma OnOwnList(t: nat)
      requires Valid() && t in threads
      ensures forall q :: On(lists, PrioList(q), t) ==> q == threads[t].prio
    {
    }

    // rt_ipc_list_suspend and the timer start after it, in the blocking calls of ipc.c.
    method Block(w: nat, flag: Flag, timed: bool)
      requires Valid() && threads[current].stat == Running
      modifies `lists, `link, `group, `table, `threads
      ensures forall l, t :: On(old(lists), l, t) ==> t in old(threads)
      ensures Valid() && View() == BlockF(old(View()), w, flag, timed)
    {
      hide LinksFor, BitsFor, MasksFor, MasksOf, Inv, Unlinked, On, Insert, Position;
      BlockInv(View(), w, flag, timed);
      CurrentFacts();
      AllKnown();
      var ok := Suspend(current);
      Join(w, flag);
      SetThread(current, threads[current].(timed := timed));
    }

    // The list walk of rt_ipc_list_suspend and the insertion, for the suspended current thread.
    method Join(w: nat, flag: Flag)
      requires Valid() && current in threads && current in link && link[current] == None
      modifies `lists, `link
      ensures Shape()
      ensures var queue := if WaitList(w) in old(lists) then old(lists)[WaitList(w)] else [];
              Known(queue, Prios(View()))
                  && lists == old(lists)[WaitList(w) := Enqueue(flag, queue, Prios(View()), current)]
    {
      hide LinksFor, BitsFor, MasksFor, Inv, Unlinked, On, Insert, Position;
      if WaitList(w) !in lists { AddList(w); }
      var prio := map t | t in threads :: threads[t].prio;
      QueueKnown(w);
      var queue := lists[WaitList(w)];
      var k := WaitQueue.Find(flag, queue, prio, current);
      ListInsertOther(WaitList(w), k, current);
      assert prio == Prios(View());
    }

    lemma AllKnown()
      requires Valid()
      ensures forall l, t :: On(lists, l, t) ==> t in threads
    {
    }

    lemma QueueKnown(w: nat)
      requires Valid() && WaitList(w) in lists
      ensures forall t :: t in lists[WaitList(w)] ==> t in threads
    {
      forall t | t in lists[WaitList(w)] ensures t in threads { assert On(lists, WaitList(w), t); }
    }

    // rt_ipc_object_init: the list of a new object.
    method AddList(w: nat)
      requires Valid() && WaitList(w) !in lists
      modifies `lists
      ensures Valid() && lists == old(lists)[WaitList(w) := []]
    {
      hide Inv, BitsFor, LinksFor, MasksFor, Lists, Focus, On;
      InvLists(View());
      NewList(View(), WaitList(w));
      BitsOther(Bits(wide, group, table), lists, WaitList(w), []);
      LinksNew(link, lists, WaitList(w));
      lists := lists[WaitList(w) := []];
      FocusStays(old(View()), View());
    }

    lemma LinksNew(link: map<nat, Option<List>>, lists: map<List, seq<nat>>, l: List)
      requires LinksFor(link, lists) && l !in lists
      ensures LinksFor(link, lists[l := []])
    {
      var after := lists[l := []];
      assert forall m :: m in after ==> m == l || (m in lists && after[m] == lists[m]);
      forall t | t in link && link[t].Some?
        ensures On(after, link[t].value, t)
      {
        assert On(lists, link[t].value, t);
      }
      forall m, t | On(after, m, t)
        ensures On(lists, m, t)
      {
      }
    }

    lemma InvLists(k: K)
      requires Inv(k)
      ensures Lists(k) && Focus(k)
    {
    }

    lemma FocusStays(k: K, k': K)
      requires Inv(k) && Lists(k') && k' == k.(lists := k'.lists)
      ensures Inv(k')
    {
    }

    // Linking into a list that is no ready list.
    method ListInsertOther(l: List, pos: nat, t: nat)
      requires Shape() && t in threads && link[t] == None && l in lists && !l.PrioList? && pos <= |lists[l]|
      modifies `lists, `link
      ensures Shape() && lists == Linked(old(lists), l, pos, t) && link == old(link)[t := Some(l)]
    {
      hide LinksFor, BitsFor, MasksFor;
      BitsOther(Bits(wide, group, table), lists, l, Insert(lists[l], pos, t));
      ListInsert(l, pos, t);
    }

    // Unlinking from a list that is no ready list.
    method ListRemoveOther(t: nat)
      requires Shape() && t in threads && forall q :: !On(lists, PrioList(q), t)
      modifies `lists, `link
      ensures Shape() && lists == Unlinked(old(lists), t) && link == old(link)[t := None]
    {
      hide LinksFor, BitsFor, MasksFor, Unlinked;
      BitsUnlinkedOther(Bits(wide, group, table), lists, t);
      UnlinkedMembers(lists, t);
      ListRemove(t);
    }

    lemma BitsUnlinkedOther(b: Bits, lists: map<List, seq<nat>>, t: nat)
      requires BitsFor(b, lists) && forall q :: !On(lists, PrioList(q), t)
      ensures BitsFor(b, Unlinked(lists, t))
    {
      hide Marked, Whole;
    }

    // rt_thread_sleep up to its rt_schedule.
    method Sleep()
      requires Valid() && threads[current].stat == Running
      modifies `lists, `link, `group, `table, `threads
      ensures Valid() && View() == SleepF(old(View()))
    {
      hide LinksFor, BitsFor, MasksFor, Inv, Unlinked;
      SleepInv(View());
      CurrentFacts();
      var ok := Suspend(current);
      SetThread(current, threads[current].(timed := true));
    }

    // rt_thread_resume with interrupts disabled; false stands for -RT_ERROR.
    method Resume(t: nat) returns (ok: bool)
      requires Valid() && t in threads
      modifies `lists, `link, `group, `table, `threads
      ensures Exists(old(View()), t) && HasLists(old(View()))
      ensures Valid() && (View(), ok) == ResumeF(old(View()), t)
    {
      hide LinksFor, BitsFor, MasksFor, Inv, Unlinked, InsertF;
      ResumeInv(View(), t);
      if threads[t].stat != Suspended { return false; }
      NotReady(t);
      ListRemoveOther(t);
      SetThread(t, threads[t].(timed := false));
      InsertThread(t);
      return true;
    }

    lemma NotReady(t: nat)
      requires Valid() && t in threads && threads[t].stat != Ready
      ensures forall q :: !On(lists, PrioList(q), t)
    {
    }

    // rt_thread_timeout. That its assertion holds follows from the timer being started.
    method TimerFires(t: nat)
      requires Valid() && t in threads && threads[t].timed
      modifies `lists, `link, `group, `table, `threads, `current
      ensures Legal(old(View()), Call.TimerFires(t)) && Valid() && View() == CallF(old(View()), Call.TimerFires(t))
    {
      hide LinksFor, BitsFor, MasksFor, Inv, Unlinked, InsertF, ScheduleF;
      TimedSuspended(t);
      TimeoutInv(View(), t);
      NotReady(t);
      ListRemoveOther(t);
      SetThread(t, threads[t].(timed := false, error := Timeout));
      InsertThread(t);
      Schedule();
    }

    lemma TimedSuspended(t: nat)
      requires Valid() && t in threads && threads[t].timed
      ensures threads[t].stat == Suspended
    {
    }

    // rt_thread_startup up to its rt_schedule.
    method Startup(t: nat)
      requires Valid() && t in threads && threads[t].stat == Init
      modifies `lists, `link, `group, `table, `threads, `masks
      ensures Exists(old(View()), t) && HasLists(old(View()))
      ensures Valid() && View() == StartupF(old(View()), t)
    {
      hide LinksFor, BitsFor, MasksFor, MasksOf, Inv, Unlinked, InsertF;
      StartupInv(View(), t);
      NotReady(t);
      SetPriority(t, threads[t].initPrio);
      SetThread(t, threads[t].(stat := Suspended));
      assert threads == old(threads)[t := old(threads)[t].(prio := old(threads)[t].initPrio, stat := Suspended)];
      ListRemoveOther(t);
      SetThread(t, threads[t].(timed := false));
      InsertThread(t);
    }

    // RT_THREAD_CTRL_CHANGE_PRIORITY
    method ChangePriority(t: nat, p: nat)
      requires Valid() && t in threads && p < Limit(wide)
      modifies `lists, `link, `group, `table, `threads, `masks
      ensures Exists(old(View()), t) && HasLists(old(View()))
      ensures Valid() && View() == ChangePriorityF(old(View()), t, p)
    {
      hide LinksFor, BitsFor, MasksFor, MasksOf, Inv, Unlinked, InsertF, Off;
      ChangePriorityInv(View(), t, p);
      OnOwnList(t);
      if threads[t].stat == Ready {
        RemoveThread(t);
        SetPriority(t, p);
        InsertThread(t);
      } else {
        SetPriority(t, p);
      }
    }

    // rt_thread_delete, and rt_thread_exit up to its rt_schedule for a thread that needs clean-up.
    method Close(t: nat)
      requires Valid() && t in threads
      modifies `lists, `link, `group, `table, `threads, `masks
      ensures HasLists(old(View())) && Valid() && View() == CloseF(old(View()), t)
    {
      hide LinksFor, BitsFor, MasksFor, MasksOf, Inv, Unlinked, On;
      CloseInv(View(), t);
      OnOwnList(t);
      if threads[t].stat != Init {
        RemoveThread(t);
      } else {
        NewThreadOff(t);
        HasMasks(t);
        SetPriority(t, threads[t].prio);
        assert threads == old(threads);
      }
      SetThread(t, threads[t].(stat := Closed, timed := false));
      UnlinkedMembers(old(lists), t);
      ListInsertOther(Defunct, 0, t);
    }

    lemma NewThreadOff(t: nat)
      requires Valid() && t in threads && threads[t].stat == Init
      ensures link[t] == None && Unlinked(lists, t) == lists
    {
      NewIsOff(View(), t);
      OffIs(link, lists, t);
      UnlinkedSame(lists, t);
    }

    // rt_thread_exit of a static thread without clean-up, up to its rt_schedule.
    method Exit()
      requires Valid()
      modifies `lists, `link, `group, `table, `threads
      ensures Valid() && View() == ExitF(old(View()))
    {
      hide LinksFor, BitsFor, MasksFor, Inv, Unlinked;
      ExitInv(View());
      CurrentFacts();
      RemoveThread(current);
      SetThread(current, threads[current].(stat := Closed, timed := false));
    }

    // rt_enter_critical
    method EnterCritical()
      requires Valid()
      modifies `lockNest
      ensures Valid() && View() == EnterF(old(View()))
    {
      hide Inv;
      lockNest := Wrap16(lockNest + 1);
      LockInv(old(View()), View());
    }

    // rt_exit_critical
    method ExitCritical()
      requires Valid()
      modifies `lists, `link, `group, `table, `threads, `current, `lockNest
      ensures Inv(LeaveF(old(View()))) && Valid()
      ensures var k1 := LeaveF(old(View()));
              && Legal(k1, Call.Schedule)
              && View() == if k1.lock == 0 then CallF(k1, Call.Schedule) else k1
    {
      hide Inv, LinksFor, BitsFor, MasksFor, ScheduleF;
      lockNest := Wrap16(lockNest - 1);
      if lockNest <= 0 {
        lockNest := 0;
        LockInv(old(View()), View());
        Schedule();
      } else {
        LockInv(old(View()), View());
      }
    }
  }
}
