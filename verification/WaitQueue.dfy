// The order of a suspend list: rt_ipc_list_suspend of ipc.c. Threads are numbers, smaller
// priorities are more urgent.
module WaitQueue {
  import opened Rings

  datatype Flag = Fifo | Prio     // RT_IPC_FLAG_FIFO, RT_IPC_FLAG_PRIO

  ghost predicate Known(queue: seq<nat>, prio: map<nat, nat>) {
    forall t :: t in queue ==> t in prio
  }

  // The position of the first waiter that is less urgent than p, or the end.
  function Place(queue: seq<nat>, prio: map<nat, nat>, p: nat): (k: nat)
    requires Known(queue, prio)
    ensures k <= |queue|
    ensures forall i :: 0 <= i < k ==> prio[queue[i]] <= p
    ensures k < |queue| ==> p < prio[queue[k]]
  {
    if queue == [] || p < prio[queue[0]] then 0
    else
      assert forall i :: 0 <= i < |queue[1..]| ==> queue[1..][i] == queue[i + 1];
      1 + Place(queue[1..], prio, p)
  }

  // Where a waiter of priority p goes.
  function Position(flag: Flag, queue: seq<nat>, prio: map<nat, nat>, p: nat): (k: nat)
    requires Known(queue, prio)
    ensures k <= |queue|
  {
    match flag
    case Fifo => |queue|
    case Prio => Place(queue, prio, p)
  }

  function Enqueue(flag: Flag, queue: seq<nat>, prio: map<nat, nat>, t: nat): (r: seq<nat>)
    requires Known(queue, prio) && t in prio
  {
    Insert(queue, Position(flag, queue, prio, prio[t]), t)
  }

  lemma EnqueueMembers(flag: Flag, queue: seq<nat>, prio: map<nat, nat>, t: nat)
    requires Known(queue, prio) && t in prio
    ensures forall u :: u in Enqueue(flag, queue, prio, t) <==> u == t || u in queue
  {
    InsertMembers(queue, Position(flag, queue, prio, prio[t]), t);
  }

  ghost predicate Sorted(queue: seq<nat>, prio: map<nat, nat>)
    requires Known(queue, prio)
  {
    forall i, j :: 0 <= i < j < |queue| ==> prio[queue[i]] <= prio[queue[j]]
  }

  // By priority, a new waiter goes behind all that are at least as urgent and before all others;
  // the queue stays sorted, the earlier waiters keep their order.
  lemma EnqueueLaw(queue: seq<nat>, prio: map<nat, nat>, t: nat)
    requires Known(queue, prio) && t in prio && Sorted(queue, prio)
    ensures Known(Enqueue(Prio, queue, prio, t), prio) && Sorted(Enqueue(Prio, queue, prio, t), prio)
    ensures var k := Place(queue, prio, prio[t]);
            && Enqueue(Prio, queue, prio, t) == queue[..k] + [t] + queue[k..]
            && (forall u :: u in queue[..k] ==> prio[u] <= prio[t])
            && (forall u :: u in queue[k..] ==> prio[t] < prio[u])
  {
    var k := Place(queue, prio, prio[t]);
    InsertMembers(queue, k, t);
    forall i | k <= i < |queue|
      ensures prio[t] < prio[queue[i]]
    {
      assert prio[queue[k]] <= prio[queue[i]];
    }
  }

  // The waiter at the head is the most urgent one, and of equals the one that waits longest.
  lemma HeadIsMostUrgent(queue: seq<nat>, prio: map<nat, nat>, t: nat)
    requires Known(queue, prio) && Sorted(queue, prio) && t in queue
    ensures prio[queue[0]] <= prio[t]
  {
    var i :| 0 <= i < |queue| && queue[i] == t;
  }

  // Taking out any waiter keeps the order.
  lemma DropSorted(queue: seq<nat>, prio: map<nat, nat>, t: nat)
    requires Known(queue, prio) && Sorted(queue, prio) && Distinct(queue)
    ensures Known(Without(queue, t), prio) && Sorted(Without(queue, t), prio)
  {
    WithoutIs(queue, t);
  }

  // The list walk of rt_ipc_list_suspend.
  method Find(flag: Flag, queue: seq<nat>, prio: map<nat, nat>, t: nat) returns (k: nat)
    requires Known(queue, prio) && t in prio
    ensures k <= |queue| && k == Position(flag, queue, prio, prio[t])
    ensures Insert(queue, k, t) == Enqueue(flag, queue, prio, t)
  {
    k := |queue|;
    if flag == Prio {
      var n := 0;
      while n < |queue|
        invariant n <= |queue| && k == |queue|
        invariant forall i :: 0 <= i < n ==> prio[queue[i]] <= prio[t]
      {
        if prio[t] < prio[queue[n]] {
          k := n;
          break;
        }
        n := n + 1;
      }
      PlaceUnique(queue, prio, prio[t], k);
    }
  }

  lemma PlaceUnique(queue: seq<nat>, prio: map<nat, nat>, p: nat, k: nat)
    requires Known(queue, prio) && k <= |queue|
    requires forall i :: 0 <= i < k ==> prio[queue[i]] <= p
    requires k < |queue| ==> p < prio[queue[k]]
    ensures Place(queue, prio, p) == k
  {
  }
}
