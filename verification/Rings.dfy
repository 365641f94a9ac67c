// Circular doubly linked lists, as every list of the kernel is one: the list head is a node
// like the others, and the links of the last node lead back to it. A list is given by its two
// link maps and by the ghost sequence `ring` of its nodes, head first.
module Rings {

  ghost predicate Distinct<T(!new)>(s: seq<T>) {
    forall i, j :: 0 <= i < j < |s| ==> s[i] != s[j]
  }

  function Drop<T>(s: seq<T>, k: nat): (r: seq<T>)
    requires k < |s|
  {
    s[..k] + s[k + 1..]
  }

  function Insert<T>(s: seq<T>, k: nat, x: T): (r: seq<T>)
    requires k <= |s|
  {
    s[..k] + [x] + s[k..]
  }

  function IndexOf<T(==)>(s: seq<T>, x: T): (i: nat)
    requires x in s
    ensures i < |s| && s[i] == x
    ensures forall j :: 0 <= j < i ==> s[j] != x
  {
    if s[0] == x then 0 else 1 + IndexOf(s[1..], x)
  }

  function Remove<T(==,!new)>(s: seq<T>, x: T): (r: seq<T>)
    requires x in s
    ensures |r| == |s| - 1
    ensures forall y :: y != x ==> (y in r <==> y in s)
  {
    DropMembers(s, IndexOf(s, x));
    Drop(s, IndexOf(s, x))
  }

  lemma DropMembers<T(!new)>(s: seq<T>, k: nat)
    requires k < |s|
    ensures forall y :: y != s[k] ==> (y in Drop(s, k) <==> y in s)
  {
    forall y | y != s[k] && y in s
      ensures y in Drop(s, k)
    {
      var i :| 0 <= i < |s| && s[i] == y;
      assert Drop(s, k)[if i < k then i else i - 1] == y;
    }
  }

  lemma DropTwice<T>(s: seq<T>, i: nat)
    requires i + 1 < |s|
    ensures Drop(Drop(s, i), i) == Drop(Drop(s, i + 1), i)
  {
  }

  lemma RemoveDistinct<T(!new)>(s: seq<T>, x: T)
    requires x in s && Distinct(s)
    ensures Distinct(Remove(s, x)) && x !in Remove(s, x)
  {
  }

  lemma IndexUnique<T(!new)>(s: seq<T>, k: nat)
    requires k < |s| && Distinct(s)
    ensures IndexOf(s, s[k]) == k
  {
  }

  function Without<T(==,!new)>(s: seq<T>, t: T): (r: seq<T>)
  {
    if t in s then Remove(s, t) else s
  }

  lemma WithoutIs<T(!new)>(s: seq<T>, t: T)
    requires Distinct(s)
    ensures Distinct(Without(s, t)) && t !in Without(s, t)
    ensures forall u :: u in Without(s, t) <==> u in s && u != t
    ensures var k := if t in s then IndexOf(s, t) else |s|;
            |Without(s, t)| <= |s| && forall i :: 0 <= i < |Without(s, t)| ==>
              (if i < k then i else i + 1) < |s| && Without(s, t)[i] == s[if i < k then i else i + 1]
  {
    if t in s { RemoveDistinct(s, t); }
  }

  lemma InsertMembers<T(!new)>(s: seq<T>, k: nat, x: T)
    requires k <= |s|
    ensures forall y :: y in Insert(s, k, x) <==> y == x || y in s
  {
    assert s == s[..k] + s[k..];
  }

  lemma InsertedTwice<T(!new)>(s: seq<T>, k: nat, x: T)
    requires x in s && k <= |s|
    ensures !Distinct(Insert(s, k, x))
  {
    var i :| 0 <= i < |s| && s[i] == x;
    var r := Insert(s, k, x);
    assert r[k] == x && r[if i < k then i else i + 1] == x;
  }

  // `ring` lists the nodes of one circular list: each `next` link leads to the following node,
  // each `prev` link to the preceding one, and both close the circle.
  ghost predicate Ring<T(!new)>(next: map<T, T>, prev: map<T, T>, ring: seq<T>) {
    && |ring| > 0
    && Distinct(ring)
    && (forall i :: 0 <= i < |ring| ==> ring[i] in next && ring[i] in prev)
    && (forall i :: 0 <= i < |ring| - 1 ==> next[ring[i]] == ring[i + 1])
    && next[ring[|ring| - 1]] == ring[0]
    && (forall i :: 0 < i < |ring| ==> prev[ring[i]] == ring[i - 1])
    && prev[ring[0]] == ring[|ring| - 1]
  }

  // The four link writes of an insertion put the new node `a` right after node k.
  lemma RingInsert<T(!new)>(next: map<T, T>, prev: map<T, T>, ring: seq<T>, k: nat, a: T,
                            next': map<T, T>, prev': map<T, T>)
    requires Ring(next, prev, ring) && k < |ring| && a !in ring
    requires next' == next[a := next[ring[k]]][ring[k] := a]
    requires prev' == prev[next[ring[k]] := a][a := ring[k]]
    ensures Ring(next', prev', Insert(ring, k + 1, a))
  {
    var r', n := Insert(ring, k + 1, a), |ring|;
    assert r'[k + 1] == a && next[ring[k]] == ring[if k + 1 < n then k + 1 else 0];
    forall i | 0 <= i <= n
      ensures r'[i] in next' && r'[i] in prev'
      ensures next'[r'[i]] == r'[if i < n then i + 1 else 0] && prev'[r'[if i < n then i + 1 else 0]] == r'[i]
    {
      assert i <= k ==> r'[i] == ring[i];
      assert i > k + 1 ==> r'[i] == ring[i - 1];
    }
  }

  // The two link writes of a removal take node k out.
  lemma RingRemove<T(!new)>(next: map<T, T>, prev: map<T, T>, ring: seq<T>, k: nat,
                            next': map<T, T>, prev': map<T, T>)
    requires Ring(next, prev, ring) && k < |ring| && |ring| > 1
    requires prev' == prev[next[ring[k]] := prev[ring[k]]]
    requires next' == next[prev[ring[k]] := next[ring[k]]]
    ensures Ring(next', prev', Drop(ring, k))
  {
    var r' := Drop(ring, k);
    assert forall i :: 0 <= i < k ==> r'[i] == ring[i];
    assert forall i :: k <= i < |r'| ==> r'[i] == ring[i + 1];
    var n := |ring|;
    assert prev[ring[k]] == ring[if k > 0 then k - 1 else n - 1];
    assert next[ring[k]] == ring[if k < n - 1 then k + 1 else 0];
  }

  // A ring only depends on the links of its own nodes.
  lemma RingFrame<T(!new)>(next: map<T, T>, prev: map<T, T>, ring: seq<T>,
                           next': map<T, T>, prev': map<T, T>)
    requires Ring(next, prev, ring)
    requires forall x :: x in ring ==> x in next' && next'[x] == next[x]
    requires forall x :: x in ring ==> x in prev' && prev'[x] == prev[x]
    ensures Ring(next', prev', ring)
  {
    forall i | 0 <= i < |ring|
      ensures ring[i] in next' && next'[ring[i]] == next[ring[i]]
      ensures ring[i] in prev' && prev'[ring[i]] == prev[ring[i]]
    {
      assert ring[i] in ring;
    }
  }

  // With the last two writes of rt_list_remove the node taken out is a list of its own.
  lemma RingDetach<T(!new)>(next: map<T, T>, prev: map<T, T>, ring: seq<T>, k: nat,
                            next': map<T, T>, prev': map<T, T>)
    requires Ring(next, prev, ring) && k < |ring| && |ring| > 1
    requires var n := ring[k]; prev' == prev[next[n] := prev[n]][n := n] && next' == next[prev[n] := next[n]][n := n]
    ensures Ring(next', prev', Drop(ring, k)) && Ring(next', prev', [ring[k]])
  {
    var n := ring[k];
    var next1, prev1 := next[prev[n] := next[n]], prev[next[n] := prev[n]];
    RingRemove(next, prev, ring, k, next1, prev1);
    assert forall i :: 0 <= i < |Drop(ring, k)| ==> Drop(ring, k)[i] == ring[if i < k then i else i + 1];
    RingFrame(next1, prev1, Drop(ring, k), next', prev');
  }
}
