// The message queue of ipc.c, over the whole state of the threads. A message is sent in two critical
// sections, taking a free buffer and linking it, and received in two, unlinking a buffer and freeing
// it; the bytes are copied in between, while any number of other calls are under way.
module MessageQueues {
  import opened Wrappers
  import opened Rings
  import opened WaitQueue
  import opened Threads
  import opened ThreadLaws
  import opened Waits
  import opened Callers

  // A call between its two critical sections, with the buffer it holds. `bytes` is the sender's
  // message, `copied` tells whether it is in the buffer yet; `size` is the room the receiver has.
  datatype Flight =
    | Sending(buf: nat, bytes: seq<bv8>, urgent: bool, copied: bool)
    | Receiving(buf: nat, size: nat)

  // `free` and `queue` list the buffers on msg_queue_free and from msg_queue_head to msg_queue_tail,
  // `data` holds the bytes of all buffers. `letters` holds the message last put into each buffer.
  datatype Mq = Mq(k: K, w: nat, flag: Flag, msgSize: nat, max: nat,
                   free: seq<nat>, queue: seq<nat>, entry: nat, data: seq<seq<bv8>>, letters: map<nat, seq<bv8>>,
                   flights: map<nat, Flight>, rin: map<nat, bool>, waits: map<nat, Wait>)

  // The local variables of a receiver that has blocked.
  datatype Wait = Wait(size: nat, timeout: int, start: int)

  // ----- the critical sections

  // rt_mq_send and rt_mq_urgent, to the end of the first critical section, as call c.
  function SendBeginF(m: Mq, c: nat, bytes: seq<bv8>, urgent: bool): (r: (Mq, Error))
  {
    if |bytes| > m.msgSize then (m, Failed)
    else if m.free == [] then (m, Full)
    else (m.(free := m.free[1..], flights := m.flights[c := Sending(m.free[0], bytes, urgent, false)]), Ok)
  }

  // The copy in between.
  function SendCopyF(m: Mq, c: nat): (m': Mq)
    requires c in m.flights && m.flights[c].Sending? && m.flights[c].buf < |m.data|
    requires |m.flights[c].bytes| <= |m.data[m.flights[c].buf]|
  {
    var f := m.flights[c];
    m.(data := m.data[f.buf := f.bytes + m.data[f.buf][|f.bytes|..]], letters := m.letters[f.buf := f.bytes],
       flights := m.flights[c := f.(copied := true)])
  }

  // The second critical section: the message is linked at the tail or, urgent, at the head, and the
  // first waiting receiver is resumed.
  ghost function SendEndF(m: Mq, c: nat): (m': Mq)
    requires Inv(m.k) && c in m.flights && m.flights[c].Sending?
  {
    var f := m.flights[c];
    var m1 := m.(queue := if f.urgent then [f.buf] + m.queue else m.queue + [f.buf], entry := m.entry + 1,
        flights := m.flights - {c});
    if Queue(m.k, m.w) != [] then WakeFirstF(m1) else m1
  }

  ghost function WakeFirstF(m: Mq): (m': Mq)
    requires Inv(m.k) && Queue(m.k, m.w) != []
  {
    m.(k := WakeF(m.k, m.w), rin := m.rin[Queue(m.k, m.w)[0] := true])
  }

  // A receive that need not wait may come from any context; only a thread that runs can wait.
  predicate MayRecv(m: Mq, timeout: int) {
    m.entry == 0 && timeout != 0 ==> Free(m.k, m.rin)
  }

  // rt_mq_recv from the test of its loop on, to the end of the critical section, as call c: the
  // receiver takes the first buffer, gives up, or blocks.
  ghost function RecvBeginF(m: Mq, c: nat, size: nat, timeout: int, now: int, again: bool): (r: (Mq, Outcome))
    requires Inv(m.k) && (m.entry > 0 ==> m.queue != [])
  {
    if m.entry > 0 then (UnlinkF(m, c, size), Done(Ok))
    else if timeout == 0 then (if again then m.(k := ErrorF(m.k, m.k.current, Timeout)) else m, Done(Timeout))
    else (BlockedF(m, size, timeout, now), Blocked)
  }

  function UnlinkF(m: Mq, c: nat, size: nat): (m': Mq)
    requires m.entry > 0 && m.queue != []
  {
    m.(queue := m.queue[1..], entry := m.entry - 1, flights := m.flights[c := Receiving(m.queue[0], size)])
  }

  ghost function BlockedF(m: Mq, size: nat, timeout: int, now: int): (m': Mq)
    requires Inv(m.k)
  {
    m.(k := WaitF(m.k, m.w, m.flag, timeout), rin := m.rin[m.k.current := false],
       waits := m.waits[m.k.current := Wait(size, timeout, now)])
  }

  // rt_mq_recv, when a thread that had blocked in it runs again.
  ghost function RecvAgainF(m: Mq, c: nat, now: int): (r: (Mq, Outcome))
    requires Inv(m.k) && m.k.current in m.waits && (m.entry > 0 ==> m.queue != [])
  {
    var t := m.k.current;
    var m1, l := m.(rin := m.rin - {t}), m.waits[t];
    if m.k.threads[t].error != Ok then (m1, Done(m.k.threads[t].error))
    else RecvBeginF(m1, c, l.size, Left(l.timeout, l.start, now), now, true)
  }

  // The copy to the receiver and the last critical section of rt_mq_recv.
  function RecvEndF(m: Mq, c: nat): (r: (Mq, seq<bv8>))
    requires c in m.flights && m.flights[c].Receiving? && m.flights[c].buf < |m.data|
    requires |m.data[m.flights[c].buf]| == m.msgSize
  {
    var f := m.flights[c];
    (m.(free := [f.buf] + m.free, flights := m.flights - {c}),
     m.data[f.buf][..if f.size > m.msgSize then m.msgSize else f.size])
  }

  function Reversed(s: seq<nat>): (r: seq<nat>)
    ensures |r| == |s| && forall x :: x in r <==> x in s
  {
    if s == [] then [] else Reversed(s[1..]) + [s[0]]
  }

  // RT_IPC_CMD_RESET up to its rt_schedule: the queued buffers become free one by one.
  ghost function ResetF(m: Mq): (m': Mq)
    requires Inv(m.k)
  {
    m.(k := WakeAllF(m.k, m.w), free := Reversed(m.queue) + m.free, queue := [], entry := 0)
  }

  // rt_thread_resume of a waiting receiver, which will look again.
  ghost function ResumedF(m: Mq, t: nat): (m': Mq)
    requires Inv(m.k) && t in Queue(m.k, m.w)
  {
    QueueLaw(m.k, m.w);
    Usable(m.k);
    m.(k := ResumeF(m.k, t).0, rin := m.rin[t := true])
  }

  ghost function OtherF(m: Mq, c: Call): (m': Mq)
    requires Inv(m.k) && Legal(m.k, c)
  {
    m.(k := CallF(m.k, c), rin := After(m.rin, c))
  }

  ghost predicate Others(m: Mq, c: Call) {
    Outside(m.k, m.w, m.rin, c) && (c.Delete? ==> c.t !in Woken(m.rin))
  }

  // ----- the invariant

  // No buffer is in two places, and with the free, the queued and the held ones all are accounted for.
  ghost predicate Parted(free: seq<nat>, queue: seq<nat>, flights: map<nat, Flight>, max: nat) {
    && Distinct(free) && Distinct(queue)
    && (forall b :: b in free ==> b < max && b !in queue)
    && (forall b :: b in queue ==> b < max)
    && (forall c :: c in flights ==> flights[c].buf < max && flights[c].buf !in free && flights[c].buf !in queue)
    && (forall c, d :: c in flights && d in flights && c != d ==> flights[c].buf != flights[d].buf)
    && |free| + |queue| + |flights| == max
  }

  predicate HasLetter(data: seq<seq<bv8>>, letters: map<nat, seq<bv8>>, b: nat) {
    && b < |data| && b in letters && |letters[b]| <= |data[b]| && data[b][..|letters[b]|] == letters[b]
  }

  ghost predicate FlightOk(f: Flight, data: seq<seq<bv8>>, letters: map<nat, seq<bv8>>, msgSize: nat) {
    match f
    case Sending(b, bytes, _, copied) => |bytes| <= msgSize
        && (copied ==> HasLetter(data, letters, b) && letters[b] == bytes)
    case Receiving(b, _) => HasLetter(data, letters, b)
  }

  // The messages are in their buffers.
  ghost predicate Written(queue: seq<nat>, flights: map<nat, Flight>, data: seq<seq<bv8>>, letters: map<nat, seq<bv8>>,
                          msgSize: nat, max: nat) {
    && |data| == max && (forall b :: 0 <= b < max ==> |data[b]| == msgSize)
    && (forall b :: b in queue ==> HasLetter(data, letters, b))
    && (forall c :: c in flights ==> FlightOk(flights[c], data, letters, msgSize))
  }

  ghost predicate NoLostMessage(m: Mq) {
    Queue(m.k, m.w) != [] ==> m.entry <= |Woken(m.rin)|
  }

  ghost predicate Calling(m: Mq) {
    Inv(m.k) && Account(m.k, m.w, m.rin) && forall t :: t in m.rin ==> t in m.waits
  }

  ghost predicate Core(m: Mq) {
    && Calling(m) && m.entry == |m.queue|
    && Parted(m.free, m.queue, m.flights, m.max)
    && Written(m.queue, m.flights, m.data, m.letters, m.msgSize, m.max)
  }

  ghost predicate MqInv(m: Mq) {
    Core(m) && NoLostMessage(m)
  }

  // ----- the bounded queue of messages that the code implements

  ghost predicate Lettered(queue: seq<nat>, letters: map<nat, seq<bv8>>) {
    forall b :: b in queue ==> b in letters
  }

  // The messages in line, first one first.
  ghost function Items(queue: seq<nat>, letters: map<nat, seq<bv8>>): (r: seq<seq<bv8>>)
    requires Lettered(queue, letters)
    ensures |r| == |queue|
  {
    seq(|queue|, i requires 0 <= i < |queue| => letters[queue[i]])
  }

  ghost function Line(m: Mq): (r: seq<seq<bv8>>)
    requires Core(m)
    ensures |r| == m.entry
  {
    Items(m.queue, m.letters)
  }

  // ----- buffers on the move

  lemma MapDrop<T>(f: map<nat, T>, c: nat)
    requires c in f
    ensures |f - {c}| == |f| - 1 && forall d :: d in f - {c} <==> d in f && d != c
  {
    assert (f - {c}).Keys == f.Keys - {c};
    assert |(f - {c}).Keys| == |f - {c}|;
  }

  lemma MapAdd<T>(f: map<nat, T>, c: nat, x: T)
    requires c !in f
    ensures |f[c := x]| == |f| + 1
  {
    assert f[c := x].Keys == f.Keys + {c};
  }

  lemma MapSet<T>(f: map<nat, T>, c: nat, x: T)
    requires c in f
    ensures |f[c := x]| == |f| && f[c := x].Keys == f.Keys
  {
    assert f[c := x].Keys == f.Keys;
    assert |f[c := x].Keys| == |f[c := x]|;
  }

  lemma FirstOff(s: seq<nat>)
    requires s != [] && Distinct(s)
    ensures Distinct(s[1..]) && s[0] !in s[1..] && forall x :: x in s <==> x == s[0] || x in s[1..]
  {
    assert s == [s[0]] + s[1..];
  }

  lemma PartTake(free: seq<nat>, queue: seq<nat>, flights: map<nat, Flight>, max: nat, c: nat, f: Flight)
    requires Parted(free, queue, flights, max) && c !in flights && free != [] && f.buf == free[0]
    ensures Parted(free[1..], queue, flights[c := f], max)
  {
    hide Distinct;
    FirstOff(free);
    MapAdd(flights, c, f);
  }

  lemma PartUnlink(free: seq<nat>, queue: seq<nat>, flights: map<nat, Flight>, max: nat, c: nat, f: Flight)
    requires Parted(free, queue, flights, max) && c !in flights && queue != [] && f.buf == queue[0]
    ensures Parted(free, queue[1..], flights[c := f], max)
  {
    hide Distinct;
    FirstOff(queue);
    MapAdd(flights, c, f);
  }

  lemma PartLink(free: seq<nat>, queue: seq<nat>, flights: map<nat, Flight>, max: nat, c: nat, pos: nat)
    requires Parted(free, queue, flights, max) && c in flights && pos <= |queue|
    ensures Parted(free, Insert(queue, pos, flights[c].buf), flights - {c}, max)
  {
    hide Distinct, Insert;
    InsertMembers(queue, pos, flights[c].buf);
    InsertDistinct(queue, pos, flights[c].buf);
    MapDrop(flights, c);
    InsertLength(queue, pos, flights[c].buf);
  }

  lemma InsertLength(s: seq<nat>, pos: nat, x: nat)
    requires pos <= |s|
    ensures |Insert(s, pos, x)| == |s| + 1
  {
  }

  lemma PartFree(free: seq<nat>, queue: seq<nat>, flights: map<nat, Flight>, max: nat, c: nat)
    requires Parted(free, queue, flights, max) && c in flights
    ensures Parted([flights[c].buf] + free, queue, flights - {c}, max)
  {
    hide Insert;
    assert [flights[c].buf] + free == Insert(free, 0, flights[c].buf) by { InsertAtHead(free, flights[c].buf); }
    InsertMembers(free, 0, flights[c].buf);
    InsertDistinct(free, 0, flights[c].buf);
    MapDrop(flights, c);
  }

  lemma InsertAtHead(s: seq<nat>, x: nat)
    ensures [x] + s == Insert(s, 0, x)
    ensures s + [x] == Insert(s, |s|, x)
  {
    assert s[..0] == [] && s[0..] == s && s[..|s|] == s && s[|s|..] == [];
  }

  lemma PartRenamed(free: seq<nat>, queue: seq<nat>, flights: map<nat, Flight>, max: nat, c: nat, f: Flight)
    requires Parted(free, queue, flights, max) && c in flights && f.buf == flights[c].buf
    ensures Parted(free, queue, flights[c := f], max)
  {
    hide Distinct;
    MapSet(flights, c, f);
  }

  lemma {:induction false} PartReset(free: seq<nat>, queue: seq<nat>, flights: map<nat, Flight>, max: nat)
    requires Parted(free, queue, flights, max)
    ensures Parted(Reversed(queue) + free, [], flights, max)
    decreases |queue|
  {
    if queue == [] {
      assert Reversed(queue) + free == free;
    } else {
      FirstOff(queue);
      PartMove(free, queue, flights, max);
      PartReset([queue[0]] + free, queue[1..], flights, max);
      assert Reversed(queue) + free == Reversed(queue[1..]) + ([queue[0]] + free);
    }
  }

  // One turn of the loop of RT_IPC_CMD_RESET.
  lemma PartMove(free: seq<nat>, queue: seq<nat>, flights: map<nat, Flight>, max: nat)
    requires Parted(free, queue, flights, max) && queue != []
    ensures Parted([queue[0]] + free, queue[1..], flights, max)
  {
    hide Insert, Distinct;
    FirstOff(queue);
    assert [queue[0]] + free == Insert(free, 0, queue[0]) by { InsertAtHead(free, queue[0]); }
    InsertMembers(free, 0, queue[0]);
    InsertDistinct(free, 0, queue[0]);
  }

  // Indeed every buffer is somewhere.
  lemma EveryBuffer(free: seq<nat>, queue: seq<nat>, flights: map<nat, Flight>, max: nat, b: nat)
    requires Parted(free, queue, flights, max) && b < max
    ensures b in free || b in queue || exists c :: c in flights && flights[c].buf == b
  {
    hide Parted, Distinct, Members, Held;
    PartParts(free, queue, flights, max);
    MembersCount(free);
    MembersCount(queue);
    HeldCount(flights);
    Apart(free, queue, flights, max);
    ThreeSets(Members(free), Members(queue), Held(flights), max);
    assert b in Members(free) + Members(queue) + Held(flights);
  }

  lemma PartParts(free: seq<nat>, queue: seq<nat>, flights: map<nat, Flight>, max: nat)
    requires Parted(free, queue, flights, max)
    ensures Distinct(free) && Distinct(queue) && |free| + |queue| + |flights| == max
    ensures forall c, d :: c in flights && d in flights && c != d ==> flights[c].buf != flights[d].buf
  {
  }

  lemma Apart(free: seq<nat>, queue: seq<nat>, flights: map<nat, Flight>, max: nat)
    requires Parted(free, queue, flights, max)
    ensures Members(free) !! Members(queue) && Members(free) !! Held(flights) && Members(queue) !! Held(flights)
    ensures Members(free) <= Below(max) && Members(queue) <= Below(max) && Held(flights) <= Below(max)
  {
    hide Distinct;
  }

  lemma ThreeSets(a: set<nat>, b: set<nat>, c: set<nat>, max: nat)
    requires a !! b && a !! c && b !! c && a <= Below(max) && b <= Below(max) && c <= Below(max)
    requires |a| + |b| + |c| == max
    ensures a + b + c == Below(max)
  {
    assert (a + b) !! c;
    assert |a + b| == |a| + |b| && |a + b + c| == max;
    SubsetSame(a + b + c, Below(max));
  }

  ghost function Members(s: seq<nat>): set<nat> { set x | x in s }

  ghost function Held(flights: map<nat, Flight>): set<nat> { set c | c in flights :: flights[c].buf }

  ghost function Below(n: nat): (r: set<nat>)
    ensures |r| == n && forall x: nat :: x in r <==> x < n
  {
    if n == 0 then {} else Below(n - 1) + {n - 1}
  }

  lemma {:induction false} MembersCount(s: seq<nat>)
    requires Distinct(s)
    ensures |Members(s)| == |s| && forall x :: x in Members(s) <==> x in s
  {
    if s == [] {
      assert Members(s) == {};
    } else {
      FirstOff(s);
      MembersCount(s[1..]);
      assert Members(s) == Members(s[1..]) + {s[0]} && s[0] !in Members(s[1..]);
    }
  }

  lemma {:induction false} HeldCount(flights: map<nat, Flight>)
    requires forall c, d :: c in flights && d in flights && c != d ==> flights[c].buf != flights[d].buf
    ensures |Held(flights)| == |flights| && forall b :: b in Held(flights) <==>
              exists c :: c in flights && flights[c].buf == b
    decreases |flights|
  {
    if c :| c in flights {
      MapDrop(flights, c);
      var rest := flights - {c};
      HeldCount(rest);
      HeldSplit(flights, c);
    } else {
      assert Held(flights) == {};
      assert |flights.Keys| == |flights|;
    }
  }

  lemma HeldSplit(flights: map<nat, Flight>, c: nat)
    requires c in flights && forall d :: d in flights && d != c ==> flights[c].buf != flights[d].buf
    ensures Held(flights) == Held(flights - {c}) + {flights[c].buf} && flights[c].buf !in Held(flights - {c})
  {
    var rest := flights - {c};
    forall b | b in Held(flights)
      ensures b in Held(rest) + {flights[c].buf}
    {
      var d :| d in flights && flights[d].buf == b;
      assert d != c ==> d in rest && rest[d].buf == b;
    }
    forall b | b in Held(rest)
      ensures b in Held(flights) && b != flights[c].buf
    {
      var d :| d in rest && rest[d].buf == b;
      assert d in flights;
    }
  }

  lemma SubsetSame(a: set<nat>, b: set<nat>)
    requires a <= b && |a| == |b|
    ensures a == b
  {
    assert |b - a| == |b| - |a|;
  }

  // ----- every step keeps the invariant, and does to the line what its name says

  lemma CoreParts(m: Mq)
    requires Core(m)
    ensures Inv(m.k) && Account(m.k, m.w, m.rin) && m.k.current in m.k.threads
            && (forall t :: t in m.rin ==> t in m.waits)
    ensures Lettered(m.queue, m.letters) && m.entry == |m.queue|
    ensures Parted(m.free, m.queue, m.flights, m.max)
    ensures Written(m.queue, m.flights, m.data, m.letters, m.msgSize, m.max)
  {
    Usable(m.k);
  }

  lemma WrittenTake(queue: seq<nat>, flights: map<nat, Flight>, data: seq<seq<bv8>>, letters: map<nat, seq<bv8>>,
                    msgSize: nat, max: nat, c: nat, f: Flight)
    requires Written(queue, flights, data, letters, msgSize, max) && FlightOk(f, data, letters, msgSize)
    ensures Written(queue, flights[c := f], data, letters, msgSize, max)
  {
    hide FlightOk, HasLetter;
  }

  lemma WrittenDrop(queue: seq<nat>, flights: map<nat, Flight>, data: seq<seq<bv8>>, letters: map<nat, seq<bv8>>,
                    msgSize: nat, max: nat, c: nat, queue': seq<nat>)
    requires Written(queue, flights, data, letters, msgSize, max)
    requires forall b :: b in queue' ==> b in queue || HasLetter(data, letters, b)
    ensures Written(queue', flights - {c}, data, letters, msgSize, max)
  {
    hide FlightOk, HasLetter;
  }

  // The first critical section of a send: it is refused exactly if the message is too long, or if the
  // messages in line and those under way make up the whole pool.
  lemma SendBeginInv(m: Mq, c: nat, bytes: seq<bv8>, urgent: bool)
    requires MqInv(m) && c !in m.flights
    ensures var (m', e) := SendBeginF(m, c, bytes, urgent);
            && MqInv(m') && Line(m') == Line(m)
            && (e == Failed <==> |bytes| > m.msgSize)
            && (e == Full <==> |bytes| <= m.msgSize && |Line(m)| + |m.flights| == m.max)
            && (e == Ok ==>
                  && c in m'.flights && m'.flights[c].Sending?
                  && m'.flights[c].bytes == bytes && m'.flights[c].urgent == urgent
                  && m' == m.(free := m'.free, flights := m.flights[c := m'.flights[c]]))
            && (e != Ok ==> m' == m && e in {Failed, Full})
  {
    hide Inv, Queue, Account, Woken, Parted, Written;
    CoreParts(m);
    PartParts(m.free, m.queue, m.flights, m.max);
    if |bytes| <= m.msgSize && m.free != [] {
      var f := Sending(m.free[0], bytes, urgent, false);
      PartTake(m.free, m.queue, m.flights, m.max, c, f);
      WrittenTake(m.queue, m.flights, m.data, m.letters, m.msgSize, m.max, c, f);
    }
  }

  predicate ReadyToCopy(m: Mq, c: nat) {
    c in m.flights && m.flights[c].Sending?
  }

  predicate ReadyToLink(m: Mq, c: nat) {
    c in m.flights && m.flights[c].Sending? && m.flights[c].copied
  }

  predicate ReadyToFree(m: Mq, c: nat) {
    c in m.flights && m.flights[c].Receiving?
  }

  // Copying into a buffer that nobody else holds disturbs no message.
  lemma SendCopyInv(m: Mq, c: nat)
    requires MqInv(m) && ReadyToCopy(m, c)
    ensures m.flights[c].buf < |m.data| && |m.flights[c].bytes| <= |m.data[m.flights[c].buf]|
    ensures var m' := SendCopyF(m, c);
            && MqInv(m') && ReadyToLink(m', c) && Line(m') == Line(m)
            && m' == m.(data := m'.data, letters := m'.letters,
               flights := m.flights[c := m.flights[c].(copied := true)])
            && (forall b :: b in m.letters && b != m.flights[c].buf ==>
               b in m'.letters && m'.letters[b] == m.letters[b])
  {
    hide Inv, Queue, Account, Woken, Parted, Written;
    CoreParts(m);
    CopyWritten(m.free, m.queue, m.flights, m.data, m.letters, m.msgSize, m.max, c);
    PartRenamed(m.free, m.queue, m.flights, m.max, c, m.flights[c].(copied := true));
  }

  lemma CopyWritten(free: seq<nat>, queue: seq<nat>, flights: map<nat, Flight>, data: seq<seq<bv8>>,
                    letters: map<nat, seq<bv8>>,
                    msgSize: nat, max: nat, c: nat)
    requires Parted(free, queue, flights, max) && Written(queue, flights, data, letters, msgSize, max)
    requires Lettered(queue, letters)
    requires c in flights && flights[c].Sending?
    ensures flights[c].buf < |data| && |flights[c].bytes| <= |data[flights[c].buf]|
    ensures var f := flights[c];
            var data', letters' := data[f.buf := f.bytes + data[f.buf][|f.bytes|..]], letters[f.buf := f.bytes];
            && Written(queue, flights[c := f.(copied := true)], data', letters', msgSize, max)
            && Lettered(queue, letters') && Items(queue, letters') == Items(queue, letters)
  {
    hide Distinct;
    var f := flights[c];
    assert FlightOk(f, data, letters, msgSize);
    var data', letters' := data[f.buf := f.bytes + data[f.buf][|f.bytes|..]], letters[f.buf := f.bytes];
    assert data'[f.buf][..|f.bytes|] == f.bytes;
    forall d | d in flights && d != c
      ensures FlightOk(flights[d], data', letters', msgSize)
    {
      assert FlightOk(flights[d], data, letters, msgSize) && flights[d].buf != f.buf;
    }
  }

  // The second critical section of a send is where its message joins the line, at its end or, urgent,
  // at its head.
  lemma SendEndInv(m: Mq, c: nat)
    requires MqInv(m) && ReadyToLink(m, c)
    ensures Inv(m.k)
    ensures var m', f := SendEndF(m, c), m.flights[c];
            && MqInv(m') && Line(m') == (if f.urgent then [f.bytes] + Line(m) else Line(m) + [f.bytes])
            && m' == m.(k := m'.k, rin := m'.rin, queue := m'.queue, entry := m'.entry, flights := m.flights - {c})
            && (if Queue(m.k, m.w) != [] then
                  FirstResumed(m.k, m'.k, m.w) && m'.rin == m.rin[Queue(m.k, m.w)[0] := true]
                else m'.k == m.k && m'.rin == m.rin)
  {
    hide Inv, Queue, Account, Woken, Parted, Written, WakeF, FlightOk, FirstResumed;
    CoreParts(m);
    var f := m.flights[c];
    LinkWritten(m.queue, m.flights, m.data, m.letters, m.msgSize, m.max, c);
    InsertAtHead(m.queue, f.buf);
    PartLink(m.free, m.queue, m.flights, m.max, c, if f.urgent then 0 else |m.queue|);
    if Queue(m.k, m.w) != [] {
      AccountWake(m.k, m.w, m.rin);
      HeadInside(m.k, m.w, m.rin, m.waits);
      WokenAdd(m.rin, Queue(m.k, m.w)[0]);
      WakeIs(m.k, m.w);
    }
  }

  lemma HeadInside(k: K, w: nat, inside: map<nat, bool>, waits: map<nat, Wait>)
    requires Account(k, w, inside) && Queue(k, w) != [] && forall t :: t in inside ==> t in waits
    ensures Queue(k, w)[0] in inside && !inside[Queue(k, w)[0]]
    ensures forall t :: t in inside[Queue(k, w)[0] := true] ==> t in waits
  {
    assert Queue(k, w)[0] in Queue(k, w);
    hide Queue;
  }

  lemma LinkWritten(queue: seq<nat>, flights: map<nat, Flight>, data: seq<seq<bv8>>, letters: map<nat, seq<bv8>>,
                    msgSize: nat, max: nat, c: nat)
    requires Written(queue, flights, data, letters, msgSize, max) && Lettered(queue, letters)
    requires c in flights && flights[c].Sending? && flights[c].copied
    ensures var f := flights[c];
            var queue' := if f.urgent then [f.buf] + queue else queue + [f.buf];
            && Written(queue', flights - {c}, data, letters, msgSize, max) && Lettered(queue', letters)
            && Items(queue', letters) ==
                 (if f.urgent then [f.bytes] + Items(queue, letters) else Items(queue, letters) + [f.bytes])
  {
    var f := flights[c];
    assert FlightOk(f, data, letters, msgSize);
    hide HasLetter, FlightOk;
    var queue' := if f.urgent then [f.buf] + queue else queue + [f.buf];
    WrittenDrop(queue, flights, data, letters, msgSize, max, c, queue');
  }

  // Receiving call c will hand out the message `letter`, as far as `room` bytes go.
  predicate Carries(m: Mq, c: nat, letter: seq<bv8>, room: nat) {
    && ReadyToFree(m, c) && m.flights[c].size == room
    && m.flights[c].buf in m.letters && m.letters[m.flights[c].buf] == letter
  }

  // What a receive comes to, when it is called and when its thread runs again: it takes the first message
  // of the line, gives up, or puts its thread on the list.
  ghost predicate RecvDone(m: Mq, m': Mq, r: Outcome, c: nat, size: nat, timeout: int, now: int, again: bool)
    requires Core(m) && Core(m')
  {
    if m.entry > 0 then
      && r == Done(Ok) && Line(m') == Line(m)[1..] && Carries(m', c, Line(m)[0], size)
      && m' == m.(queue := m'.queue, entry := m'.entry, flights := m.flights[c := m'.flights[c]])
    else if timeout == 0 then
      && r == Done(Timeout)
      && (if again then m' == m.(k := m'.k) && ErrorOnly(m.k, m'.k, m.k.current, Timeout) else m' == m)
    else
      && r == Blocked && HasBlocked(m.k, m'.k, m.w, m.flag, timeout > 0)
      && m' == m.(k := m'.k, rin := m.rin[m.k.current := false],
                  waits := m.waits[m.k.current := Wait(size, timeout, now)])
  }

  // The critical section of a receive.
  lemma RecvBeginCore(m: Mq, c: nat, size: nat, timeout: int, now: int, again: bool)
    requires Core(m) && c !in m.flights && (m.entry == 0 && (timeout != 0 || again) ==> Free(m.k, m.rin))
    requires Queue(m.k, m.w) != [] ==> m.entry <= |Woken(m.rin)| + 1
    requires m.entry == 0 ==> NoLostMessage(m)
    ensures var (m', r) := RecvBeginF(m, c, size, timeout, now, again);
            && MqInv(m')
            && RecvDone(m, m', r, c, size, timeout, now, again)
  {
    hide Inv, Queue, Account, Woken, Parted, Written, WaitF, HasBlocked;
    CoreParts(m);
    if m.entry > 0 {
      var f := Receiving(m.queue[0], size);
      PartUnlink(m.free, m.queue, m.flights, m.max, c, f);
      UnlinkWritten(m.queue, m.flights, m.data, m.letters, m.msgSize, m.max, c, f);
    } else if timeout == 0 && !again {
    } else if timeout == 0 {
      ErrorInv(m.k, m.k.current, Timeout);
      OwnError(m.k, m.w, m.rin, Timeout);
    } else {
      WaitOne(m.k, m.w, m.flag, timeout, m.rin);
      WaitIs(m.k, m.w, m.flag, timeout);
      WokenWaits(m.rin, m.k.current);
    }
  }

  lemma WaitOne(k: K, w: nat, flag: Flag, timeout: int, inside: map<nat, bool>)
    requires Inv(k) && Account(k, w, inside) && Free(k, inside)
    ensures Inv(WaitF(k, w, flag, timeout)) && Account(WaitF(k, w, flag, timeout), w, inside[k.current := false])
  {
    hide Inv, Queue, Account, BlockF;
    ErrorInv(k, k.current, Ok);
    OwnError(k, w, inside, Ok);
    Usable(ErrorF(k, k.current, Ok));
    AccountBlock(ErrorF(k, k.current, Ok), w, flag, timeout > 0, inside);
  }

  lemma UnlinkWritten(queue: seq<nat>, flights: map<nat, Flight>, data: seq<seq<bv8>>, letters: map<nat, seq<bv8>>,
                      msgSize: nat, max: nat, c: nat, f: Flight)
    requires Written(queue, flights, data, letters, msgSize, max) && Lettered(queue, letters)
    requires queue != [] && f.Receiving? && f.buf == queue[0] && c !in flights
    ensures Written(queue[1..], flights[c := f], data, letters, msgSize, max) && Lettered(queue[1..], letters)
    ensures Items(queue[1..], letters) == Items(queue, letters)[1..]
  {
    assert forall b :: b in queue[1..] ==> b in queue;
    assert HasLetter(data, letters, queue[0]);
    hide HasLetter;
  }

  lemma RecvBeginInv(m: Mq, c: nat, size: nat, timeout: int, now: int)
    requires MqInv(m) && c !in m.flights && MayRecv(m, timeout)
    ensures var (m', r) := RecvBeginF(m, c, size, timeout, now, false);
            MqInv(m') && RecvDone(m, m', r, c, size, timeout, now, false)
  {
    hide Inv, Queue, Account, Woken, Parted, Written, RecvBeginF, Items, RecvDone;
    CoreParts(m);
    RecvBeginCore(m, c, size, timeout, now, false);
  }

  // The running thread was resumed without an error, and a message is in line.
  ghost predicate Served(m: Mq) {
    m.k.current in m.k.threads && m.k.threads[m.k.current].error == Ok && m.entry > 0
  }

  // A receiver that runs again returns with its error, or looks again, with the room it has kept and the
  // time that is left.
  lemma RecvAgainInv(m: Mq, c: nat, now: int)
    requires MqInv(m) && c !in m.flights && m.k.threads[m.k.current].stat == Running && m.k.current in m.rin
    ensures Inv(m.k) && m.k.current in m.waits && (m.entry > 0 ==> m.queue != [])
    ensures var (m', r), t := RecvAgainF(m, c, now), m.k.current;
            var e, l, m1 := m.k.threads[t].error, m.waits[t], m.(rin := m.rin - {t});
            && MqInv(m') && Core(m1) && Line(m1) == Line(m)
            && (if e != Ok then r == Done(e) && m' == m1
                else RecvDone(m1, m', r, c, l.size, Left(l.timeout, l.start, now), now, true))
  {
    hide Inv, Queue, Account, Woken, Parted, Written, RecvBeginF, Items, Left, RecvDone;
    CoreParts(m);
    LeaveCall(m.k, m.w, m.rin, map[]);
    var t := m.k.current;
    if m.k.threads[t].error == Ok {
      RecvBeginCore(m.(rin := m.rin - {t}), c, m.waits[t].size, Left(m.waits[t].timeout, m.waits[t].start, now), now,
          true);
    }
  }

  // The receiver gets the bytes of its message, as far as its own buffer and the message reach, and
  // the buffer is free again.
  lemma RecvEndInv(m: Mq, c: nat)
    requires MqInv(m) && ReadyToFree(m, c)
    ensures m.flights[c].buf < |m.data| && |m.data[m.flights[c].buf]| == m.msgSize && m.flights[c].buf in m.letters
    ensures var (m', bytes) := RecvEndF(m, c);
            var letter, size := m.letters[m.flights[c].buf], m.flights[c].size;
            && MqInv(m') && Line(m') == Line(m) && m' == m.(free := m'.free, flights := m.flights - {c})
            && |bytes| == (if size > m.msgSize then m.msgSize else size)
            && forall i :: 0 <= i < |bytes| && i < |letter| ==> bytes[i] == letter[i]
  {
    hide Inv, Queue, Account, Woken, Parted, Written;
    CoreParts(m);
    FreeWritten(m.free, m.queue, m.flights, m.data, m.letters, m.msgSize, m.max, c);
    PartFree(m.free, m.queue, m.flights, m.max, c);
    WrittenDrop(m.queue, m.flights, m.data, m.letters, m.msgSize, m.max, c, m.queue);
  }

  lemma FreeWritten(free: seq<nat>, queue: seq<nat>, flights: map<nat, Flight>, data: seq<seq<bv8>>,
                    letters: map<nat, seq<bv8>>,
                    msgSize: nat, max: nat, c: nat)
    requires Parted(free, queue, flights, max) && Written(queue, flights, data, letters, msgSize, max) && c in flights
    requires flights[c].Receiving?
    ensures var b := flights[c].buf;
            && b < |data| && |data[b]| == msgSize && b in letters && |letters[b]| <= msgSize
            && forall i :: 0 <= i < |letters[b]| ==> data[b][i] == letters[b][i]
  {
    var b := flights[c].buf;
    assert FlightOk(flights[c], data, letters, msgSize);
    assert data[b][..|letters[b]|] == letters[b];
  }

  lemma ResetInv(m: Mq)
    requires MqInv(m)
    ensures Inv(m.k) && MqInv(ResetF(m)) && Line(ResetF(m)) == [] && AllFailed(m.k, ResetF(m).k, m.w)
    ensures var m' := ResetF(m); m' == m.(k := m'.k, free := m'.free, queue := [], entry := 0)
  {
    hide Inv, Queue, Account, Woken, Parted, WakeAllF, AllFailed;
    WakeAllLaw(m.k, m.w);
    CoreParts(m);
    AccountWakeAll(m.k, m.w, m.rin);
    PartReset(m.free, m.queue, m.flights, m.max);
  }

  lemma ResumedInv(m: Mq, t: nat)
    requires MqInv(m) && t in Queue(m.k, m.w)
    ensures Inv(m.k) && MqInv(ResumedF(m, t)) && Line(ResumedF(m, t)) == Line(m)
    ensures var m' := ResumedF(m, t); m' == m.(k := m'.k, rin := m.rin[t := true]) && t in m.rin
  {
    hide Inv, Queue, ResumeF, Woken, Parted, Written;
    CoreParts(m);
    AccountResume(m.k, m.w, m.rin, t);
    assert t in m.rin && !m.rin[t];
    WokenAdd(m.rin, t);
  }

  lemma OtherInv(m: Mq, c: Call)
    requires MqInv(m) && Others(m, c)
    ensures Inv(m.k) && Legal(m.k, c) && MqInv(OtherF(m, c)) && Line(OtherF(m, c)) == Line(m)
    ensures OtherF(m, c) == m.(k := CallF(m.k, c), rin := After(m.rin, c))
  {
    hide Inv, Queue, Account, Woken, Parted, Written, CallF, Outside;
    CoreParts(m);
    OutsideLegal(m.k, m.w, m.rin, c);
    OutsideQueue(m.k, m.w, m.rin, c);
    AccountCall(m.k, m.w, m.rin, c);
    if c.Delete? { WokenDrop(m.rin, c.t); }
  }

  // ----- where the program does not keep it

  // A receiver that goes on after blocking keeps the queue in order exactly if it has left the list.
  lemma RecvAgainExact(m: Mq, c: nat, now: int)
    requires MqInv(m) && c !in m.flights && m.k.current in m.rin
    requires m.k.threads[m.k.current].stat == Running || m.k.current in Queue(m.k, m.w)
    ensures Inv(m.k) && m.k.current in m.waits && (m.entry > 0 ==> m.queue != [])
    ensures MqInv(RecvAgainF(m, c, now).0) <==> m.k.current !in Queue(m.k, m.w)
  {
    hide Inv, Queue, Woken, Parted, Written, WaitF, Left;
    CoreParts(m);
    QueueLaw(m.k, m.w);
    if m.k.current !in Queue(m.k, m.w) {
      RecvAgainInv(m, c, now);
    } else {
      WaitedTwice(m.k, m.w, m.flag);
      ErrorInv(m.k, m.k.current, Timeout);
      assert m.k.threads[m.k.current].error == Ok;
    }
  }

  // A receive that blocks goes on at once, while it is on the list, exactly if the scheduler is locked
  // or no other thread is ready; whatever it does then leaves the queue broken.
  lemma RecvUnderLock(m: Mq, c: nat, size: nat, timeout: int, now: int, later: int)
    requires MqInv(m) && c !in m.flights && Free(m.k, m.rin) && m.entry == 0 && timeout != 0
    ensures Inv(m.k) && Inv(RecvBeginF(m, c, size, timeout, now, false).0.k)
    ensures var t, m2 := m.k.current, OtherF(RecvBeginF(m, c, size, timeout, now, false).0, Call.Schedule);
            && (m2.k.current == t <==> m.k.lock != 0 || !AnyReady(m.k))
            && (m2.k.current == t ==>
                  && Inv(m2.k) && t in m2.waits && m2.entry == 0 && t in Queue(m2.k, m2.w)
                  && !MqInv(RecvAgainF(m2, c, later).0))
  {
    hide Inv, Queue, Account, Parted, Written, WaitF, CallF, RecvAgainF, NoLostMessage;
    CoreParts(m);
    RecvBeginInv(m, c, size, timeout, now);
    var m1 := RecvBeginF(m, c, size, timeout, now, false).0;
    CoreParts(m1);
    WaitGoesOn(m.k, m.w, m.flag, timeout);
    if CallF(m1.k, Call.Schedule).current == m.k.current { RecvAgainExact(m1, c, later); }
  }

  // ----- runs

  datatype Step =
    | SendBegin(c: nat, bytes: seq<bv8>, urgent: bool) | SendCopy(c: nat) | SendEnd(c: nat)
    | RecvBegin(c: nat, size: nat, timeout: int, now: int) | RecvAgain(c: nat, now: int) | RecvEnd(c: nat)
    | Reset | Resumed(t: nat) | Other(call: Call)

  ghost predicate Allowed(m: Mq, step: Step)
    requires Inv(m.k)
  {
    match step
    case SendBegin(c, _, _) => c !in m.flights
    case SendCopy(c) => ReadyToCopy(m, c)
    case SendEnd(c) => ReadyToLink(m, c)
    case RecvBegin(c, _, timeout, _) => c !in m.flights && MayRecv(m, timeout)
    case RecvAgain(c, _) => c !in m.flights && m.k.threads[m.k.current].stat == Running && m.k.current in m.rin
    case RecvEnd(c) => ReadyToFree(m, c)
    case Reset => true
    case Resumed(t) => t in Queue(m.k, m.w)
    case Other(c) => Others(m, c)
  }

  ghost function StepF(m: Mq, step: Step): (m': Mq)
    requires MqInv(m) && Allowed(m, step)
  {
    CoreParts(m);
    match step
    case SendBegin(c, bytes, urgent) => SendBeginF(m, c, bytes, urgent).0
    case SendCopy(c) => SendCopyInv(m, c); SendCopyF(m, c)
    case SendEnd(c) => SendEndF(m, c)
    case RecvBegin(c, size, timeout, now) => RecvBeginF(m, c, size, timeout, now, false).0
    case RecvAgain(c, now) => RecvAgainF(m, c, now).0
    case RecvEnd(c) => RecvEndInv(m, c); RecvEndF(m, c).0
    case Reset => ResetF(m)
    case Resumed(t) => ResumedF(m, t)
    case Other(c) => OtherF(m, c)
  }

  lemma StepInv(m: Mq, step: Step)
    requires MqInv(m) && Allowed(m, step)
    ensures MqInv(StepF(m, step)) && SameQueue(m, StepF(m, step))
  {
    hide Core, NoLostMessage, SendBeginF, SendCopyF, SendEndF, RecvBeginF, RecvAgainF, RecvEndF, ResetF, OtherF, Line,
        Inv, HasBlocked, FirstResumed, AllFailed, ErrorOnly, Left;
    InvCore(m);
    match step
    case SendBegin(c, bytes, urgent) => SendBeginInv(m, c, bytes, urgent);
    case SendCopy(c) => SendCopyInv(m, c);
    case SendEnd(c) => SendEndInv(m, c);
    case RecvBegin(c, size, timeout, now) => RecvBeginInv(m, c, size, timeout, now);
    case RecvAgain(c, now) => RecvAgainInv(m, c, now);
    case RecvEnd(c) => RecvEndInv(m, c);
    case Reset => ResetInv(m);
    case Resumed(t) => ResumedInv(m, t);
    case Other(c) => OtherInv(m, c);
  }

  predicate SameQueue(m: Mq, m': Mq) {
    m'.w == m.w && m'.flag == m.flag && m'.msgSize == m.msgSize && m'.max == m.max
  }

  lemma InvCore(m: Mq)
    requires MqInv(m)
    ensures Core(m) && Inv(m.k) && (m.entry > 0 ==> m.queue != [])
  {
  }

  ghost predicate AllowedRun(m: Mq, steps: seq<Step>)
    requires MqInv(m)
    decreases |steps|
  {
    steps == []
    || (Allowed(m, steps[0]) && (StepInv(m, steps[0]); AllowedRun(StepF(m, steps[0]), steps[1..])))
  }

  ghost function Run(m: Mq, steps: seq<Step>): (m': Mq)
    requires MqInv(m) && AllowedRun(m, steps)
    ensures MqInv(m')
    decreases |steps|
  {
    if steps == [] then m else StepInv(m, steps[0]); Run(StepF(m, steps[0]), steps[1..])
  }

  // In every reachable state the pool is parted exactly into free, queued and held buffers, `entry` is
  // the length of the line, and no receiver waits for a message nobody was resumed for.
  lemma RunLaw(m: Mq, steps: seq<Step>, b: nat)
    requires MqInv(m) && AllowedRun(m, steps)
    ensures var m' := Run(m, steps);
            && m'.entry == |Line(m')| && |m'.free| + |Line(m')| + |m'.flights| == m'.max
            && (b < m'.max ==> b in m'.free || b in m'.queue || exists c :: c in m'.flights && m'.flights[c].buf == b)
            && (Queue(m'.k, m'.w) != [] && Woken(m'.rin) == {} ==> Line(m') == [])
  {
    hide Inv, Account, Queue, Written, Parted, StepF, Allowed;
    var m' := Run(m, steps);
    CoreParts(m');
    PartParts(m'.free, m'.queue, m'.flights, m'.max);
    if b < m'.max { EveryBuffer(m'.free, m'.queue, m'.flights, m'.max, b); }
  }

  // ----- the order of messages over whole runs

  // What the calls under way were made with: the message of a sender, the room a receiver that waits has
  // and the time it has left, and for a receiver that has taken a message, which one and its room.
  datatype Mail = Mail(bytes: seq<bv8>, urgent: bool)
  datatype Taken = Taken(letter: seq<bv8>, room: nat)
  datatype Calls = Calls(sends: map<nat, Mail>, waits: map<nat, Wait>, takes: map<nat, Taken>)

  ghost function CallsAfter(m: Mq, step: Step, h: Calls): Calls
    requires MqInv(m) && Allowed(m, step)
  {
    InvCore(m);
    var t := m.k.current;
    match step
    case SendBegin(c, bytes, urgent) =>
      if SendBeginF(m, c, bytes, urgent).1 == Ok then h.(sends := h.sends[c := Mail(bytes, urgent)]) else h
    case RecvBegin(c, size, timeout, now) => RecvCalls(m, c, RecvBeginF(m, c, size, timeout, now, false).1,
        Wait(size, timeout, now), h)
    case RecvAgain(c, now) =>
      CoreParts(m);
      if t in h.waits then
        RecvCalls(m, c, RecvAgainF(m, c, now).1,
            Wait(h.waits[t].size, Left(h.waits[t].timeout, h.waits[t].start, now), now), h)
      else h
    case _ => h
  }

  // A receive with the room and time of w: what it has taken, or that it waits.
  ghost function RecvCalls(m: Mq, c: nat, r: Outcome, w: Wait, h: Calls): Calls
    requires Core(m)
  {
    if r == Done(Ok) && |Line(m)| > 0 then h.(takes := h.takes[c := Taken(Line(m)[0], w.size)])
    else if r == Blocked then h.(waits := h.waits[m.k.current := w])
    else h
  }

  ghost predicate FlightAgrees(f: Flight, c: nat, letters: map<nat, seq<bv8>>, h: Calls) {
    match f
    case Sending(_, bytes, urgent, _) => c in h.sends && h.sends[c] == Mail(bytes, urgent)
    case Receiving(b, size) => c in h.takes && b in letters && h.takes[c] == Taken(letters[b], size)
  }

  // The program keeps of each call what it was made with.
  ghost predicate Agrees(m: Mq, h: Calls) {
    && (forall c :: c in m.flights ==> FlightAgrees(m.flights[c], c, m.letters, h))
    && (forall t :: t in m.rin ==> t in h.waits && t in m.waits && m.waits[t] == h.waits[t])
  }

  // What a step does to the bounded queue. Only linking, taking and resetting touch the line: what is
  // linked is the message the call was made with, and a receiver takes the first message of a line that is
  // not empty, unless it was resumed with an error.
  datatype Op = Push(letter: seq<bv8>, urgent: bool) | Pop(letter: seq<bv8>) | Clear | Stay

  ghost function OpOf(m: Mq, step: Step, h: Calls): Op
    requires MqInv(m)
  {
    match step
    case SendEnd(c) => if c in h.sends then Push(h.sends[c].bytes, h.sends[c].urgent) else Stay
    case RecvBegin(_, _, _, _) => if m.entry > 0 then Pop(Line(m)[0]) else Stay
    case RecvAgain(_, _) => if Served(m) then Pop(Line(m)[0]) else Stay
    case Reset => Clear
    case _ => Stay
  }

  ghost predicate PlaysOne(line: seq<seq<bv8>>, op: Op, line': seq<seq<bv8>>) {
    match op
    case Push(x, urgent) => line' == if urgent then [x] + line else line + [x]
    case Pop(x) => line == [x] + line'
    case Clear => line' == []
    case Stay => line' == line
  }

  // However the critical sections and copies of the calls are interleaved, and whatever threads and
  // interrupts do in between, each step is one of an atomic bounded queue with urgent messages.
  lemma StepPlays(m: Mq, step: Step, h: Calls)
    requires MqInv(m) && Allowed(m, step) && Agrees(m, h)
    ensures MqInv(StepF(m, step)) && PlaysOne(Line(m), OpOf(m, step, h), Line(StepF(m, step)))
    ensures Agrees(StepF(m, step), CallsAfter(m, step, h))
  {
    match step
    case SendBegin(_, _, _) => SendBeginPlays(m, step, h);
    case SendCopy(_) => SendCopyPlays(m, step, h);
    case SendEnd(_) => SendEndPlays(m, step, h);
    case RecvBegin(_, _, _, _) => RecvBeginPlays(m, step, h);
    case RecvAgain(_, _) => RecvAgainPlays(m, step, h);
    case RecvEnd(_) => RecvEndPlays(m, step, h);
    case Reset => ResetPlays(m, step, h);
    case Resumed(_) => ResumedPlays(m, step, h);
    case Other(_) => OtherPlays(m, step, h);
  }

  lemma SendBeginPlays(m: Mq, step: Step, h: Calls)
    requires MqInv(m) && Allowed(m, step) && Agrees(m, h) && step.SendBegin?
    ensures MqInv(StepF(m, step)) && PlaysOne(Line(m), OpOf(m, step, h), Line(StepF(m, step)))
    ensures Agrees(StepF(m, step), CallsAfter(m, step, h))
  {
    hide Core, NoLostMessage, SendBeginF, Line, Inv, Agrees;
    InvCore(m);
    SendBeginInv(m, step.c, step.bytes, step.urgent);
    if SendBeginF(m, step.c, step.bytes, step.urgent).1 == Ok {
      AgreesSend(m, StepF(m, step), step.c, step.bytes, step.urgent, h);
    }
  }

  lemma AgreesSend(m: Mq, m': Mq, c: nat, bytes: seq<bv8>, urgent: bool, h: Calls)
    requires Agrees(m, h) && c !in m.flights && c in m'.flights && m'.flights[c].Sending?
    requires m'.flights[c].bytes == bytes && m'.flights[c].urgent == urgent
    requires m' == m.(free := m'.free, flights := m.flights[c := m'.flights[c]])
    ensures Agrees(m', h.(sends := h.sends[c := Mail(bytes, urgent)]))
  {
  }

  lemma SendCopyPlays(m: Mq, step: Step, h: Calls)
    requires MqInv(m) && Allowed(m, step) && Agrees(m, h) && step.SendCopy?
    ensures MqInv(StepF(m, step)) && PlaysOne(Line(m), OpOf(m, step, h), Line(StepF(m, step)))
    ensures Agrees(StepF(m, step), CallsAfter(m, step, h))
  {
    hide Core, NoLostMessage, SendCopyF, Line, Inv;
    InvCore(m);
    SendCopyInv(m, step.c);
    OwnBuffer(m, step.c);
  }

  // No two calls hold one buffer.
  lemma OwnBuffer(m: Mq, c: nat)
    requires MqInv(m) && c in m.flights
    ensures forall d :: d in m.flights && d != c ==> m.flights[d].buf != m.flights[c].buf
  {
  }

  lemma SendEndPlays(m: Mq, step: Step, h: Calls)
    requires MqInv(m) && Allowed(m, step) && Agrees(m, h) && step.SendEnd?
    ensures MqInv(StepF(m, step)) && PlaysOne(Line(m), OpOf(m, step, h), Line(StepF(m, step)))
    ensures Agrees(StepF(m, step), CallsAfter(m, step, h))
  {
    hide Core, NoLostMessage, SendEndF, Line, Inv, FirstResumed, Queue;
    InvCore(m);
    SendEndInv(m, step.c);
    FirstInside(m);
    assert FlightAgrees(m.flights[step.c], step.c, m.letters, h);
  }

  lemma FirstInside(m: Mq)
    requires MqInv(m)
    ensures Queue(m.k, m.w) != [] ==> Queue(m.k, m.w)[0] in m.rin
  {
    hide Queue;
    if Queue(m.k, m.w) != [] { assert Queue(m.k, m.w)[0] in Queue(m.k, m.w); }
  }

  // What a receive means to the line and to the calls.
  lemma RecvMeans(m: Mq, m': Mq, r: Outcome, c: nat, size: nat, timeout: int, now: int, again: bool, h: Calls)
    requires Core(m) && Core(m') && RecvDone(m, m', r, c, size, timeout, now, again) && Agrees(m, h) && c !in m.flights
    ensures r == Done(Ok) <==> m.entry > 0
    ensures if r == Done(Ok) then |Line(m)| > 0 && Line(m) == [Line(m)[0]] + Line(m') else Line(m') == Line(m)
    ensures Agrees(m', RecvCalls(m, c, r, Wait(size, timeout, now), h))
  {
    hide Inv, Calling, Parted, Written, HasBlocked, ErrorOnly;
  }

  lemma RecvBeginPlays(m: Mq, step: Step, h: Calls)
    requires MqInv(m) && Allowed(m, step) && Agrees(m, h) && step.RecvBegin?
    ensures MqInv(StepF(m, step)) && PlaysOne(Line(m), OpOf(m, step, h), Line(StepF(m, step)))
    ensures Agrees(StepF(m, step), CallsAfter(m, step, h))
  {
    hide Core, NoLostMessage, RecvBeginF, Line, Inv, RecvDone, Agrees, RecvCalls;
    InvCore(m);
    RecvBeginInv(m, step.c, step.size, step.timeout, step.now);
    var (m', r) := RecvBeginF(m, step.c, step.size, step.timeout, step.now, false);
    RecvMeans(m, m', r, step.c, step.size, step.timeout, step.now, false, h);
  }

  lemma RecvAgainPlays(m: Mq, step: Step, h: Calls)
    requires MqInv(m) && Allowed(m, step) && Agrees(m, h) && step.RecvAgain?
    ensures MqInv(StepF(m, step)) && PlaysOne(Line(m), OpOf(m, step, h), Line(StepF(m, step)))
    ensures Agrees(StepF(m, step), CallsAfter(m, step, h))
  {
    hide Core, NoLostMessage, RecvAgainF, Line, Inv, RecvDone, Agrees, RecvCalls, Left;
    InvCore(m);
    CurrentHere(m);
    RecvAgainInv(m, step.c, step.now);
    KeptWait(m, h, m.k.current);
    var t := m.k.current;
    var (m', r) := RecvAgainF(m, step.c, step.now);
    var l, m1 := m.waits[t], m.(rin := m.rin - {t});
    if m.k.threads[t].error == Ok {
      RecvMeans(m1, m', r, step.c, l.size, Left(l.timeout, l.start, step.now), step.now, true, h);
      SameCalls(m, m1, step.c, r, Wait(l.size, Left(l.timeout, l.start, step.now), step.now), h);
    } else {
      NoCalls(m, step.c, r, Wait(l.size, Left(l.timeout, l.start, step.now), step.now), h);
    }
  }

  lemma KeptWait(m: Mq, h: Calls, t: nat)
    requires Agrees(m, h) && t in m.rin
    ensures t in h.waits && t in m.waits && h.waits[t] == m.waits[t]
    ensures Agrees(m.(rin := m.rin - {t}), h)
  {
  }

  lemma SameCalls(m: Mq, m1: Mq, c: nat, r: Outcome, w: Wait, h: Calls)
    requires Core(m) && Core(m1) && Line(m1) == Line(m) && m1.k == m.k
    ensures RecvCalls(m1, c, r, w, h) == RecvCalls(m, c, r, w, h)
  {
    hide Core, Line;
  }

  lemma NoCalls(m: Mq, c: nat, r: Outcome, w: Wait, h: Calls)
    requires Core(m) && r != Done(Ok) && r != Blocked
    ensures RecvCalls(m, c, r, w, h) == h
  {
    hide Core, Line;
  }

  lemma RecvEndPlays(m: Mq, step: Step, h: Calls)
    requires MqInv(m) && Allowed(m, step) && Agrees(m, h) && step.RecvEnd?
    ensures MqInv(StepF(m, step)) && PlaysOne(Line(m), OpOf(m, step, h), Line(StepF(m, step)))
    ensures Agrees(StepF(m, step), CallsAfter(m, step, h))
  {
    hide Core, NoLostMessage, RecvEndF, Line, Inv;
    InvCore(m);
    RecvEndInv(m, step.c);
  }

  lemma ResetPlays(m: Mq, step: Step, h: Calls)
    requires MqInv(m) && Allowed(m, step) && Agrees(m, h) && step.Reset?
    ensures MqInv(StepF(m, step)) && PlaysOne(Line(m), OpOf(m, step, h), Line(StepF(m, step)))
    ensures Agrees(StepF(m, step), CallsAfter(m, step, h))
  {
    hide Core, NoLostMessage, ResetF, Line, Inv, AllFailed;
    InvCore(m);
    ResetInv(m);
  }

  lemma ResumedPlays(m: Mq, step: Step, h: Calls)
    requires MqInv(m) && Allowed(m, step) && Agrees(m, h) && step.Resumed?
    ensures MqInv(StepF(m, step)) && PlaysOne(Line(m), OpOf(m, step, h), Line(StepF(m, step)))
    ensures Agrees(StepF(m, step), CallsAfter(m, step, h))
  {
    hide Core, NoLostMessage, ResumedF, Line, Inv;
    InvCore(m);
    ResumedInv(m, step.t);
  }

  lemma OtherPlays(m: Mq, step: Step, h: Calls)
    requires MqInv(m) && Allowed(m, step) && Agrees(m, h) && step.Other?
    ensures MqInv(StepF(m, step)) && PlaysOne(Line(m), OpOf(m, step, h), Line(StepF(m, step)))
    ensures Agrees(StepF(m, step), CallsAfter(m, step, h))
  {
    hide Core, NoLostMessage, OtherF, Line, Inv, CallF, Outside;
    InvCore(m);
    OtherInv(m, step.call);
  }

  ghost function Ops(m: Mq, steps: seq<Step>, h: Calls): seq<Op>
    requires MqInv(m) && AllowedRun(m, steps)
    decreases |steps|
  {
    if steps == [] then []
    else
      StepInv(m, steps[0]);
      [OpOf(m, steps[0], h)] + Ops(StepF(m, steps[0]), steps[1..], CallsAfter(m, steps[0], h))
  }

  ghost function AllCalls(m: Mq, steps: seq<Step>, h: Calls): Calls
    requires MqInv(m) && AllowedRun(m, steps)
    decreases |steps|
  {
    if steps == [] then h
    else StepInv(m, steps[0]); AllCalls(StepF(m, steps[0]), steps[1..], CallsAfter(m, steps[0], h))
  }

  ghost predicate Plays(line: seq<seq<bv8>>, ops: seq<Op>, line': seq<seq<bv8>>)
    decreases |ops|
  {
    if ops == [] then line' == line
    else exists next :: PlaysOne(line, ops[0], next) && Plays(next, ops[1..], line')
  }

  // Every run is one of an atomic queue: each message is taken from the head of what was linked; and the
  // program keeps of each call what it was made with.
  lemma {:induction false} RunPlays(m: Mq, steps: seq<Step>, h: Calls)
    requires MqInv(m) && AllowedRun(m, steps) && Agrees(m, h)
    ensures Plays(Line(m), Ops(m, steps, h), Line(Run(m, steps)))
    ensures Agrees(Run(m, steps), AllCalls(m, steps, h)) && SameQueue(m, Run(m, steps))
    decreases |steps|
  {
    hide Core, NoLostMessage, StepF, Allowed, Line, OpOf, PlaysOne, CallsAfter, Agrees;
    if steps != [] {
      StepInv(m, steps[0]);
      StepPlays(m, steps[0], h);
      var m1, h1 := StepF(m, steps[0]), CallsAfter(m, steps[0], h);
      RunPlays(m1, steps[1..], h1);
      assert Ops(m, steps, h)[1..] == Ops(m1, steps[1..], h1);
      assert PlaysOne(Line(m), Ops(m, steps, h)[0], Line(m1));
    }
  }

  // The messages linked, and those taken, in a run of the queue.
  ghost function Pushed(ops: seq<Op>): seq<seq<bv8>> {
    if ops == [] then [] else (if ops[0].Push? then [ops[0].letter] else []) + Pushed(ops[1..])
  }

  ghost function Popped(ops: seq<Op>): seq<seq<bv8>> {
    if ops == [] then [] else (if ops[0].Pop? then [ops[0].letter] else []) + Popped(ops[1..])
  }

  lemma {:induction false} InOrder(line: seq<seq<bv8>>, ops: seq<Op>, line': seq<seq<bv8>>)
    requires Plays(line, ops, line') && forall o :: o in ops ==> !o.Clear? && !(o.Push? && o.urgent)
    ensures line + Pushed(ops) == Popped(ops) + line'
    decreases |ops|
  {
    hide PlaysOne;
    if ops != [] {
      var next :| PlaysOne(line, ops[0], next) && Plays(next, ops[1..], line');
      assert ops[0] in ops && forall o :: o in ops[1..] ==> o in ops;
      InOrder(next, ops[1..], line');
      OneInOrder(line, ops[0], next, Pushed(ops[1..]), Popped(ops[1..]), line');
    }
  }

  lemma OneInOrder(line: seq<seq<bv8>>, op: Op, next: seq<seq<bv8>>, pushed: seq<seq<bv8>>, popped: seq<seq<bv8>>,
                   line': seq<seq<bv8>>)
    requires PlaysOne(line, op, next) && !op.Clear? && !(op.Push? && op.urgent) && next + pushed == popped + line'
    ensures line + ((if op.Push? then [op.letter] else []) + pushed)
            == ((if op.Pop? then [op.letter] else []) + popped) + line'
  {
    match op
    case Push(x, _) => assert line + ([x] + pushed) == next + pushed;
    case Pop(x) => assert line + pushed == [x] + (next + pushed) && ([x] + popped) + line' == [x] + (popped + line');
    case Stay => assert [] + pushed == pushed && [] + popped == popped;
  }

  // Without urgent messages and resets, the messages taken in a run are the first of those in line and
  // linked, in order; the others are still in line. None is lost, doubled or overtaken.
  lemma FifoLaw(m: Mq, steps: seq<Step>, h: Calls)
    requires MqInv(m) && AllowedRun(m, steps) && Agrees(m, h)
    requires forall o :: o in Ops(m, steps, h) ==> !o.Clear? && !(o.Push? && o.urgent)
    ensures Line(m) + Pushed(Ops(m, steps, h)) == Popped(Ops(m, steps, h)) + Line(Run(m, steps))
  {
    RunPlays(m, steps, h);
    InOrder(Line(m), Ops(m, steps, h), Line(Run(m, steps)));
  }

  // `bytes` is what a receiver with the given room gets of a message in a buffer of msgSize bytes.
  ghost predicate Received(bytes: seq<bv8>, taken: Taken, msgSize: nat) {
    && |bytes| == (if taken.room > msgSize then msgSize else taken.room)
    && forall i :: 0 <= i < |bytes| && i < |taken.letter| ==> bytes[i] == taken.letter[i]
  }

  // What a receiver hands out in the end is the message it took from the head of the line, whatever
  // happens in between: as much of it as the buffer has room for that it called with.
  lemma HandsOut(m: Mq, steps: seq<Step>, h: Calls, c: nat)
    requires MqInv(m) && AllowedRun(m, steps) && Agrees(m, h) && ReadyToFree(Run(m, steps), c)
    ensures var m', h' := Run(m, steps), AllCalls(m, steps, h);
            && c in h'.takes && m'.flights[c].buf < |m'.data| && |m'.data[m'.flights[c].buf]| == m'.msgSize
            && Received(RecvEndF(m', c).1, h'.takes[c], m.msgSize)
  {
    hide Core, NoLostMessage, Line, AllowedRun, Run, AllCalls, Ops, Plays;
    RunPlays(m, steps, h);
    RecvEndInv(Run(m, steps), c);
  }

  // Thread t does not run again in its call, and is not deleted.
  ghost predicate StaysInside(m: Mq, steps: seq<Step>, t: nat)
    requires MqInv(m) && AllowedRun(m, steps)
    decreases |steps|
  {
    steps == []
    || (&& !(steps[0].RecvAgain? && m.k.current == t) && steps[0] != Other(Call.Delete(t))
        && (StepInv(m, steps[0]); StaysInside(StepF(m, steps[0]), steps[1..], t)))
  }

  // What thread t waits with stays as it is.
  lemma WaitKept(m: Mq, step: Step, h: Calls, t: nat)
    requires MqInv(m) && Allowed(m, step) && Agrees(m, h) && t in m.rin
    requires !(step.RecvAgain? && m.k.current == t) && step != Other(Call.Delete(t))
    ensures t in StepF(m, step).rin && t in h.waits
    ensures t in CallsAfter(m, step, h).waits && CallsAfter(m, step, h).waits[t] == h.waits[t]
  {
    hide Core, NoLostMessage, SendBeginF, SendCopyF, SendEndF, RecvBeginF, RecvAgainF, RecvEndF, ResetF, OtherF, Line,
        Inv, HasBlocked, FirstResumed, AllFailed, ErrorOnly, Left, Queue, FlightAgrees;
    InvCore(m);
    match step
    case SendBegin(c, bytes, urgent) => SendBeginInv(m, c, bytes, urgent);
    case SendCopy(c) => SendCopyInv(m, c);
    case SendEnd(c) => SendEndInv(m, c);
    case RecvBegin(c, size, timeout, now) => RecvBeginInv(m, c, size, timeout, now);
    case RecvAgain(c, now) => RecvAgainInv(m, c, now);
    case RecvEnd(c) => RecvEndInv(m, c);
    case Reset => ResetInv(m);
    case Resumed(u) => ResumedInv(m, u);
    case Other(c) => OtherInv(m, c);
  }

  lemma {:induction false} WaitKeptRun(m: Mq, steps: seq<Step>, h: Calls, t: nat)
    requires MqInv(m) && AllowedRun(m, steps) && Agrees(m, h) && t in m.rin && StaysInside(m, steps, t)
    ensures t in Run(m, steps).rin && t in h.waits
    ensures t in AllCalls(m, steps, h).waits && AllCalls(m, steps, h).waits[t] == h.waits[t]
    decreases |steps|
  {
    hide MqInv, StepF, Allowed, CallsAfter, Agrees;
    if steps == [] {
      KeptWait(m, h, t);
    } else {
      StepInv(m, steps[0]);
      StepPlays(m, steps[0], h);
      WaitKept(m, steps[0], h, t);
      WaitKeptRun(StepF(m, steps[0]), steps[1..], CallsAfter(m, steps[0], h), t);
    }
  }

  // A receiver that has to wait, in a call with room for `size` bytes: when it runs again, whatever has
  // happened, it takes the first message of the line for that room, or has to wait for what is left of its
  // time; and after that what it hands out is that message, as far as `size` bytes and the buffers reach.
  lemma HandsOutAsAsked(m: Mq, c0: nat, size: nat, timeout: int, now: int, mid: seq<Step>, c: nat, back: int,
                        later: seq<Step>, h: Calls)
    requires MqInv(m) && Agrees(m, h) && Allowed(m, RecvBegin(c0, size, timeout, now))
    requires m.entry == 0 && timeout != 0
    requires var m1 := StepF(m, RecvBegin(c0, size, timeout, now));
             && MqInv(m1) && AllowedRun(m1, mid) && StaysInside(m1, mid, m.k.current)
             && Run(m1, mid).k.current == m.k.current && Allowed(Run(m1, mid), RecvAgain(c, back))
    requires var m3 := StepF(Run(StepF(m, RecvBegin(c0, size, timeout, now)), mid), RecvAgain(c, back));
             MqInv(m3) && AllowedRun(m3, later) && RecvEnd(c) !in later
    ensures var t, m2 := m.k.current, Run(StepF(m, RecvBegin(c0, size, timeout, now)), mid);
            var m3 := StepF(m2, RecvAgain(c, back));
            && t in m2.k.threads && t in m2.waits && (m2.entry > 0 ==> m2.queue != [])
            && (Served(m2) ==>
                  var m4 := Run(m3, later);
                  && |Line(m2)| > 0 && ReadyToFree(m4, c)
                  && m4.flights[c].buf < |m4.data| && |m4.data[m4.flights[c].buf]| == m4.msgSize
                  && Received(RecvEndF(m4, c).1, Taken(Line(m2)[0], size), m.msgSize))
            && (m2.k.threads[t].error == Ok && m2.entry == 0 ==>
                  if Left(timeout, now, back) == 0 then RecvAgainF(m2, c, back).1 == Done(Timeout)
                  else RecvAgainF(m2, c, back).1 == Blocked
                       && t in m3.waits && m3.waits[t] == Wait(size, Left(timeout, now, back), back))
  {
    hide Core, NoLostMessage, Line, AllowedRun, Run, AllCalls, Ops, Plays, StaysInside, Agrees, Allowed, StepF, Left,
        RecvAgainF, RecvBeginF, CallsAfter, Received, Carries;
    var t, first, again := m.k.current, RecvBegin(c0, size, timeout, now), RecvAgain(c, back);
    var m1, h1 := StepF(m, first), CallsAfter(m, first, h);
    StepPlays(m, first, h);
    StepInv(m, first);
    WaitsNow(m, c0, size, timeout, now, h);
    RunPlays(m1, mid, h1);
    WaitKeptRun(m1, mid, h1, t);
    var m2, h2 := Run(m1, mid), AllCalls(m1, mid, h1);
    KeptWait(m2, h2, t);
    StepPlays(m2, again, h2);
    StepInv(m2, again);
    TakesNow(m2, c, back, h2);
    var m3, h3 := StepF(m2, again), CallsAfter(m2, again, h2);
    if Served(m2) {
      StillTakes(m3, later, h3, c);
      HandsOut(m3, later, h3, c);
    }
  }

  lemma WaitsNow(m: Mq, c: nat, size: nat, timeout: int, now: int, h: Calls)
    requires MqInv(m) && Allowed(m, RecvBegin(c, size, timeout, now)) && m.entry == 0 && timeout != 0
    ensures var m1, h1, t := StepF(m, RecvBegin(c, size, timeout, now)),
                             CallsAfter(m, RecvBegin(c, size, timeout, now), h), m.k.current;
            t in m1.rin && t in h1.waits && h1.waits[t] == Wait(size, timeout, now)
  {
    hide Core, NoLostMessage, Line, RecvBeginF, Inv, HasBlocked;
    InvCore(m);
    RecvBeginInv(m, c, size, timeout, now);
  }

  lemma TakesNow(m: Mq, c: nat, now: int, h: Calls)
    requires MqInv(m) && Allowed(m, RecvAgain(c, now)) && m.k.current in h.waits && m.k.current in m.waits
    requires m.waits[m.k.current] == h.waits[m.k.current]
    ensures var t, m', h' := m.k.current, StepF(m, RecvAgain(c, now)), CallsAfter(m, RecvAgain(c, now), h);
            && t in m.k.threads && (m.entry > 0 ==> m.queue != []) && Inv(m.k)
            && (Served(m) ==>
                  |Line(m)| > 0 && ReadyToFree(m', c) && c in h'.takes
                  && h'.takes[c] == Taken(Line(m)[0], h.waits[t].size))
            && (m.k.threads[t].error == Ok && m.entry == 0 ==>
                  var left := Left(h.waits[t].timeout, h.waits[t].start, now);
                  if left == 0 then RecvAgainF(m, c, now).1 == Done(Timeout)
                  else RecvAgainF(m, c, now).1 == Blocked && t in m'.waits
                       && m'.waits[t] == Wait(h.waits[t].size, left, now))
  {
    hide Core, NoLostMessage, Line, RecvAgainF, Inv, HasBlocked, ErrorOnly, Left;
    InvCore(m);
    CurrentHere(m);
    RecvAgainInv(m, c, now);
  }

  lemma CurrentHere(m: Mq)
    requires MqInv(m)
    ensures m.k.current in m.k.threads && |Line(m)| == m.entry
  {
    Usable(m.k);
  }

  // A receiver that has taken a message keeps it until it hands it out.
  lemma TakeKept(m: Mq, step: Step, h: Calls, c: nat)
    requires MqInv(m) && Allowed(m, step) && ReadyToFree(m, c) && c in h.takes && step != RecvEnd(c)
    ensures ReadyToFree(StepF(m, step), c)
    ensures c in CallsAfter(m, step, h).takes && CallsAfter(m, step, h).takes[c] == h.takes[c]
  {
    hide Core, NoLostMessage, SendBeginF, SendCopyF, SendEndF, RecvBeginF, RecvAgainF, RecvEndF, ResetF, OtherF, Line,
        Inv, HasBlocked, FirstResumed, AllFailed, ErrorOnly, Left, Queue;
    InvCore(m);
    match step
    case SendBegin(d, bytes, urgent) => SendBeginInv(m, d, bytes, urgent);
    case SendCopy(d) => SendCopyInv(m, d);
    case SendEnd(d) => SendEndInv(m, d);
    case RecvBegin(d, size, timeout, now) => RecvBeginInv(m, d, size, timeout, now);
    case RecvAgain(d, now) => RecvAgainInv(m, d, now);
    case RecvEnd(d) => RecvEndInv(m, d);
    case Reset => ResetInv(m);
    case Resumed(u) => ResumedInv(m, u);
    case Other(d) => OtherInv(m, d);
  }

  lemma {:induction false} StillTakes(m: Mq, steps: seq<Step>, h: Calls, c: nat)
    requires MqInv(m) && AllowedRun(m, steps) && ReadyToFree(m, c) && c in h.takes && RecvEnd(c) !in steps
    ensures ReadyToFree(Run(m, steps), c)
    ensures c in AllCalls(m, steps, h).takes && AllCalls(m, steps, h).takes[c] == h.takes[c]
    decreases |steps|
  {
    hide MqInv, StepF, Allowed, CallsAfter, ReadyToFree;
    if steps != [] {
      StepInv(m, steps[0]);
      assert steps[0] in steps && forall s :: s in steps[1..] ==> s in steps;
      TakeKept(m, steps[0], h, c);
      StillTakes(StepF(m, steps[0]), steps[1..], CallsAfter(m, steps[0], h), c);
    }
  }

  // Deleting a receiver that was resumed for a message and has not run keeps the promise exactly if no
  // receiver waits or the messages left are still meant for others.
  lemma DeleteResumed(m: Mq, t: nat)
    requires MqInv(m) && t in Woken(m.rin) && Outside(m.k, m.w, m.rin, Call.Delete(t))
    ensures Inv(m.k) && Legal(m.k, Call.Delete(t))
    ensures MqInv(OtherF(m, Call.Delete(t))) <==> Queue(m.k, m.w) == [] || m.entry < |Woken(m.rin)|
  {
    var c := Call.Delete(t);
    hide Inv, Queue, Account, CallF, Outside, Parted, Written;
    CoreParts(m);
    OutsideLegal(m.k, m.w, m.rin, c);
    OutsideQueue(m.k, m.w, m.rin, c);
    AccountCall(m.k, m.w, m.rin, c);
    WokenDrop(m.rin, t);
    StillWaiting(m.k, m.w, m.rin, t);
  }
}
