// The ready bits of scheduler.c and the bit search of kservice.c. With at most 32 priorities one
// word holds a bit per priority; with up to 256 a second level of 32 bytes holds them, and the
// word holds a bit per byte.
module ReadyBits {

  // __lowest_bit_bitmap: the sixteen rows of the table differ in their first entry only.
  function RowHead(row: bv8): bv8 {
    match row
    case 0 => 0 case 1 => 4 case 2 => 5 case 3 => 4
    case 4 => 6 case 5 => 4 case 6 => 5 case 7 => 4
    case 8 => 7 case 9 => 4 case 10 => 5 case 11 => 4
    case 12 => 6 case 13 => 4 case 14 => 5 case _ => 4
  }

  function RowRest(column: bv8): bv8 {
    match column
    case 1 => 0 case 2 => 1 case 3 => 0
    case 4 => 2 case 5 => 0 case 6 => 1 case 7 => 0
    case 8 => 3 case 9 => 0 case 10 => 1 case 11 => 0
    case 12 => 2 case 13 => 0 case 14 => 1 case _ => 0
  }

  function LowestBit(i: bv8): (r: bv8)
    ensures r < 8
    ensures i != 0 ==> (i >> r) & 1 == 1 && i & (((1 as bv8) << r) - 1) == 0
  {
    if i & 0x0f == 0 then RowHead(i >> 4) else RowRest(i & 0x0f)
  }

  predicate Bit(w: bv32, p: bv8) {
    p < 32 && (w >> p) & 1 == 1
  }

  // All bits below p are zero.
  predicate NoneBelow(w: bv32, p: bv8) {
    p < 32 && w & (((1 as bv32) << p) - 1) == 0
  }

  // __rt_ffs: one more than the lowest set bit, zero when there is none.
  function Ffs(value: bv32): (r: bv8)
    ensures r == 0 <==> value == 0
    ensures value != 0 ==> r <= 32 && Bit(value, r - 1)
    ensures value != 0 ==> NoneBelow(value, r - 1)
  {
    if value == 0 then 0
    else if value & 0xff != 0 then LowestBit((value & 0xff) as bv8) + 1
    else if value & 0xff00 != 0 then LowestBit(((value & 0xff00) >> 8) as bv8) + 9
    else if value & 0xff_0000 != 0 then LowestBit(((value & 0xff_0000) >> 16) as bv8) + 17
    else LowestBit(((value & 0xff00_0000) >> 24) as bv8) + 25
  }

  // No set bit lies below the one found.
  lemma FfsLowest(value: bv32, q: bv8)
    requires Bit(value, q)
    ensures value != 0 && Ffs(value) - 1 <= q
  {
    hide *;
    SomeBit(value, q);
    BelowNone(value, Ffs(value) - 1, q);
  }

  lemma BelowNone(w: bv32, p: bv8, q: bv8)
    requires NoneBelow(w, p) && Bit(w, q)
    ensures p <= q
  {
  }

  lemma SomeBit(w: bv32, p: bv8)
    requires Bit(w, p)
    ensures w != 0 && p < 32
  {
  }

  // The two parts of a priority on two levels: its byte, and its bit there.
  function Upper(p: bv8): bv8 { p >> 3 }
  function Lower(p: bv8): bv8 { p & 7 }
  function Joined(n: bv8, h: bv8): bv8 { (n << 3) + h }

  function WordMask(p: bv8): bv32
    requires p < 32
  {
    (1 as bv32) << p
  }

  function ByteMask(p: bv8): bv8
    requires p < 8
  {
    (1 as bv8) << p
  }

  function Byte(w: bv8): bv32 { w as bv32 }

  // `|=` and `&= ~`
  function WithWord(w: bv32, mask: bv32): bv32 { w | mask }
  function LessWord(w: bv32, mask: bv32): bv32 { w & !mask }
  function WithByte(w: bv8, mask: bv8): bv8 { w | mask }
  function LessByte(w: bv8, mask: bv8): bv8 { w & !mask }

  lemma TwoParts(p: bv8)
    ensures Upper(p) < 32 && Lower(p) < 8
  {
  }

  // Priorities are ordered by byte, then by bit.
  lemma TwoPartsOrder(p: bv8, q: bv8)
    ensures p == q <==> Upper(p) == Upper(q) && Lower(p) == Lower(q)
    ensures p <= q <==> Upper(p) < Upper(q) || (Upper(p) == Upper(q) && Lower(p) <= Lower(q))
  {
  }

  lemma JoinedParts(n: bv8, h: bv8)
    requires n < 32 && h < 8
    ensures Upper(Joined(n, h)) == n && Lower(Joined(n, h)) == h
  {
  }

  lemma WordSet(w: bv32, p: bv8, q: bv8)
    requires p < 32
    ensures Bit(WithWord(w, WordMask(p)), q) <==> Bit(w, q) || q == p
  {
  }

  lemma WordCleared(w: bv32, p: bv8, q: bv8)
    requires p < 32
    ensures Bit(LessWord(w, WordMask(p)), q) <==> Bit(w, q) && q != p
  {
  }

  lemma ByteSet(w: bv8, p: bv8, q: bv8)
    requires p < 8
    ensures Bit(Byte(WithByte(w, ByteMask(p))), q) <==> Bit(Byte(w), q) || q == p
    ensures WithByte(w, ByteMask(p)) != 0
  {
  }

  lemma ByteCleared(w: bv8, p: bv8, q: bv8)
    requires p < 8
    ensures Bit(Byte(LessByte(w, ByteMask(p))), q) <==> Bit(Byte(w), q) && q != p
    ensures LessByte(w, ByteMask(p)) != 0 ==> w != 0
  {
  }

  lemma ByteBits(w: bv8, p: bv8)
    ensures Byte(w) == 0 <==> w == 0
    ensures Bit(Byte(w), p) ==> p < 8
  {
  }

  // Priorities as numbers, and as the eight bits the program keeps them in.
  function Nat(p: bv8): (n: nat)
    ensures n < 256
  {
    p as int
  }

  function Prio(p: nat): (b: bv8)
    requires p < 256
    ensures Nat(b) == p
  {
    if p == 0 then 0 else NatSuccessor(Prio(p - 1)); Prio(p - 1) + 1
  }

  lemma NatSuccessor(b: bv8)
    ensures b < 255 <==> Nat(b) < 255
    ensures b < 255 ==> Nat(b + 1) == Nat(b) + 1
  {
  }

  lemma PrioOfNat(b: bv8)
    ensures Prio(Nat(b)) == b
  {
    NatDiffers(Prio(Nat(b)), b);
  }

  lemma NatOrder(a: bv8, b: bv8)
    ensures a <= b <==> Nat(a) <= Nat(b)
  {
  }

  lemma NatSmall(b: bv8)
    ensures b < 32 <==> Nat(b) < 32
  {
  }

  lemma PrioNat(p: nat, b: bv8)
    requires p < 256
    ensures Nat(Prio(p)) == p && Prio(Nat(b)) == b
    ensures b <= Prio(p) <==> Nat(b) <= p
    ensures b < 32 <==> Nat(b) < 32
    ensures Prio(p) < 32 <==> p < 32
  {
    hide *;
    PrioOfNat(b);
    NatOrder(b, Prio(p));
    NatSmall(b);
    NatSmall(Prio(p));
  }

  lemma NatDiffers(n: bv8, k: bv8)
    ensures Nat(n) == Nat(k) ==> n == k
  {
  }

  // A thread's masks for its priority; `number` and `high` are used on two levels only.
  datatype Masks = Masks(number: bv8, numberMask: bv32, highMask: bv8)

  // RT_THREAD_PRIORITY_MAX: 256 with the second level, 32 without.
  function Limit(wide: bool): nat {
    if wide then 256 else 32
  }

  function MasksOf(wide: bool, p: nat): Masks
    requires p < Limit(wide)
  {
    var b := Prio(p);
    TwoParts(b);
    PrioNat(p, b);
    if wide then Masks(Upper(b), WordMask(Upper(b)), ByteMask(Lower(b))) else Masks(0, WordMask(b), 0)
  }

  // The scheduler's word, and its 32 bytes for more than 32 priorities.
  datatype Bits = Bits(wide: bool, group: bv32, table: seq<bv8>)

  ghost predicate Row(b: Bits, n: bv8)
    requires |b.table| == 32 && n < 32
  {
    PrioNat(0, n);
    Bit(b.group, n) <==> b.table[Nat(n)] != 0
  }

  // The word has a bit exactly for the bytes that are not zero.
  ghost predicate Whole(b: Bits) {
    b.wide ==> |b.table| == 32 && forall n: bv8 :: n < 32 ==> Row(b, n)
  }

  function Entry(b: Bits, n: bv8): bv8
    requires |b.table| == 32 && n < 32
  {
    PrioNat(0, n);
    b.table[Nat(n)]
  }

  // Priority p is marked ready.
  predicate Marked(b: Bits, p: nat)
    requires p < Limit(b.wide) && (b.wide ==> |b.table| == 32)
  {
    TwoParts(Prio(p));
    if b.wide then Bit(Byte(Entry(b, Upper(Prio(p)))), Lower(Prio(p))) else Bit(b.group, Prio(p))
  }

  function Mark(b: Bits, m: Masks): (b': Bits)
    requires b.wide ==> |b.table| == 32 && m.number < 32
    ensures b'.wide == b.wide && |b'.table| == |b.table|
  {
    PrioNat(0, m.number);
    if b.wide then
      Bits(true, WithWord(b.group, m.numberMask), b.table[Nat(m.number) := WithByte(Entry(b, m.number), m.highMask)])
    else b.(group := WithWord(b.group, m.numberMask))
  }

  function Unmark(b: Bits, m: Masks): (b': Bits)
    requires b.wide ==> |b.table| == 32 && m.number < 32
    ensures b'.wide == b.wide && |b'.table| == |b.table|
  {
    PrioNat(0, m.number);
    if b.wide then
      var entry := LessByte(Entry(b, m.number), m.highMask);
      Bits(true, if entry == 0 then LessWord(b.group, m.numberMask) else b.group, b.table[Nat(m.number) := entry])
    else b.(group := LessWord(b.group, m.numberMask))
  }

  // _get_highest_priority_thread: the most urgent marked priority.
  function Highest(b: Bits): nat
    requires Whole(b) && b.group != 0
  {
    if b.wide then
      var number := Ffs(b.group) - 1;
      Nat(Joined(number, Ffs(Byte(Entry(b, number))) - 1))
    else Nat(Ffs(b.group) - 1)
  }

  // The entries after one was rewritten.
  lemma EntryAfter(b: Bits, n: bv8, entry: bv8, group: bv32, k: bv8)
    requires |b.table| == 32 && n < 32 && k < 32
    ensures Nat(n) < 32
    ensures Entry(Bits(true, group, b.table[Nat(n) := entry]), k) == if k == n then entry else Entry(b, k)
  {
    PrioNat(0, n);
    NatDiffers(n, k);
  }

  // Marking a priority marks that one and no other.
  lemma MarkLaw(b: Bits, p: nat, q: nat)
    requires Whole(b) && p < Limit(b.wide) && q < Limit(b.wide)
    ensures b.wide ==> MasksOf(b.wide, p).number < 32
    ensures var b' := Mark(b, MasksOf(b.wide, p));
            Whole(b') && (Marked(b', q) <==> Marked(b, q) || q == p)
  {
    hide Bit, Byte, Upper, Lower, WordMask, ByteMask, WithWord, LessWord, WithByte, LessByte, Nat, Prio, Entry;
    PrioNat(p, Prio(p));
    PrioNat(q, Prio(q));
    if b.wide {
      TwoParts(Prio(p));
      TwoParts(Prio(q));
      TwoPartsOrder(Prio(p), Prio(q));
      var n := Upper(Prio(p));
      var entry, group := WithByte(Entry(b, n), ByteMask(Lower(Prio(p)))), WithWord(b.group, WordMask(n));
      ByteSet(Entry(b, n), Lower(Prio(p)), Lower(Prio(q)));
      EntryAfter(b, n, entry, group, Upper(Prio(q)));
      forall k: bv8 | k < 32
        ensures Row(Mark(b, MasksOf(true, p)), k)
      {
        assert Row(b, k);
        WordSet(b.group, n, k);
        EntryAfter(b, n, entry, group, k);
        EntryRow(b, k);
        EntryRow(Mark(b, MasksOf(true, p)), k);
      }
    } else {
      WordSet(b.group, Prio(p), Prio(q));
    }
  }

  lemma EntryRow(b: Bits, k: bv8)
    requires |b.table| == 32 && k < 32
    ensures Row(b, k) <==> (Bit(b.group, k) <==> Entry(b, k) != 0)
  {
    hide Bit, Nat;
  }

  // Unmarking a priority unmarks that one and no other.
  lemma UnmarkLaw(b: Bits, p: nat, q: nat)
    requires Whole(b) && p < Limit(b.wide) && q < Limit(b.wide)
    ensures b.wide ==> MasksOf(b.wide, p).number < 32
    ensures var b' := Unmark(b, MasksOf(b.wide, p));
            Whole(b') && (Marked(b', q) <==> Marked(b, q) && q != p)
  {
    hide Bit, Byte, Upper, Lower, WordMask, ByteMask, WithWord, LessWord, WithByte, LessByte, Nat, Prio, Entry;
    PrioNat(p, Prio(p));
    PrioNat(q, Prio(q));
    if b.wide {
      TwoParts(Prio(p));
      TwoParts(Prio(q));
      TwoPartsOrder(Prio(p), Prio(q));
      var n := Upper(Prio(p));
      var entry := LessByte(Entry(b, n), ByteMask(Lower(Prio(p))));
      var group := if entry == 0 then LessWord(b.group, WordMask(n)) else b.group;
      ByteCleared(Entry(b, n), Lower(Prio(p)), Lower(Prio(q)));
      EntryAfter(b, n, entry, group, Upper(Prio(q)));
      forall k: bv8 | k < 32
        ensures Row(Unmark(b, MasksOf(true, p)), k)
      {
        assert Row(b, k);
        WordCleared(b.group, n, k);
        EntryAfter(b, n, entry, group, k);
        EntryRow(b, k);
        EntryRow(Unmark(b, MasksOf(true, p)), k);
      }
    } else {
      WordCleared(b.group, Prio(p), Prio(q));
    }
  }

  // On one level or two, the search finds a marked priority, and none that is marked is more urgent.
  lemma HighestLaw(b: Bits, q: nat)
    requires Whole(b) && q < Limit(b.wide)
    ensures b.group != 0 ==> Highest(b) < Limit(b.wide) && Marked(b, Highest(b))
    ensures Marked(b, q) ==> b.group != 0 && Highest(b) <= q
  {
    hide Bit, Byte, Upper, Lower, Joined, NoneBelow, Ffs, Nat, Prio, Entry;
    PrioNat(q, Prio(q));
    if b.wide {
      if b.group != 0 { HighestWide(b); }
      if Marked(b, q) { LowestWide(b, q); }
    } else {
      PrioNat(0, Ffs(b.group) - 1);
      PrioNat(q, Ffs(b.group) - 1);
      if Marked(b, q) { FfsLowest(b.group, Prio(q)); }
    }
  }

  lemma HighestWide(b: Bits)
    requires Whole(b) && b.wide && b.group != 0
    ensures var h := Prio(Highest(b));
            && Upper(h) == Ffs(b.group) - 1 && Upper(h) < 32 && Lower(h) == Ffs(Byte(Entry(b, Upper(h)))) - 1
            && Highest(b) == Nat(h) && Marked(b, Highest(b))
  {
    hide Bit, Byte, Upper, Lower, Joined, NoneBelow, Ffs, Nat, Prio, Entry;
    var n := Ffs(b.group) - 1;
    assert Row(b, n);
    EntryRow(b, n);
    var entry := Byte(Entry(b, n));
    ByteBits(Entry(b, n), Ffs(entry) - 1);
    JoinedParts(n, Ffs(entry) - 1);
    PrioNat(0, Joined(n, Ffs(entry) - 1));
    PrioNat(Highest(b), Prio(Highest(b)));
  }

  lemma LowestWide(b: Bits, q: nat)
    requires Whole(b) && b.wide && q < 256 && Marked(b, q)
    ensures b.group != 0 && Highest(b) <= q
  {
    hide Bit, Byte, Upper, Lower, Joined, NoneBelow, Ffs, Nat, Prio, Entry;
    var u, l := Upper(Prio(q)), Lower(Prio(q));
    TwoParts(Prio(q));
    assert Row(b, u);
    EntryRow(b, u);
    SomeBit(Byte(Entry(b, u)), l);
    ByteBits(Entry(b, u), l);
    FfsLowest(b.group, u);
    HighestWide(b);
    var h := Prio(Highest(b));
    TwoPartsOrder(h, Prio(q));
    PrioNat(q, h);
    if Upper(h) == u { FfsLowest(Byte(Entry(b, u)), l); }
  }
}
