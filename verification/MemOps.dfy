// rt-thread/src/kservice.c: rt_memset, rt_memcpy and rt_memmove on one byte-addressed memory whose
// first byte is word-aligned. The fast forms of the first two write words; what they leave in memory
// is said byte by byte.
module MemOps {
  import opened Payloads

  const LONG: int := 4

  // The n bytes at `to` become `c`.
  ghost function Filled(data: seq<bv8>, to: int, c: bv8, n: int): (r: seq<bv8>)
    requires 0 <= to && 0 <= n && to + n <= |data|
    ensures |r| == |data|
    ensures forall i :: 0 <= i < |data| ==> r[i] == if to <= i < to + n then c else data[i]
  {
    data[..to] + seq(n, _ => c) + data[to + n..]
  }

  ghost predicate IsFilled(data: seq<bv8>, to: int, c: bv8, n: int, after: seq<bv8>) {
    |after| == |data| && forall i :: 0 <= i < |data| ==> after[i] == if to <= i < to + n then c else data[i]
  }

  lemma FilledIs(data: seq<bv8>, to: int, c: bv8, n: int, after: seq<bv8>)
    requires 0 <= to && 0 <= n && to + n <= |data| && IsFilled(data, to, c, n, after)
    ensures after == Filled(data, to, c, n)
  {
  }

  lemma FilledMore(data: seq<bv8>, to: int, c: bv8, n: int, more: int, before: seq<bv8>, after: seq<bv8>)
    requires 0 <= n && 0 <= more && IsFilled(data, to, c, n, before) && IsFilled(before, to + n, c, more, after)
    ensures IsFilled(data, to, c, n + more, after)
  {
  }

  method WriteWord(a: array<bv8>, at: int, b0: bv8, b1: bv8, b2: bv8, b3: bv8)
    requires 0 <= at && at + LONG <= a.Length
    modifies a
    ensures forall i :: 0 <= i < a.Length ==>
              a[i] == if i == at then b0 else if i == at + 1 then b1 else if i == at + 2 then b2
                      else if i == at + 3 then b3 else old(a[i])
  {
    a[at], a[at + 1], a[at + 2], a[at + 3] := b0, b1, b2, b3;
  }

  // The next word of a filling from s on that has come to m.
  method FillAt(a: array<bv8>, m: int, c: bv8, ghost data: seq<bv8>, ghost s: int)
    requires 0 <= s <= m && m + LONG <= a.Length == |data| && IsFilled(data, s, c, m - s, a[..])
    modifies a
    ensures IsFilled(data, s, c, m - s + LONG, a[..])
  {
    ghost var before := a[..];
    WriteWord(a, m, c, c, c, c);
    FilledMore(data, s, c, m - s, LONG, before, a[..]);
  }

  // rt_memset
  method Memset(a: array<bv8>, s: int, c: bv8, n: int)
    requires 0 <= s && 0 <= n && s + n <= a.Length
    modifies a
    ensures a[..] == Filled(old(a[..]), s, c, n)
  {
    hide IsFilled;
    var m, count := s, n;
    ghost var data := a[..];
    FilledNone(data, s, c);
    if count >= LONG && s % LONG == 0 {
      while count >= 4 * LONG
        invariant 0 <= count <= n && m == s + (n - count) && IsFilled(data, s, c, m - s, a[..])
      {
        FillAt(a, m, c, data, s);
        FillAt(a, m + LONG, c, data, s);
        FillAt(a, m + 2 * LONG, c, data, s);
        FillAt(a, m + 3 * LONG, c, data, s);
        m, count := m + 4 * LONG, count - 4 * LONG;
      }
      while count >= LONG
        invariant 0 <= count <= n && m == s + (n - count) && IsFilled(data, s, c, m - s, a[..])
      {
        FillAt(a, m, c, data, s);
        m, count := m + LONG, count - LONG;
      }
    }
    FillUp(a, m, c, count, data, s);
    FilledIs(data, s, c, n, a[..]);
  }

  lemma FilledNone(data: seq<bv8>, s: int, c: bv8)
    requires 0 <= s <= |data|
    ensures IsFilled(data, s, c, 0, data)
  {
  }

  // The bytewise loop.
  method FillUp(a: array<bv8>, m0: int, c: bv8, count0: int, ghost data: seq<bv8>, ghost s: int)
    requires 0 <= s <= m0 && 0 <= count0 && m0 + count0 <= a.Length == |data| && IsFilled(data, s, c, m0 - s, a[..])
    modifies a
    ensures IsFilled(data, s, c, m0 - s + count0, a[..])
  {
    var m, count := m0, count0;
    while count > 0
      invariant 0 <= count <= count0 && m == m0 + (count0 - count) && IsFilled(data, s, c, m - s, a[..])
    {
      ghost var before := a[..];
      a[m] := c;
      FilledMore(data, s, c, m - s, 1, before, a[..]);
      m, count := m + 1, count - 1;
    }
  }

  // ----- copying upwards

  // A copy from `from` to `to` that goes upwards reads each byte before it overwrites it.
  predicate Upwards(to: int, from: int, n: int) {
    to <= from || from + n <= to
  }

  // The byte at i after the n bytes at `from` have been written to `to`.
  function Byte(data: seq<bv8>, to: int, from: int, n: int, i: int): bv8
    requires 0 <= i < |data| && 0 <= from && from + n <= |data|
  {
    if to <= i < to + n then data[i - to + from] else data[i]
  }

  ghost predicate IsCopy(data: seq<bv8>, to: int, from: int, n: int, after: seq<bv8>)
    requires 0 <= from && from + n <= |data|
  {
    |after| == |data| && forall i :: 0 <= i < |data| ==> after[i] == Byte(data, to, from, n, i)
  }

  lemma CopyIs(data: seq<bv8>, to: int, from: int, n: int, after: seq<bv8>)
    requires 0 <= n && 0 <= from && from + n <= |data| && 0 <= to && to + n <= |data|
    requires IsCopy(data, to, from, n, after)
    ensures after == Overwritten(data, to, from, n)
  {
    var d := Overwritten(data, to, from, n);
    assert |d| == |data|;
    forall i | 0 <= i < |data|
      ensures after[i] == d[i]
    {
      assert after[i] == Byte(data, to, from, n, i);
    }
  }

  // A copy of n bytes goes on for some more.
  lemma CopiedMore(data: seq<bv8>, to: int, from: int, n: int, more: int, before: seq<bv8>, after: seq<bv8>)
    requires 0 <= n && 0 <= more && 0 <= from && from + n + more <= |data| && 0 <= to && to + n + more <= |data|
    requires Upwards(to, from, n + more)
    requires IsCopy(data, to, from, n, before) && IsCopy(before, to + n, from + n, more, after)
    ensures IsCopy(data, to, from, n + more, after)
  {
    forall i | 0 <= i < |data|
      ensures after[i] == Byte(data, to, from, n + more, i)
    {
      assert after[i] == Byte(before, to + n, from + n, more, i);
      assert before[i] == Byte(data, to, from, n, i);
      if to + n <= i < to + n + more {
        var k := i - to + from;
        assert before[k] == Byte(data, to, from, n, k);
      }
    }
  }

  // *aligned_dst = *aligned_src
  method CopyWord(a: array<bv8>, to: int, from: int)
    requires 0 <= to && to + LONG <= a.Length && 0 <= from && from + LONG <= a.Length
    modifies a
    ensures IsCopy(old(a[..]), to, from, LONG, a[..])
  {
    WriteWord(a, to, a[from], a[from + 1], a[from + 2], a[from + 3]);
  }

  // The next word of a copy from src to dst that has come to d and s.
  method CopyAt(a: array<bv8>, d: int, s: int, ghost data: seq<bv8>, ghost dst: int, ghost src: int)
    requires 0 <= dst <= d && 0 <= src && s - src == d - dst && s + LONG <= a.Length && d + LONG <= a.Length == |data|
    requires Upwards(dst, src, d - dst + LONG) && IsCopy(data, dst, src, d - dst, a[..])
    modifies a
    ensures IsCopy(data, dst, src, d - dst + LONG, a[..])
  {
    hide IsCopy;
    ghost var before := a[..];
    CopyWord(a, d, s);
    CopiedMore(data, dst, src, d - dst, LONG, before, a[..]);
  }

  // rt_memcpy of blocks that do not overlap, or overlap with the destination below the source.
  method Memcpy(a: array<bv8>, dst: int, src: int, n: int)
    requires 0 <= n && 0 <= src && src + n <= a.Length && 0 <= dst && dst + n <= a.Length
    requires Upwards(dst, src, n)
    modifies a
    ensures a[..] == Overwritten(old(a[..]), dst, src, n)
  {
    var d, s, len := dst, src, n;
    ghost var data := a[..];
    Unmoved(data, dst, src);
    hide IsCopy;
    if len >= 4 * LONG && s % LONG == 0 && d % LONG == 0 {
      while len >= 4 * LONG
        invariant 0 <= len <= n && d == dst + (n - len) && s == src + (n - len)
        invariant IsCopy(data, dst, src, n - len, a[..])
      {
        CopyAt(a, d, s, data, dst, src);
        CopyAt(a, d + LONG, s + LONG, data, dst, src);
        CopyAt(a, d + 2 * LONG, s + 2 * LONG, data, dst, src);
        CopyAt(a, d + 3 * LONG, s + 3 * LONG, data, dst, src);
        d, s, len := d + 4 * LONG, s + 4 * LONG, len - 4 * LONG;
      }
      while len >= LONG
        invariant 0 <= len <= n && d == dst + (n - len) && s == src + (n - len)
        invariant IsCopy(data, dst, src, n - len, a[..])
      {
        CopyAt(a, d, s, data, dst, src);
        d, s, len := d + LONG, s + LONG, len - LONG;
      }
    }
    CopyUp(a, d, s, len, data, dst, src);
    CopyIs(data, dst, src, n, a[..]);
  }

  lemma Unmoved(data: seq<bv8>, to: int, from: int)
    requires 0 <= from <= |data|
    ensures IsCopy(data, to, from, 0, data)
  {
  }

  // The bytewise loop, upwards.
  method CopyUp(a: array<bv8>, d0: int, s0: int, count: int, ghost data: seq<bv8>, ghost dst: int, ghost src: int)
    requires 0 <= count && 0 <= dst <= d0 && 0 <= src && s0 - src == d0 - dst
    requires s0 + count <= a.Length && d0 + count <= a.Length == |data|
    requires Upwards(dst, src, d0 - dst + count) && IsCopy(data, dst, src, d0 - dst, a[..])
    modifies a
    ensures IsCopy(data, dst, src, d0 - dst + count, a[..])
  {
    hide IsCopy;
    var d, s, len := d0, s0, count;
    while len > 0
      invariant 0 <= len <= count && d == d0 + (count - len) && s == s0 + (count - len)
      invariant IsCopy(data, dst, src, d - dst, a[..])
    {
      ghost var before := a[..];
      a[d] := a[s];
      OneByte(before, d, s, a[..]);
      CopiedMore(data, dst, src, d - dst, 1, before, a[..]);
      d, s, len := d + 1, s + 1, len - 1;
    }
  }

  lemma OneByte(before: seq<bv8>, d: int, s: int, after: seq<bv8>)
    requires 0 <= d < |before| && 0 <= s < |before| && after == before[d := before[s]]
    ensures IsCopy(before, d, s, 1, after)
  {
  }

  // ----- copying either way

  // Of a copy downwards all but the first k bytes are done; the next one is.
  lemma CopiedDown(data: seq<bv8>, to: int, from: int, n: int, k: int, before: seq<bv8>, after: seq<bv8>)
    requires 0 < k <= n && 0 <= from < to && from + n <= |data| && to + n <= |data| == |before|
    requires IsCopy(data, to + k, from + k, n - k, before) && after == before[to + k - 1 := before[from + k - 1]]
    ensures IsCopy(data, to + (k - 1), from + (k - 1), n - (k - 1), after)
  {
    forall i | 0 <= i < |data|
      ensures after[i] == Byte(data, to + (k - 1), from + (k - 1), n - (k - 1), i)
    {
      assert before[i] == Byte(data, to + k, from + k, n - k, i);
      assert before[from + k - 1] == Byte(data, to + k, from + k, n - k, from + k - 1);
    }
  }

  // rt_memmove: the blocks may overlap in any way.
  method Memmove(a: array<bv8>, dest: int, src: int, n: int)
    requires 0 <= n && 0 <= src && src + n <= a.Length && 0 <= dest && dest + n <= a.Length
    modifies a
    ensures a[..] == Overwritten(old(a[..]), dest, src, n)
  {
    hide IsCopy;
    ghost var data := a[..];
    if src < dest && dest < src + n {
      var tmp, s, k := dest + n, src + n, n;
      Unmoved(data, dest + n, src + n);
      while k > 0
        invariant 0 <= k <= n && tmp == dest + k && s == src + k
        invariant IsCopy(data, dest + k, src + k, n - k, a[..])
      {
        ghost var before := a[..];
        CopiedDown(data, dest, src, n, k, before, before[dest + k - 1 := before[src + k - 1]]);
        tmp, s, k := tmp - 1, s - 1, k - 1;
        a[tmp] := a[s];
        assert a[..] == before[dest + k := before[src + k]];
      }
    } else {
      Unmoved(data, dest, src);
      CopyUp(a, dest, src, n, data, dest, src);
    }
    CopyIs(data, dest, src, n, a[..]);
  }
}
