// What the callers of a heap see of its memory: the payload bytes of the live blocks. `h` is the
// header size of a block.
module Payloads {
  import opened Blocks

  ghost predicate InPayload(h: int, b: Blk, k: int) {
    b.addr + h <= k < b.addr + h + b.size
  }

  // The payload bytes of the live blocks `keep` are the same before and after.
  ghost predicate Kept(h: int, keep: set<Blk>, before: seq<bv8>, after: seq<bv8>) {
    && |before| == |after|
    && forall b, k :: b in keep && 0 <= k < |before| && InPayload(h, b, k) ==> after[k] == before[k]
  }

  lemma KeptSame(h: int, keep: set<Blk>, data: seq<bv8>)
    ensures Kept(h, keep, data, data)
  {
  }

  // The n bytes at `from` are written over those at `to`.
  ghost function Overwritten(data: seq<bv8>, to: int, from: int, n: int): seq<bv8>
    requires 0 <= n && 0 <= from && from + n <= |data| && 0 <= to && to + n <= |data|
  {
    data[..to] + data[from..from + n] + data[to + n..]
  }

  // The n bytes at `from` reappear at `to`.
  ghost predicate Copied(before: seq<bv8>, from: int, after: seq<bv8>, to: int, n: int) {
    && 0 <= n && 0 <= from && from + n <= |before| && 0 <= to && to + n <= |after|
    && after[to..to + n] == before[from..from + n]
  }

  // The bytes of one block's payload are copied into another's.
  method Copy(data: seq<bv8>, to: int, from: int, n: int) returns (r: seq<bv8>)
    requires 0 <= n && 0 <= from && from + n <= |data| && 0 <= to && to + n <= |data|
    requires to + n <= from || from + n <= to
    ensures r == Overwritten(data, to, from, n)
  {
    r := data;
    var i := 0;
    while i < n
      invariant 0 <= i <= n
      invariant r == Overwritten(data, to, from, i)
    {
      OverwrittenStep(data, to, from, i);
      r := r[to + i := r[from + i]];
      i := i + 1;
    }
  }

  lemma OverwrittenStep(data: seq<bv8>, to: int, from: int, i: int)
    requires 0 <= i && 0 <= from && from + i < |data| && 0 <= to && to + i < |data|
    requires to + i < from || from + i < to
    ensures var d := Overwritten(data, to, from, i);
            Overwritten(data, to, from, i + 1) == d[to + i := d[from + i]]
  {
    var d := Overwritten(data, to, from, i);
    assert d[from + i] == data[from + i];
  }

  // The used flags in memory are those of the blocks.
  ghost predicate FlagsFor(used: map<int, bool>, bs: seq<Blk>) {
    forall b :: b in bs ==> b.addr in used && used[b.addr] == b.used
  }

  lemma FlagsReplace(used: map<int, bool>, used': map<int, bool>, bs: seq<Blk>, i: nat, k: nat, mid: seq<Blk>)
    requires i + k <= |bs| && FlagsFor(used, bs) && FlagsFor(used', mid)
    requires forall j :: 0 <= j < |bs| && !(i <= j < i + k) ==>
             bs[j].addr in used' && used'[bs[j].addr] == used[bs[j].addr]
    ensures FlagsFor(used', Replace(bs, i, k, mid))
  {
  }
}
