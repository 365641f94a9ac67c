// The size classes of slab.c: which chunk size serves a request, and how a zone is laid out for it.
module SlabClasses {
  const NZONES: int := 72
  const ZONE_LIMIT: int := 16384     // ZALLOC_ZONE_LIMIT
  const ZONE_HEAD: int := 36         // sizeof(slab_zone): nine words
  const PAGE: int := 4096            // RT_MM_PAGE_SIZE

  datatype Class = Class(index: int, chunk: int)

  function RoundUp(n: int, g: int): int
    requires g > 0
  {
    (n + g - 1) / g * g
  }

  // zoneindex for the sizes it is made for
  function ZoneIndex(n: int): Class
    requires 0 < n < ZONE_LIMIT
  {
    if n < 128 then var c := RoundUp(n, 8); Class(c / 8 - 1, c)
    else if n < 256 then var c := RoundUp(n, 16); Class(c / 16 + 7, c)
    else if n < 512 then var c := RoundUp(n, 32); Class(c / 32 + 15, c)
    else if n < 1024 then var c := RoundUp(n, 64); Class(c / 64 + 23, c)
    else if n < 2048 then var c := RoundUp(n, 128); Class(c / 128 + 31, c)
    else if n < 4096 then var c := RoundUp(n, 256); Class(c / 256 + 39, c)
    else if n < 8192 then var c := RoundUp(n, 512); Class(c / 512 + 47, c)
    else var c := RoundUp(n, 1024); Class(c / 1024 + 55, c)
  }

  // The chunk size of each class.
  function ChunkOf(i: int): int {
    if i < 16 then 8 * (i + 1)
    else if i < 24 then 16 * (i - 7)
    else if i < 32 then 32 * (i - 15)
    else if i < 40 then 64 * (i - 23)
    else if i < 48 then 128 * (i - 31)
    else if i < 56 then 256 * (i - 39)
    else if i < 64 then 512 * (i - 47)
    else 1024 * (i - 55)
  }

  lemma DivBounds(a: int, c: int)
    requires c > 0
    ensures a / c * c <= a < a / c * c + c
  {
  }

  lemma Times(x: int, y: int, c: int)
    requires x <= y && c >= 0
    ensures x * c <= y * c
  {
  }

  lemma DivTimes(q: int, c: int)
    requires c > 0
    ensures (q * c) / c == q && (q * c) % c == 0
  {
    var d := (q * c) / c;
    DivBounds(q * c, c);
    if d < q { Times(d + 1, q, c); }
    if d > q { Times(q + 1, d, c); }
  }

  // Rounding up, as a quotient and a product.
  lemma RoundsUp(n: int, g: int) returns (q: int)
    requires n > 0 && g > 0
    ensures q == (n + g - 1) / g && RoundUp(n, g) == q * g && RoundUp(n, g) / g == q
    ensures n <= q * g < n + g
  {
    q := (n + g - 1) / g;
    DivBounds(n + g - 1, g);
    DivTimes(q, g);
  }

  // The granule of the sizes like n.
  function Granule(n: int): int {
    if n < 128 then 8 else if n < 256 then 16 else if n < 512 then 32 else if n < 1024 then 64
    else if n < 2048 then 128 else if n < 4096 then 256 else if n < 8192 then 512 else 1024
  }

  lemma ZoneIndexIs(n: int)
    requires 0 < n < ZONE_LIMIT
    ensures var g := Granule(n);
            ZoneIndex(n).chunk == RoundUp(n, g) && g > 0 && (n >= 128 ==> 8 * g <= n < 16 * g)
  {
  }

  // A request is served by the class of its chunk size, which covers it and wastes less than eight
  // bytes or less than an eighth of it.
  lemma ClassLaw(n: int)
    requires 0 < n < ZONE_LIMIT
    ensures var c := ZoneIndex(n);
            && 0 <= c.index < NZONES && c.chunk == ChunkOf(c.index)
            && n <= c.chunk <= ZONE_LIMIT && c.chunk % 8 == 0
            && (c.chunk < n + 8 || 8 * (c.chunk - n) < n)
  {
    hide RoundUp;
    ZoneIndexIs(n);
    var q := RoundsUp(n, Granule(n));
  }

  lemma ChunksGrow(i: int, j: int)
    requires 0 <= i < j < NZONES
    ensures 0 < ChunkOf(i) < ChunkOf(j)
  {
  }

  // Two sizes share a class exactly if they round to the same chunk size; larger sizes never get a
  // smaller one.
  lemma SameClass(n: int, m: int)
    requires 0 < n < ZONE_LIMIT && 0 < m < ZONE_LIMIT
    ensures ZoneIndex(n).index == ZoneIndex(m).index <==> ZoneIndex(n).chunk == ZoneIndex(m).chunk
    ensures n <= m ==> ZoneIndex(n).chunk <= ZoneIndex(m).chunk
  {
    ClassLaw(n);
    ClassLaw(m);
    var i, j := ZoneIndex(n).index, ZoneIndex(m).index;
    if i < j { ChunksGrow(i, j); } else if j < i { ChunksGrow(j, i); }
    if n <= m { Grows(n, m); }
  }

  lemma Grows(n: int, m: int)
    requires 0 < n <= m < ZONE_LIMIT
    ensures ZoneIndex(n).chunk <= ZoneIndex(m).chunk
  {
    hide RoundUp, ZoneIndex;
    ZoneIndexIs(n);
    ZoneIndexIs(m);
    var q := RoundsUp(n, Granule(n));
    var p := RoundsUp(m, Granule(m));
  }

  // ----- the layout of a zone

  predicate IsPower(n: int) {
    n == 1 || (n > 1 && n % 2 == 0 && IsPower(n / 2))
  }

  // The test of rt_malloc for a power of two says what it should, on all words but zero.
  lemma PowerTest(n: bv32)
    requires n != 0
    ensures (n | (n - 1)) + 1 == n << 1 <==> n & (n - 1) == 0
  {
  }

  // The offset of the first chunk: aligned to the chunk size if that is a power of two, else to 8.
  function Offset(chunk: int): int
    requires chunk > 0
  {
    if IsPower(chunk) then RoundUp(ZONE_HEAD, chunk) else RoundUp(ZONE_HEAD, 8)
  }

  function ChunkCount(zoneSize: int, chunk: int): int
    requires chunk > 0
  {
    (zoneSize - Offset(chunk)) / chunk
  }

  // The zone sizes that rt_system_heap_init chooses from, and the requests zones are used for.
  predicate ZoneSize(n: int) { n == 0x8000 || n == 0x1_0000 || n == 0x2_0000 }

  function Limit(zoneSize: int): int {
    if zoneSize / 4 > ZONE_LIMIT then ZONE_LIMIT else zoneSize / 4
  }

  // The zone size that rt_system_heap_init chooses for a heap of `limit` bytes: the first one that is
  // not below a thousandth of the heap when it is doubled.
  method ChooseZoneSize(limit: int) returns (size: int)
    requires limit >= 0
    ensures ZoneSize(size)
    ensures (size == 0x8000 || size < limit / 1024) && (size == 0x2_0000 || limit / 1024 <= 2 * size)
  {
    size := 0x8000;
    while size < 0x2_0000 && 2 * size < limit / 1024
      invariant ZoneSize(size) && (size == 0x8000 || size < limit / 1024)
    {
      size := 2 * size;
    }
  }

  lemma AtLeast(a: int, c: int, k: int)
    requires c > 0 && a >= k * c
    ensures a / c >= k
  {
    DivBounds(a, c);
    if a / c < k { Times(a / c + 1, k, c); }
  }

  // Every zone has room for at least three chunks, all behind its header and inside it.
  lemma CountLaw(zoneSize: int, n: int)
    requires ZoneSize(zoneSize) && 0 < n < Limit(zoneSize)
    ensures var c := ZoneIndex(n).chunk;
            && c > 0 && Offset(c) >= ZONE_HEAD && Offset(c) % 8 == 0
            && ChunkCount(zoneSize, c) >= 3 && Offset(c) + ChunkCount(zoneSize, c) * c <= zoneSize
  {
    ClassLaw(n);
    var c := ZoneIndex(n).chunk;
    WithinLimit(zoneSize, n);
    OffsetIs(c);
    AtLeast(zoneSize - Offset(c), c, 3);
    DivBounds(zoneSize - Offset(c), c);
  }

  lemma WithinLimit(zoneSize: int, n: int)
    requires ZoneSize(zoneSize) && 0 < n < Limit(zoneSize)
    ensures ZoneIndex(n).chunk <= Limit(zoneSize) && 4 * ZoneIndex(n).chunk <= zoneSize
  {
    hide RoundUp, ZoneIndex;
    ClassLaw(n);
    ZoneIndexIs(n);
    var q := RoundsUp(n, Granule(n));
  }

  // Where the first chunk lies.
  lemma OffsetIs(c: int)
    requires 0 < c <= ZONE_LIMIT && c % 8 == 0
    ensures ZONE_HEAD <= Offset(c) && (Offset(c) <= c || Offset(c) < 128) && Offset(c) % 8 == 0
    ensures IsPower(c) ==> Offset(c) % c == 0
  {
    hide RoundUp, IsPower;
    var q := RoundsUp(ZONE_HEAD, c);
    var p := RoundsUp(ZONE_HEAD, 8);
    FirstMultiple(q, c);
    DivTimes(q, c);
    EightTimes(q, c);
  }

  lemma FirstMultiple(q: int, c: int)
    requires c > 0 && q * c < ZONE_HEAD + c
    ensures q * c <= c || q * c < 128
  {
    if q > 1 { Times(2, q, c); } else { Times(q, 1, c); }
  }

  lemma EightTimes(q: int, c: int)
    requires c % 8 == 0
    ensures q * c % 8 == 0
  {
    var d := c / 8;
    assert q * c == (q * d) * 8;
    DivTimes(q * d, 8);
  }

  // ----- alignment

  // Chunk j of a zone that starts at address z.
  function ChunkAt(z: int, chunk: int, j: int): int
    requires chunk > 0
  {
    z + Offset(chunk) + j * chunk
  }

  // Chunks whose size is a power of two are aligned to their size exactly if their zone is. Zones are
  // only aligned to pages: the promise holds for chunks up to a page, and for larger ones by chance.
  lemma PowerAligned(z: int, chunk: int, j: int)
    requires 0 < chunk <= ZONE_LIMIT && chunk % 8 == 0 && IsPower(chunk)
    ensures ChunkAt(z, chunk, j) % chunk == 0 <==> z % chunk == 0
  {
    hide Offset, IsPower;
    OffsetIs(chunk);
    Shifted(z, Offset(chunk), j, chunk);
  }

  lemma Shifted(z: int, off: int, j: int, c: int)
    requires c > 0 && off % c == 0
    ensures (z + off + j * c) % c == z % c
  {
    var q := off / c;
    Exact(off, c);
    Distribute(q, j, c);
    AddMultiple(z, q + j, c);
  }

  lemma Exact(a: int, c: int)
    requires c > 0 && a % c == 0
    ensures a == a / c * c
  {
  }

  lemma Distribute(q: int, j: int, c: int)
    ensures q * c + j * c == (q + j) * c
  {
  }

  lemma AddMultiple(z: int, k: int, c: int)
    requires c > 0
    ensures (z + k * c) % c == z % c
  {
    var d := z / c;
    Distribute(d, k, c);
    SameRest(z + k * c, d + k, z % c, c);
  }

  lemma SameRest(a: int, d: int, r: int, c: int)
    requires c > 0 && a == d * c + r && 0 <= r < c
    ensures a % c == r
  {
    DivBounds(a, c);
    var e := a / c;
    if e < d { Times(e + 1, d, c); }
    if e > d { Times(d + 1, e, c); }
  }

  lemma PageAligned(z: int, chunk: int, j: int)
    requires z % PAGE == 0 && chunk in {8, 16, 32, 64, 128, 256, 512, 1024, 2048, 4096}
    ensures ChunkAt(z, chunk, j) % chunk == 0
  {
    assert IsPower(chunk) by { Powers(); }
    PowerAligned(z, chunk, j);
    var d := z / PAGE;
    assert z == (d * (PAGE / chunk)) * chunk;
    DivTimes(d * (PAGE / chunk), chunk);
  }

  lemma Powers()
    ensures IsPower(8) && IsPower(16) && IsPower(32) && IsPower(64) && IsPower(128) && IsPower(256) && IsPower(512)
    ensures IsPower(1024) && IsPower(2048) && IsPower(4096) && IsPower(8192)
  {
    assert IsPower(2) && IsPower(4);
    assert IsPower(8) && IsPower(16) && IsPower(32);
    assert IsPower(64) && IsPower(128) && IsPower(256);
    assert IsPower(512) && IsPower(1024) && IsPower(2048);
    assert IsPower(4096);
  }

  // The first zone of a heap that starts one page after an 8 KB boundary, and a request for 8000 bytes.
  lemma PowerNotAligned()
    ensures ZoneIndex(8000).chunk == 8192 && IsPower(8192) && ChunkAt(PAGE, 8192, 0) % 8192 != 0
  {
    Powers();
    PowerAligned(PAGE, 8192, 0);
  }
}
