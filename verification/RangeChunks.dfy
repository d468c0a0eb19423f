/** Integer-range and offset/limit chunking (cli/src/chunking.rs). */
module RangeChunks {
  import opened Sequences
  import opened Outcomes
  import Decimal

  const MAX_UNITS := 10_000
  const I64_MIN := -0x8000_0000_0000_0000
  const I64_MAX := 0x7FFF_FFFF_FFFF_FFFF
  const U64_MAX := 0xFFFF_FFFF_FFFF_FFFF
  const I128_MAX := 0x7FFF_FFFF_FFFF_FFFF_FFFF_FFFF_FFFF_FFFF

  newtype i64 = x: int | I64_MIN <= x <= I64_MAX
  newtype u64 = x: int | 0 <= x <= U64_MAX

  /** `x as i64` on an i128: the low 64 bits. */
  function WrapI64(x: int): i64 {
    ((x - I64_MIN) % 0x1_0000_0000_0000_0000 + I64_MIN) as i64
  }

  datatype Bounds = Inclusive | HalfOpen

  datatype IntChunk = IntChunk(id: string, start: i64, end: i64, isLast: bool)

  datatype ChunkError = ZeroChunkSize | EmptyRange | TooManyChunks(count: int)

  /** Width of the range in values. */
  function Span(from: i64, to: i64, bounds: Bounds): int {
    to as int - from as int + if bounds.Inclusive? then 1 else 0
  }

  function ChunkEnd(next: int, to: int, bounds: Bounds): int {
    var e := if bounds.Inclusive? then next - 1 else next;
    if e < to then e else to
  }

  /** Chunk `i` in exact arithmetic. */
  ghost predicate IsChunk(c: IntChunk, i: nat, from: int, to: int, size: nat, bounds: Bounds) {
    && c.id == Decimal.Print(i)
    && c.start as int == from + i * size
    && c.end as int == ChunkEnd(from + i * size + size, to, bounds)
  }

  /** The values a chunk covers under `bounds`. */
  predicate Covers(c: IntChunk, v: int, bounds: Bounds) {
    c.start as int <= v && if bounds.Inclusive? then v <= c.end as int else v < c.end as int
  }

  predicate InRange(from: i64, to: i64, v: int, bounds: Bounds) {
    from as int <= v && if bounds.Inclusive? then v <= to as int else v < to as int
  }

  // ── Arithmetic ─────────────────────────────────────────────────────────────

  lemma MulOrder(a: nat, b: nat, d: nat)
    requires a < b
    ensures a * d + d <= b * d
  {
    assert b * d == (a + 1) * d + (b - a - 1) * d;
  }

  /** Chunk `i` starts inside the range. */
  lemma StartInside(i: nat, span: nat, size: nat)
    requires size > 0 && i < CeilDiv(span, size)
    ensures i * size < span
  {
    CeilDivBounds(span, size);
    MulOrder(i, CeilDiv(span, size), size);
    assert size * CeilDiv(span, size) == CeilDiv(span, size) * size;
  }

  /** Only the last chunk can reach the end of the range. */
  lemma BeforeLastInside(i: nat, span: nat, size: nat)
    requires size > 0 && i + 1 < CeilDiv(span, size)
    ensures i * size + size < span
  {
    StartInside(i + 1, span, size);
    assert (i + 1) * size == i * size + size;
  }

  lemma MulNext(i: nat, d: nat)
    ensures (i + 1) * d == i * d + d
  {
  }

  lemma WrapExact(x: int)
    requires I64_MIN <= x <= I64_MAX
    ensures WrapI64(x) as int == x
  {
  }

  /** Up to the extremes of i64, both casts of a chunk are exact and the cursor
      stays far inside i128. */
  lemma CastsExact(from: i64, to: i64, size: int, bounds: Bounds, i: nat)
    requires 0 < size <= U64_MAX && Span(from, to, bounds) > 0 && i < CeilDiv(Span(from, to, bounds), size)
    ensures WrapI64(from as int + i * size) as int == from as int + i * size
    ensures WrapI64(ChunkEnd(from as int + i * size + size, to as int, bounds)) as int
         == ChunkEnd(from as int + i * size + size, to as int, bounds)
    ensures -I128_MAX <= from as int + i * size + size <= I128_MAX
  {
    hide WrapI64;
    StartInside(i, Span(from, to, bounds), size);
    WrapExact(from as int + i * size);
    WrapExact(ChunkEnd(from as int + i * size + size, to as int, bounds));
  }

  // ── Planning ───────────────────────────────────────────────────────────────

  /** Split the range into contiguous chunks of at most `chunkSize` values. */
  method PlanIntChunks(from: i64, to: i64, chunkSize: u64, bounds: Bounds)
    returns (r: Result<seq<IntChunk>, ChunkError>)
    ensures r == Err(ZeroChunkSize) <==> chunkSize == 0
    ensures r == Err(EmptyRange) <==> chunkSize != 0 && (if bounds.Inclusive? then from > to else from >= to)
    ensures r.Ok? <==>
            && chunkSize != 0 && (if bounds.Inclusive? then from <= to else from < to)
            && to as int - from as int + (if bounds.Inclusive? then 1 else 0) <= 10_000 * chunkSize as int
    ensures r.Ok? ==> Planned(r.value, from, to, chunkSize as int, bounds)
  {
    if chunkSize == 0 { return Err(ZeroChunkSize); }
    var span := Span(from, to, bounds);
    if span <= 0 { return Err(EmptyRange); }
    var size := chunkSize as int;
    var count := CeilDiv(span, size);
    CeilDivAtMost(span, size, 10_000);
    if count > MAX_UNITS { return Err(TooManyChunks(count)); }
    hide CeilDiv, WrapI64, ChunkEnd;
    var out: seq<IntChunk> := [];
    var cursor := from as int;
    for i := 0 to count
      invariant |out| == i && cursor == from as int + i * size
      invariant forall k :: 0 <= k < i ==>
                  IsChunk(out[k], k, from as int, to as int, size, bounds) && (out[k].isLast <==> k == count - 1)
    {
      CastsExact(from, to, size, bounds, i);
      MulNext(i, size);
      var next := cursor + size;
      var isLast := i == count - 1;
      var rawEnd := ChunkEnd(next, to as int, bounds);
      out := out + [IntChunk(Decimal.Print(i), WrapI64(cursor), WrapI64(rawEnd), isLast)];
      cursor := next;
    }
    r := Ok(out);
  }

  /** The whole plan: every cast exact, ids by position, one last chunk. */
  ghost predicate Planned(chunks: seq<IntChunk>, from: i64, to: i64, size: int, bounds: Bounds) {
    && size > 0 && Span(from, to, bounds) > 0
    && |chunks| == CeilDiv(Span(from, to, bounds), size)
    && forall i :: 0 <= i < |chunks| ==>
         && IsChunk(chunks[i], i, from as int, to as int, size, bounds)
         && (chunks[i].isLast <==> i == |chunks| - 1)
  }

  /** Where chunk `i` of chunks of `size` values starts, counted from the range's start. */
  ghost function Off(i: nat, size: nat): nat {
    i * size
  }

  lemma OffGrows(i: nat, j: nat, size: nat)
    requires i <= j
    ensures Off(i, size) <= Off(j, size)
  {
    assert j * size == i * size + (j - i) * size;
  }

  /** What a planned chunk covers, without products. */
  lemma CoversIs(chunks: seq<IntChunk>, from: i64, to: i64, size: int, bounds: Bounds, v: int, j: nat)
    requires Planned(chunks, from, to, size, bounds) && j < |chunks|
    ensures Covers(chunks[j], v, bounds) <==>
            && InRange(from, to, v, bounds)
            && Off(j, size) <= v - from as int < Off(j + 1, size)
  {
    hide CeilDiv;
    assert IsChunk(chunks[j], j, from as int, to as int, size, bounds);
  }

  lemma OffsetChunkOf(off: nat, span: nat, size: nat) returns (i: nat)
    requires size > 0 && off < span
    ensures i < CeilDiv(span, size) && Off(i, size) <= off < Off(i + 1, size)
  {
    i := off / size;
    assert off == size * i + off % size && size * i == i * size;
    CeilDivBounds(span, size);
    if i >= CeilDiv(span, size) { MulAtLeast(CeilDiv(span, size), i, size); }
  }

  /** Every value of the range is in exactly one chunk, under either bounds. */
  lemma CoversOnce(chunks: seq<IntChunk>, from: i64, to: i64, size: int, bounds: Bounds, v: int) returns (i: nat)
    requires Planned(chunks, from, to, size, bounds) && InRange(from, to, v, bounds)
    ensures i < |chunks| && Covers(chunks[i], v, bounds)
    ensures forall j :: 0 <= j < |chunks| && Covers(chunks[j], v, bounds) ==> j == i
  {
    hide CeilDiv, Off, Covers, IsChunk;
    i := OffsetChunkOf(v - from as int, Span(from, to, bounds), size);
    CoversIs(chunks, from, to, size, bounds, v, i);
    forall j | 0 <= j < |chunks| && Covers(chunks[j], v, bounds) ensures j == i {
      CoversIs(chunks, from, to, size, bounds, v, j);
      if j < i { OffGrows(j + 1, i, size); }
      if i < j { OffGrows(i + 1, j, size); }
    }
  }

  lemma MulAtLeast(a: nat, b: nat, d: nat)
    requires a <= b
    ensures d * a <= b * d
  {
    assert b * d == a * d + (b - a) * d;
  }

  /** Nothing outside the range is covered. */
  lemma CoversOnlyRange(chunks: seq<IntChunk>, from: i64, to: i64, size: int, bounds: Bounds, v: int, j: nat)
    requires Planned(chunks, from, to, size, bounds) && j < |chunks| && Covers(chunks[j], v, bounds)
    ensures InRange(from, to, v, bounds)
  {
    hide CeilDiv, Off, IsChunk;
    CoversIs(chunks, from, to, size, bounds, v, j);
  }

  lemma CeilDivAtMost(n: nat, d: nat, most: nat)
    requires d > 0
    ensures CeilDiv(n, d) <= most <==> n <= most * d
  {
    CeilDivBounds(n, d);
    var c := CeilDiv(n, d);
    if c <= most { MulAtLeast(c, most, d); }
    if c > most { MulOrder(most, c, d); }
  }

  /** Every chunk covers a value, no more than the chunk size of them, and exactly the
      last is marked so: the one that ends at `to`. */
  lemma ChunkHolds(chunks: seq<IntChunk>, from: i64, to: i64, size: int, bounds: Bounds, j: nat)
    requires Planned(chunks, from, to, size, bounds) && j < |chunks|
    ensures Covers(chunks[j], chunks[j].start as int, bounds)
    ensures chunks[j].end as int - chunks[j].start as int + (if bounds.Inclusive? then 1 else 0) <= size
    ensures chunks[j].isLast <==> chunks[j].end == to
    ensures Decimal.AllDigits(chunks[j].id) && Decimal.Read(chunks[j].id) == j
  {
    hide CeilDiv;
    var span := Span(from, to, bounds);
    assert IsChunk(chunks[j], j, from as int, to as int, size, bounds);
    Decimal.ReadPrint(j);
    StartInside(j, span, size);
    if j + 1 < |chunks| {
      BeforeLastInside(j, span, size);
    } else {
      LastReaches(j, span, size);
    }
  }

  lemma LastReaches(j: nat, span: nat, size: nat)
    requires size > 0 && j + 1 == CeilDiv(span, size)
    ensures j * size + size >= span
  {
    CeilDivBounds(span, size);
    assert size * (j + 1) == j * size + size;
  }

  /** Growing `to` leaves id, start and end of every chunk but the old last one alone. */
  lemma GrowingRange(chunks: seq<IntChunk>, more: seq<IntChunk>, from: i64, to: i64, later: i64, size: int,
                     bounds: Bounds, i: nat)
    requires Planned(chunks, from, to, size, bounds) && Planned(more, from, later, size, bounds) && to <= later
    requires i + 1 < |chunks|
    ensures i < |more| && more[i].id == chunks[i].id && more[i].start == chunks[i].start
    ensures more[i].end == chunks[i].end
  {
    var span, wider := Span(from, to, bounds), Span(from, later, bounds);
    BeforeLastInside(i, span, size);
    MoreChunks(span, wider, size);
    assert IsChunk(chunks[i], i, from as int, to as int, size, bounds);
    assert IsChunk(more[i], i, from as int, later as int, size, bounds);
  }

  lemma MoreChunks(span: nat, wider: nat, size: nat)
    requires size > 0 && span <= wider
    ensures CeilDiv(span, size) <= CeilDiv(wider, size)
  {
    CeilDivBounds(span, size);
    CeilDivBounds(wider, size);
    if CeilDiv(wider, size) < CeilDiv(span, size) {
      MulOrder(CeilDiv(wider, size), CeilDiv(span, size), size);
    }
  }

  // ── Offset / limit ─────────────────────────────────────────────────────────

  datatype OffsetChunk = OffsetChunk(id: string, offset: u64, limit: u64)

  /** Split `total` rows into offset/limit chunks; no product overflows `u64`. */
  function PlanOffsetChunks(total: u64, chunkSize: u64): (r: Result<seq<OffsetChunk>, ChunkError>)
    ensures r.Ok? <==>
            chunkSize != 0 && CeilDiv(total as int, chunkSize as int) <= 10_000
  {
    if chunkSize == 0 then Err(ZeroChunkSize)
    else if total == 0 then Ok([])
    else
      var count := CeilDiv(total as int, chunkSize as int);
      if count > MAX_UNITS then Err(TooManyChunks(count))
      else Ok(seq(count, i requires 0 <= i < count => OffsetAt(total, chunkSize, i)))
  }

  function OffsetAt(total: u64, chunkSize: u64, i: nat): (c: OffsetChunk)
    requires chunkSize != 0 && i < CeilDiv(total as int, chunkSize as int)
    ensures c.offset as int == i * chunkSize as int && c.limit as int > 0
    ensures c.offset as int + c.limit as int
         == if i * chunkSize as int + chunkSize as int < total as int then i * chunkSize as int + chunkSize as int
            else total as int
  {
    StartInside(i, total as int, chunkSize as int);
    var offset := (i * chunkSize as int) as u64;
    var rest := total - offset;
    OffsetChunk(Decimal.Print(i), offset, if chunkSize < rest then chunkSize else rest)
  }

  /** A chunk's id is the decimal text of its position, so a growing total leaves the id
      and offset of every chunk alone, and the limit of all but the old last one. */
  lemma OffsetIdsStable(total: u64, more: u64, chunkSize: u64, i: nat)
    requires total <= more && PlanOffsetChunks(total, chunkSize).Ok? && PlanOffsetChunks(more, chunkSize).Ok?
    requires i < |PlanOffsetChunks(total, chunkSize).value|
    ensures i < |PlanOffsetChunks(more, chunkSize).value|
    ensures var c, d := PlanOffsetChunks(total, chunkSize).value[i], PlanOffsetChunks(more, chunkSize).value[i];
            && Decimal.AllDigits(c.id) && Decimal.Read(c.id) == i && d.id == c.id && d.offset == c.offset
            && (i + 1 < |PlanOffsetChunks(total, chunkSize).value| ==> d.limit == c.limit)
  {
    hide CeilDiv;
    MoreChunks(total as int, more as int, chunkSize as int);
    Decimal.ReadPrint(i);
    var c, d := OffsetAt(total, chunkSize, i), OffsetAt(more, chunkSize, i);
    if i + 1 < CeilDiv(total as int, chunkSize as int) { BeforeLastInside(i, total as int, chunkSize as int); }
  }

  ghost function Limits(chunks: seq<OffsetChunk>): int {
    if chunks == [] then 0 else Limits(chunks[..|chunks| - 1]) + chunks[|chunks| - 1].limit as int
  }

  lemma {:induction false} LimitsSoFar(total: u64, chunkSize: u64, chunks: seq<OffsetChunk>, k: nat)
    requires chunkSize != 0 && |chunks| == CeilDiv(total as int, chunkSize as int) && k <= |chunks|
    requires forall i :: 0 <= i < |chunks| ==> chunks[i] == OffsetAt(total, chunkSize, i)
    ensures Limits(chunks[..k])
         == if Off(k, chunkSize as int) < total as int then Off(k, chunkSize as int) else total as int
  {
    hide OffsetAt, CeilDiv, Off;
    if k > 0 {
      assert chunks[..k][..k - 1] == chunks[..k - 1];
      LimitsSoFar(total, chunkSize, chunks, k - 1);
      OffsetEnds(total, chunkSize, k - 1);
      assert chunks[..k][k - 1] == OffsetAt(total, chunkSize, k - 1);
    } else {
      OffZero(chunkSize as int);
    }
  }

  lemma OffZero(size: nat)
    ensures Off(0, size) == 0
  {
  }

  lemma OffsetEnds(total: u64, chunkSize: u64, i: nat)
    requires chunkSize != 0 && i < CeilDiv(total as int, chunkSize as int)
    ensures Off(i, chunkSize as int) < total as int
    ensures Off(i, chunkSize as int) + OffsetAt(total, chunkSize, i).limit as int
         == if Off(i + 1, chunkSize as int) < total as int then Off(i + 1, chunkSize as int) else total as int
  {
    hide OffsetAt, CeilDiv;
    StartInside(i, total as int, chunkSize as int);
    var c := OffsetAt(total, chunkSize, i);
  }

  /** The chunks are contiguous from offset 0 and their limits add up to the total. */
  lemma OffsetsCover(total: u64, chunkSize: u64)
    requires PlanOffsetChunks(total, chunkSize).Ok?
    ensures var chunks := PlanOffsetChunks(total, chunkSize).value;
            && Limits(chunks) == total as int
            && (forall i :: 0 < i < |chunks| ==>
                  chunks[i].offset as int == chunks[i - 1].offset as int + chunks[i - 1].limit as int)
            && (chunks != [] ==> chunks[0].offset == 0)
  {
    var chunks := PlanOffsetChunks(total, chunkSize).value;
    if total != 0 {
      CeilDivBounds(total as int, chunkSize as int);
      LimitsSoFar(total, chunkSize, chunks, |chunks|);
      assert chunks[..|chunks|] == chunks;
      assert Off(|chunks|, chunkSize as int) == chunkSize as int * |chunks|;
      forall i | 0 < i < |chunks|
        ensures chunks[i].offset as int == chunks[i - 1].offset as int + chunks[i - 1].limit as int
      {
        BeforeLastInside(i - 1, total as int, chunkSize as int);
        assert chunks[i] == OffsetAt(total, chunkSize, i) && chunks[i - 1] == OffsetAt(total, chunkSize, i - 1);
        assert i * chunkSize as int == (i - 1) * chunkSize as int + chunkSize as int;
      }
    }
  }
}
