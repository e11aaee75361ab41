/** The chunked bump arena of src/memory.c.

    A pool is a chain of chunks. Each chunk owns `size` bytes and two
    cursors: `pos` moves forward as the front is handed out (dalloc) and
    `end` moves backward as the back is handed out (nalloc), so the free
    space of a chunk is the gap between them. The head of the chain carries
    the flags and the default chunk size, and caches the chunk allocations
    are currently served from.

    Pointers into a pool are a chunk index and an offset. The C heap is
    assumed to satisfy every request of positive size; shared-memory pools
    are represented only by their flag.
 */
module MemPool {
  import opened Wrappers
  import opened MemAlign
  import opened ResultCodes

  /** Creation flags (INA_MEM_*, include/libinac-ce/mempool.h). */
  type Flags = bv32

  const FIXED: Flags := 0
  const DYNAMIC: Flags := 1
  const AUTOSIZE: Flags := 2
  const BESTFIT: Flags := 4
  const CHILD: Flags := 8
  const SHARED: Flags := 32
  const SHARED_CREATE: Flags := 64
  const SHARED_OWNER: Flags := 128
  const SHARED_EXCL: Flags := 256
  const NOZEROFILL: Flags := 512

  /** INA_MEM_MIN_POOL_SIZE. */
  const MIN_POOL_SIZE: Size := 1024

  predicate Has(cf: Flags, f: Flags) {
    cf & f != 0
  }

  type Byte = bv8

  /** A byte of a chunk; None while its content is indeterminate (a chunk
      created with NOZEROFILL and not written since). */
  type Cell = Option<Byte>

  datatype Chunk = Chunk(cf: Flags, size: Size, pos: Size, end: Size, mem: seq<Cell>)

  /** The chain, head first, and the index of the chunk `current` names. */
  datatype Pool = Pool(chunks: seq<Chunk>, current: nat)

  /** A pointer into a pool: byte `offset` of chunk number `chunk`. */
  datatype Ptr = Ptr(chunk: nat, offset: nat)

  /** What an allocating call returns: the updated pool and the block, or a
      null pointer together with the code the library records. */
  datatype Outcome = Granted(pool: Pool, at: Ptr) | Refused(rc: Code)

  predicate ChunkValid(c: Chunk) {
    c.pos <= c.end <= c.size && |c.mem| == c.size && Aligned(c.size)
  }

  predicate Valid(p: Pool) {
    0 < |p.chunks| && p.current < |p.chunks|
    && forall i | 0 <= i < |p.chunks| :: ChunkValid(p.chunks[i])
  }

  function Head(p: Pool): Chunk
    requires 0 < |p.chunks|
  {
    p.chunks[0]
  }

  predicate Shared(p: Pool)
    requires 0 < |p.chunks|
  {
    Has(Head(p).cf, SHARED)
  }

  /** `n` bytes at `at` lie in an allocated part of the pool: below the
      front cursor or above the back cursor of their chunk. */
  predicate Live(p: Pool, at: Ptr, n: nat) {
    at.chunk < |p.chunks|
    && var c := p.chunks[at.chunk];
    (at.offset + n <= c.pos || (c.end <= at.offset && at.offset + n <= c.size))
    && at.offset + n <= |c.mem|
  }

  /** The `n` bytes at `at`. */
  function Read(p: Pool, at: Ptr, n: nat): (r: seq<Cell>)
    requires Live(p, at, n)
    ensures |r| == n
  {
    p.chunks[at.chunk].mem[at.offset .. at.offset + n]
  }

  /** `mem` with `data` written at `at`. */
  function Overwrite(mem: seq<Cell>, at: nat, data: seq<Cell>): (r: seq<Cell>)
    requires at + |data| <= |mem|
    ensures |r| == |mem|
    ensures r[at .. at + |data|] == data
    ensures forall i | 0 <= i < |mem| && !(at <= i < at + |data|) :: r[i] == mem[i]
  {
    mem[..at] + data + mem[at + |data|..]
  }

  function Zeros(n: nat): (r: seq<Cell>)
    ensures |r| == n && forall i | 0 <= i < n :: r[i] == Some(0)
  {
    seq(n, _ => Some(0))
  }

  // ---------------------------------------------------------------------
  // The C heap and pool creation

  /** What ina_mem_alloc_aligned does before it reaches malloc. */
  datatype Malloc = Block | NullPtr(rc: Code)

  /** ina_mem_alloc_aligned's argument checks: a request of size 0 returns
      NULL after clearing the error flag of the last code, alignment 0 is an
      invalid argument, and anything else is passed to the C heap, which is
      assumed to succeed. */
  function AllocAligned(last: Code, alignment: Size, size: Size): (r: Malloc)
    ensures r.Block? <==> size > 0 && alignment > 0
    ensures size == 0 ==> r == NullPtr(ClearRc(last)) && Succeeded(r.rc)
    ensures size > 0 && alignment == 0 ==> r == NullPtr(Raise(ERR_INVALID_ARGUMENT))
  {
    if size == 0 then NullPtr(ClearRc(last))
    else if alignment == 0 then NullPtr(Raise(ERR_INVALID_ARGUMENT))
    else Block
  }

  /** The chunk size ina_mempool_new settles on: at least the minimum pool
      size, rounded up to the alignment. */
  function Capacity(size: Size): (cap: Size)
    ensures Aligned(cap)
    ensures size <= MAX_ALIGNED ==> size <= cap && MIN_POOL_SIZE <= cap
    ensures size > MAX_ALIGNED ==> cap == 0
  {
    Align(if size < MIN_POOL_SIZE then MIN_POOL_SIZE else size)
  }

  /** A newly allocated chunk: empty, with every byte zero unless the flags
      ask for no zero fill. */
  function FreshChunk(cf: Flags, cap: Size): Chunk {
    Chunk(cf, cap, 0, cap, seq(cap, _ => if Has(cf, NOZEROFILL) then None else Some(0)))
  }

  /** ina_mempool_new for a pool that is not shared. */
  function New(size: Size, cf: Flags): (r: Result<Pool, Code>)
    requires !Has(cf, SHARED)
    ensures size == 0 ==> r == Err(Raise(ERR_INVALID_ARGUMENT))
    ensures size > MAX_ALIGNED ==> r == Err(Raise(ERR_OUT_OF_MEMORY))
    ensures 0 < size <= MAX_ALIGNED ==>
      r.Ok? && Valid(r.value) && |r.value.chunks| == 1 && r.value.current == 0
      && var h := Head(r.value);
      h.cf == cf && h.pos == 0 && h.end == h.size
      && size <= h.size < size + ALIGN_SIZE + MIN_POOL_SIZE && MIN_POOL_SIZE <= h.size
      && forall i | 0 <= i < h.size :: h.mem[i] == (if Has(cf, NOZEROFILL) then None else Some(0))
  {
    if size == 0 then Err(Raise(ERR_INVALID_ARGUMENT))
    else
      var cap := Capacity(size);
      match AllocAligned(SUCCESS, POINTER_SIZE, cap)
      case NullPtr(_) => Err(Raise(ERR_OUT_OF_MEMORY))
      case Block => Ok(Pool([FreshChunk(cf, cap)], 0))
  }

  // ---------------------------------------------------------------------
  // Sizing rules shared by the allocators

  /** The size an allocator works with: rounded up to the alignment unless
      the flags are exactly BESTFIT (the source tests `cf ^ BESTFIT`). */
  function RequestSize(cf: Flags, size: Size): Size {
    if cf ^ BESTFIT != 0 then Align(size) else size
  }

  /** Alignment is skipped for the flag word BESTFIT alone, and for nothing
      else; in particular every dynamic pool aligns. */
  lemma RequestSizeRule(cf: Flags, size: Size)
    ensures cf != BESTFIT ==> RequestSize(cf, size) == Align(size)
    ensures cf == BESTFIT ==> RequestSize(cf, size) == size
    ensures Has(cf, DYNAMIC) ==> Aligned(RequestSize(cf, size))
  {
  }

  /** The room test `pos + size > end || pos + size < pos`, negated, on
      size_t. */
  predicate Fits(c: Chunk, n: Size) {
    !(Add(c.pos, n) > c.end || Add(c.pos, n) < c.pos)
  }

  /** The wrap-around half of the room test makes it exact. */
  lemma FitsExact(c: Chunk, n: Size)
    requires ChunkValid(c)
    ensures Fits(c, n) <==> c.pos + n <= c.end
  {
  }

  /** The growth policy: a new chunk is sized to the request when the pool is
      AUTOSIZE or the request exceeds the head's size, and to the head's size
      otherwise. */
  function GrowthSize(cf: Flags, headSize: Size, need: Size): (n: Size)
    ensures need <= n
    ensures Has(cf, AUTOSIZE) ==> n == need
    ensures !Has(cf, AUTOSIZE) ==> n == if need > headSize then need else headSize
  {
    if Has(cf, AUTOSIZE) || need > headSize then need else headSize
  }

  /** The chunk a growing pool appends for a request of `need` bytes. */
  function ChildChunk(p: Pool, need: Size): Chunk
    requires 0 < |p.chunks|
  {
    var cf := Head(p).cf;
    FreshChunk(cf | CHILD, Capacity(GrowthSize(cf, Head(p).size, need)))
  }

  /** The appended chunk is what ina_mempool_new makes with the child flag,
      and it has room for the request that caused it. */
  lemma ChildChunkIsNew(p: Pool, need: Size)
    requires Valid(p) && !Shared(p)
    requires 0 < need && Aligned(need)
    ensures var c := ChildChunk(p, need);
      New(GrowthSize(Head(p).cf, Head(p).size, need), Head(p).cf | CHILD) == Ok(Pool([c], 0))
      && ChunkValid(c) && c.pos == 0 && c.end == c.size && need <= c.size
  {
    var cf := Head(p).cf;
    var nsize := GrowthSize(cf, Head(p).size, need);
    AlignedBelowMax(need);
    AlignedBelowMax(Head(p).size);
    assert 0 < nsize <= MAX_ALIGNED;
    assert !Has(cf | CHILD, SHARED);
  }

  function WithChunk(p: Pool, i: nat, c: Chunk): (q: Pool)
    requires i < |p.chunks|
    ensures Valid(p) && ChunkValid(c) ==> Valid(q)
  {
    p.(chunks := p.chunks[i := c])
  }

  // ---------------------------------------------------------------------
  // dalloc: allocation from the front

  /** What a successful front allocation of `n` bytes did to the pool: the
      block starts at the old front cursor of the chunk it now calls current,
      which is the first chunk from the old current one on that had room, or
      a chunk appended to the chain; no other chunk changed. */
  predicate FrontGrant(p: Pool, q: Pool, at: Ptr, n: Size)
    requires Valid(p)
  {
    Valid(q) && q.current == at.chunk && p.current <= at.chunk < |q.chunks|
    && |p.chunks| <= |q.chunks| <= |p.chunks| + 1
    && (forall i | 0 <= i < |p.chunks| && i != at.chunk :: q.chunks[i] == p.chunks[i])
    && (forall j | p.current <= j < at.chunk && j < |p.chunks| :: !Fits(p.chunks[j], n))
    && q.chunks[at.chunk].pos == at.offset + n
    && (at.chunk < |p.chunks| ==>
          p.chunks[at.chunk].pos == at.offset && |q.chunks| == |p.chunks|
          && q.chunks[at.chunk] == p.chunks[at.chunk].(pos := at.offset + n))
    && (at.chunk == |p.chunks| ==>
          at.offset == 0 && q.chunks[at.chunk] == ChildChunk(p, n).(pos := n))
  }

  /** Serving from the current chunk when it has room. */
  lemma GrantHere(p: Pool, need: Size)
    requires Valid(p) && Fits(p.chunks[p.current], need)
    ensures var c := p.chunks[p.current];
      c.pos + need <= c.end
      && FrontGrant(p, WithChunk(p, p.current, c.(pos := c.pos + need)), Ptr(p.current, c.pos), need)
  {
    FitsExact(p.chunks[p.current], need);
  }

  /** Serving from a chunk appended after the last one. */
  lemma GrantGrown(p: Pool, need: Size)
    requires Valid(p) && !Shared(p) && 0 < need && Aligned(need)
    requires p.current + 1 == |p.chunks| && !Fits(p.chunks[p.current], need)
    ensures FrontGrant(p, Pool(p.chunks + [ChildChunk(p, need).(pos := need)], p.current + 1),
                       Ptr(p.current + 1, 0), need)
  {
    ChildChunkIsNew(p, need);
    var q := Pool(p.chunks + [ChildChunk(p, need).(pos := need)], p.current + 1);
    assert forall i | 0 <= i < |p.chunks| :: q.chunks[i] == p.chunks[i];
  }

  /** Moving past a chunk without room keeps a grant made further on a grant
      for the whole retry loop. */
  lemma GrantFurther(p: Pool, q: Pool, at: Ptr, need: Size)
    requires Valid(p) && p.current + 1 < |p.chunks| && !Fits(p.chunks[p.current], need)
    requires FrontGrant(p.(current := p.current + 1), q, at, need)
    ensures FrontGrant(p, q, at, need)
  {
  }

  /** The retry loop of ina_mempool_dalloc, from the current chunk on. */
  function DallocFrom(p: Pool, need: Size): (r: Outcome)
    requires Valid(p) && !Shared(p)
    requires Has(Head(p).cf, DYNAMIC) ==> Aligned(need)
    ensures r.Granted? ==> FrontGrant(p, r.pool, r.at, need)
    ensures r.Refused? <==> !Has(Head(p).cf, DYNAMIC) && !Fits(p.chunks[p.current], need)
    ensures r.Refused? ==> r.rc == Raise(ERR_POOL_FULL)
    decreases |p.chunks| - p.current
  {
    var c := p.chunks[p.current];
    if Fits(c, need) then
      GrantHere(p, need);
      Granted(WithChunk(p, p.current, c.(pos := c.pos + need)), Ptr(p.current, c.pos))
    else if !Has(Head(p).cf, DYNAMIC) then
      Refused(Raise(ERR_POOL_FULL))
    else if p.current + 1 < |p.chunks| then
      var r := DallocFrom(p.(current := p.current + 1), need);
      if r.Granted? then GrantFurther(p, r.pool, r.at, need); r else r
    else
      GrantGrown(p, need);
      Granted(Pool(p.chunks + [ChildChunk(p, need).(pos := need)], p.current + 1), Ptr(p.current + 1, 0))
  }

  /** ina_mempool_dalloc. */
  function Dalloc(p: Pool, size: Size): (r: Outcome)
    requires Valid(p) && !Shared(p)
    ensures r.Granted? ==> FrontGrant(p, r.pool, r.at, RequestSize(Head(p).cf, size))
    ensures r.Refused? <==>
      !Has(Head(p).cf, DYNAMIC) && !Fits(p.chunks[p.current], RequestSize(Head(p).cf, size))
    ensures r.Refused? ==> r.rc == Raise(ERR_POOL_FULL)
  {
    RequestSizeRule(Head(p).cf, size);
    DallocFrom(p, RequestSize(Head(p).cf, size))
  }

  // ---------------------------------------------------------------------
  // nalloc: allocation from the back

  /** What a successful back allocation of `n` bytes did: the block ends at
      the old back cursor of the current chunk, or at the end of a chunk that
      replaced everything after the current one; nothing else changed. */
  predicate BackGrant(p: Pool, q: Pool, at: Ptr, n: Size)
    requires Valid(p)
  {
    Valid(q) && q.current == at.chunk && at.chunk < |q.chunks|
    && q.chunks[at.chunk].end == at.offset
    && ((at.chunk == p.current
         && q == WithChunk(p, p.current, p.chunks[p.current].(end := at.offset))
         && p.chunks[p.current].end == at.offset + n)
     || (at.chunk == p.current + 1
         && q.chunks == p.chunks[..p.current + 1] + [ChildChunk(p, n).(end := at.offset)]
         && ChildChunk(p, n).size == at.offset + n))
  }

  /** Serving from the back of the current chunk. */
  lemma BackHere(p: Pool, n: Size)
    requires Valid(p) && Fits(p.chunks[p.current], n)
    ensures var c := p.chunks[p.current];
      n <= c.end
      && BackGrant(p, WithChunk(p, p.current, c.(end := c.end - n)), Ptr(p.current, c.end - n), n)
  {
    FitsExact(p.chunks[p.current], n);
  }

  /** Serving from the back of a chunk that replaces the current one's
      successors. */
  lemma BackGrown(p: Pool, n: Size)
    requires Valid(p) && !Shared(p) && 0 < n && Aligned(n)
    ensures var child := ChildChunk(p, n);
      n <= child.size
      && BackGrant(p, Pool(p.chunks[..p.current + 1] + [child.(end := child.size - n)], p.current + 1),
                   Ptr(p.current + 1, child.size - n), n)
  {
    ChildChunkIsNew(p, n);
  }

  /** ina_mempool_nalloc after the request is rounded to `n` bytes. A dynamic
      pool that runs out of room in its current chunk makes a new chunk the
      current one's successor, dropping whatever followed it. */
  function NallocSized(p: Pool, n: Size): (r: Outcome)
    requires Valid(p) && !Shared(p)
    requires Has(Head(p).cf, DYNAMIC) ==> Aligned(n)
    ensures Head(p).end < n ==> r == Refused(Raise(ES_SIZE | ERR_INVALID))
    ensures Head(p).end >= n ==>
      (r.Granted? <==> Fits(p.chunks[p.current], n) || Has(Head(p).cf, DYNAMIC))
    ensures r.Granted? ==> BackGrant(p, r.pool, r.at, n)
    ensures r.Granted? && r.at.chunk == p.current ==> Fits(p.chunks[p.current], n)
    ensures Head(p).end >= n && r.Refused? ==> r.rc == Raise(ERR_POOL_FULL)
  {
    if Head(p).end < n then Refused(Raise(ES_SIZE | ERR_INVALID))
    else
      var c := p.chunks[p.current];
      if Fits(c, n) then
        BackHere(p, n);
        Granted(WithChunk(p, p.current, c.(end := c.end - n)), Ptr(p.current, c.end - n))
      else if !Has(Head(p).cf, DYNAMIC) then Refused(Raise(ERR_POOL_FULL))
      else
        BackGrown(p, n);
        var child := ChildChunk(p, n);
        Granted(Pool(p.chunks[..p.current + 1] + [child.(end := child.size - n)], p.current + 1),
                Ptr(p.current + 1, child.size - n))
  }

  /** ina_mempool_nalloc. */
  function Nalloc(p: Pool, size: Size): (r: Outcome)
    requires Valid(p) && !Shared(p)
    ensures r.Granted? ==> BackGrant(p, r.pool, r.at, RequestSize(Head(p).cf, size))
    ensures r.Refused? <==>
      Head(p).end < RequestSize(Head(p).cf, size)
      || (!Has(Head(p).cf, DYNAMIC) && !Fits(p.chunks[p.current], RequestSize(Head(p).cf, size)))
  {
    RequestSizeRule(Head(p).cf, size);
    NallocSized(p, RequestSize(Head(p).cf, size))
  }

  // ---------------------------------------------------------------------
  // ralloc: resizing a block of the head chunk

  /** The branch ina_mempool_ralloc takes. */
  datatype Route =
    | TooLarge       // the head's back cursor is below the old size
    | InPlace        // the block is the head's last front block and the new size fits
    | InPlaceNoRoom  // the block is the last front block, the new size does not fit
    | KeepOld        // any other block that does not grow
    | Move           // a growing block that fits at the head's front cursor
    | NoRoom         // a growing block that does not

  /** The in-place room test as written: `pos + new_size - old_size <= end`
      evaluated on size_t. */
  predicate InPlaceFitsAsWritten(h: Chunk, oldN: Size, newN: Size) {
    Sub(Add(h.pos, newN), oldN) <= h.end
  }

  /** The in-place room test on exact integers. */
  predicate InPlaceFits(h: Chunk, oldN: Size, newN: Size) {
    h.pos - oldN + newN <= h.end
  }

  function ChooseRoute(h: Chunk, blk: Ptr, oldN: Size, newN: Size, inPlaceFits: bool): Route {
    if h.end < oldN then TooLarge
    else if h.pos >= oldN && blk == Ptr(0, h.pos - oldN) then
      (if inPlaceFits then InPlace else InPlaceNoRoom)
    else if newN <= oldN then KeepOld
    else if Add(h.pos, newN) >= h.pos && Add(h.pos, newN) <= h.end then Move
    else NoRoom
  }

  /** The branch taken, in terms of the tests the source makes. */
  lemma RouteCases(h: Chunk, blk: Ptr, oldN: Size, newN: Size, fits: bool)
    requires ChunkValid(h)
    ensures var route := ChooseRoute(h, blk, oldN, newN, fits);
      var last := h.pos >= oldN && blk == Ptr(0, h.pos - oldN);
      && (route == TooLarge <==> h.end < oldN)
      && (h.end >= oldN && last ==> route == (if fits then InPlace else InPlaceNoRoom))
      && (h.end >= oldN && !last && newN <= oldN ==> route == KeepOld)
      && (h.end >= oldN && !last && oldN < newN ==>
            route == (if h.pos + newN <= h.end then Move else NoRoom))
  {
  }

  /** The branches that hand the work to a new chunk, which this model does
      not cover. */
  predicate Spills(p: Pool, route: Route)
    requires 0 < |p.chunks|
  {
    Has(Head(p).cf, DYNAMIC) && (route == InPlaceNoRoom || route == NoRoom)
  }

  /** The head chunk once its last front block of `oldN` bytes is resized in
      place to `newN`: `pos += new_size - old_size` on size_t, and the bytes
      given up are zeroed. */
  function ResizeInPlace(h: Chunk, oldN: Size, newN: Size): (c: Chunk)
    requires ChunkValid(h) && oldN <= h.pos
    requires Sub(Add(h.pos, newN), oldN) <= h.end
    ensures ChunkValid(c) && c.size == h.size && c.end == h.end
    ensures c.pos == Sub(Add(h.pos, newN), oldN)
    ensures newN < oldN ==> c.pos == h.pos - oldN + newN
    ensures newN < oldN ==> c.pos + (oldN - newN) <= |c.mem|
                            && c.mem[c.pos .. c.pos + (oldN - newN)] == Zeros(oldN - newN)
    ensures SameOutside(h.mem, c.mem, h.pos - oldN, oldN)
  {
    WrapAbsorbs(h.pos + newN, -(oldN as int));
    WrapAbsorbs(newN - oldN, h.pos);
    var pos := Add(h.pos, Sub(newN, oldN));
    var mem := if newN < oldN then Overwrite(h.mem, pos, Zeros(oldN - newN)) else h.mem;
    h.(pos := pos, mem := mem)
  }

  /** Resizing in place keeps the block's bytes up to the smaller size. */
  lemma ResizeInPlaceKeeps(h: Chunk, oldN: Size, newN: Size)
    requires ChunkValid(h) && oldN <= h.pos && InPlaceFits(h, oldN, newN)
    ensures Sub(Add(h.pos, newN), oldN) <= h.end
    ensures var c := ResizeInPlace(h, oldN, newN);
      var keep := if newN < oldN then newN else oldN;
      c.pos == h.pos - oldN + newN
      && c.mem[h.pos - oldN .. h.pos - oldN + keep] == h.mem[h.pos - oldN .. h.pos - oldN + keep]
  {
    ExactTestPassesWritten(h, oldN, newN);
  }

  /** `b` differs from `a` at most in the `n` bytes from `lo`. */
  predicate SameOutside(a: seq<Cell>, b: seq<Cell>, lo: nat, n: nat) {
    |b| == |a| && forall i | 0 <= i < |a| && !(lo <= i < lo + n) :: b[i] == a[i]
  }

  /** What a resize may touch: the head chunk's front cursor and the bytes
      of the head from `at` for `n` bytes. Every other chunk, the head's
      size and back cursor, and the current chunk are kept. */
  predicate HeadOnly(p: Pool, q: Pool, at: Ptr, n: nat)
    requires 0 < |p.chunks|
  {
    |q.chunks| == |p.chunks| && q.current == p.current && q.chunks[1..] == p.chunks[1..]
    && Head(q).cf == Head(p).cf && Head(q).size == Head(p).size && Head(q).end == Head(p).end
    && SameOutside(Head(p).mem, Head(q).mem, at.offset, n)
  }

  /** The pool once the head's last front block is resized in place. */
  function InPlaceHead(p: Pool, oldN: Size, newN: Size): (q: Pool)
    requires Valid(p) && oldN <= Head(p).pos
    requires Sub(Add(Head(p).pos, newN), oldN) <= Head(p).end
    ensures Valid(q) && Head(q) == ResizeInPlace(Head(p), oldN, newN)
    ensures HeadOnly(p, q, Ptr(0, Head(p).pos - oldN), if newN < oldN then oldN else newN)
  {
    WithChunk(p, 0, ResizeInPlace(Head(p), oldN, newN))
  }

  /** The pool once a block is copied to the head's front cursor, which
      moves past the new size. */
  function MovedHead(p: Pool, blk: Ptr, oldN: Size, newN: Size): (q: Pool)
    requires Valid(p) && Live(p, blk, oldN)
    requires oldN < newN && Head(p).pos + newN <= Head(p).end
    ensures Valid(q) && Head(q).pos == Head(p).pos + newN
    ensures Head(q).mem[Head(p).pos .. Head(p).pos + oldN] == Read(p, blk, oldN)
    ensures HeadOnly(p, q, Ptr(0, Head(p).pos), newN)
  {
    var h := Head(p);
    WithChunk(p, 0, h.(pos := h.pos + newN, mem := Overwrite(h.mem, h.pos, Read(p, blk, oldN))))
  }

  /** Carry out a route. A growing block that moves is copied to the head's
      front cursor; a block shrunk in place has its vacated tail zeroed.
      Refusals leave the pool alone, and a grant touches only the head's
      front cursor and the bytes the old or the new block covers. */
  function TakeRoute(p: Pool, blk: Ptr, oldN: Size, newN: Size, route: Route): (r: Outcome)
    requires Valid(p) && Live(p, blk, oldN)
    requires route == ChooseRoute(Head(p), blk, oldN, newN, route == InPlace)
    requires route == InPlace ==> Sub(Add(Head(p).pos, newN), oldN) <= Head(p).end
    requires !Spills(p, route)
    ensures r.Granted? ==> Valid(r.pool)
    ensures route == TooLarge ==> r == Refused(Raise(ES_SIZE | ERR_INVALID))
    ensures route == InPlaceNoRoom ==> r == Refused(Raise(ERR_OUT_OF_MEMORY))
    ensures route == NoRoom ==> r == Refused(Raise(ERR_POOL_FULL))
    ensures route == KeepOld ==> r == Granted(p, blk)
    ensures route == InPlace ==>
      r.Granted? && r.at == blk && Head(r.pool) == ResizeInPlace(Head(p), oldN, newN)
    ensures route == Move ==>
      r.Granted? && r.at == Ptr(0, Head(p).pos) && Head(r.pool).pos == Head(p).pos + newN
    ensures r.Granted? ==> HeadOnly(p, r.pool, r.at, if newN < oldN then oldN else newN)
  {
    var h := Head(p);
    match route
    case TooLarge => Refused(Raise(ES_SIZE | ERR_INVALID))
    case InPlaceNoRoom => Refused(Raise(ERR_OUT_OF_MEMORY))
    case NoRoom => Refused(Raise(ERR_POOL_FULL))
    case KeepOld => Granted(p, blk)
    case InPlace => Granted(InPlaceHead(p, oldN, newN), blk)
    case Move => Granted(MovedHead(p, blk, oldN, newN), Ptr(0, h.pos))
  }

  /** ina_mempool_ralloc as written: the head's last front block is resized
      in place whenever the room test passes on size_t, and its front cursor
      moves by `new_size - old_size` modulo 2^64. */
  function RallocAsWritten(p: Pool, blk: Ptr, oldSize: Size, newSize: Size): (r: Outcome)
    requires Valid(p) && !Shared(p) && 0 < oldSize && 0 < newSize
    requires Live(p, blk, RequestSize(Head(p).cf, oldSize))
    requires var oldN := RequestSize(Head(p).cf, oldSize);
      var newN := RequestSize(Head(p).cf, newSize);
      !Spills(p, ChooseRoute(Head(p), blk, oldN, newN, InPlaceFitsAsWritten(Head(p), oldN, newN)))
    ensures var oldN := RequestSize(Head(p).cf, oldSize);
      Head(p).end < oldN ==> r == Refused(Raise(ES_SIZE | ERR_INVALID))
    ensures var oldN := RequestSize(Head(p).cf, oldSize);
      var newN := RequestSize(Head(p).cf, newSize);
      r.Granted? ==> Valid(r.pool) && HeadOnly(p, r.pool, r.at, if newN < oldN then oldN else newN)
    ensures var oldN := RequestSize(Head(p).cf, oldSize);
      var newN := RequestSize(Head(p).cf, newSize);
      var h := Head(p);
      h.end >= oldN && h.pos >= oldN && blk == Ptr(0, h.pos - oldN) && InPlaceFitsAsWritten(h, oldN, newN) ==>
        r.Granted? && r.at == blk && Head(r.pool).pos == Sub(Add(h.pos, newN), oldN)
  {
    var oldN := RequestSize(Head(p).cf, oldSize);
    var newN := RequestSize(Head(p).cf, newSize);
    RouteCases(Head(p), blk, oldN, newN, InPlaceFitsAsWritten(Head(p), oldN, newN));
    TakeRoute(p, blk, oldN, newN,
      ChooseRoute(Head(p), blk, oldN, newN, InPlaceFitsAsWritten(Head(p), oldN, newN)))
  }

  /** A resized block: `newN` allocated bytes at `at` that begin with as much
      of the old block's content as fits in both sizes. */
  predicate Resized(p: Pool, blk: Ptr, oldN: Size, newN: Size, q: Pool, at: Ptr)
    requires Valid(p) && Live(p, blk, oldN)
  {
    Valid(q) && q.current == p.current && |q.chunks| == |p.chunks|
    && Live(q, at, newN)
    && var keep := if newN < oldN then newN else oldN;
    Read(q, at, keep) == Read(p, blk, keep)
  }

  /** Where the exact room test passes, the test as written passes too. */
  lemma ExactTestPassesWritten(h: Chunk, oldN: Size, newN: Size)
    requires ChunkValid(h) && oldN <= h.pos && InPlaceFits(h, oldN, newN)
    ensures Sub(Add(h.pos, newN), oldN) == h.pos - oldN + newN
    ensures InPlaceFitsAsWritten(h, oldN, newN)
  {
    WrapAbsorbs(h.pos + newN, -(oldN as int));
  }

  /** Growing or shrinking the head's last front block in place. */
  lemma InPlaceResizes(p: Pool, blk: Ptr, oldN: Size, newN: Size)
    requires Valid(p) && Live(p, blk, oldN)
    requires ChooseRoute(Head(p), blk, oldN, newN, true) == InPlace
    requires Sub(Add(Head(p).pos, newN), oldN) <= Head(p).end
    requires InPlaceFits(Head(p), oldN, newN)
    ensures var r := TakeRoute(p, blk, oldN, newN, InPlace);
      r.Granted? && Resized(p, blk, oldN, newN, r.pool, r.at)
  {
    ResizeInPlaceKeeps(Head(p), oldN, newN);
  }

  /** Moving a growing block to the head's front cursor. */
  lemma MoveResizes(p: Pool, blk: Ptr, oldN: Size, newN: Size)
    requires Valid(p) && Live(p, blk, oldN)
    requires ChooseRoute(Head(p), blk, oldN, newN, false) == Move
    ensures var r := TakeRoute(p, blk, oldN, newN, Move);
      r.Granted? && Resized(p, blk, oldN, newN, r.pool, r.at)
  {
    var h := Head(p);
    var r := TakeRoute(p, blk, oldN, newN, Move);
    assert r.pool.chunks[0].mem[h.pos .. h.pos + oldN] == Read(p, blk, oldN);
  }

  /** With the exact room test every route that grants a block grants a
      resized block. */
  lemma TakeRouteResizes(p: Pool, blk: Ptr, oldN: Size, newN: Size, route: Route)
    requires Valid(p) && Live(p, blk, oldN)
    requires route == ChooseRoute(Head(p), blk, oldN, newN, route == InPlace)
    requires route == InPlace ==> Sub(Add(Head(p).pos, newN), oldN) <= Head(p).end
    requires route == InPlace ==> InPlaceFits(Head(p), oldN, newN)
    requires !Spills(p, route)
    ensures var r := TakeRoute(p, blk, oldN, newN, route);
      r.Granted? ==> Resized(p, blk, oldN, newN, r.pool, r.at)
  {
    match route
    case InPlace => InPlaceResizes(p, blk, oldN, newN);
    case Move => MoveResizes(p, blk, oldN, newN);
    case _ =>
  }

  /** What each branch of ralloc yields, for rounded sizes `oldN` and
      `newN`. An `end` below the old size is a bogus request. The head's
      last front block is resized in place when the new size fits: same
      address, `pos` moved by `newN - oldN`, the vacated bytes zeroed; when
      it does not fit the pool is out of memory. Any other block is kept
      when it does not grow; a growing one moves to the head's `pos` when
      it fits there, and the pool is full otherwise. */
  predicate RallocBranches(p: Pool, blk: Ptr, oldN: Size, newN: Size, r: Outcome)
    requires Valid(p)
  {
    var h := Head(p);
    var last := h.pos >= oldN && blk == Ptr(0, h.pos - oldN);
    && (h.end < oldN ==> r == Refused(Raise(ES_SIZE | ERR_INVALID)))
    && (h.end >= oldN && last && InPlaceFits(h, oldN, newN) ==>
          && r.Granted? && Valid(r.pool) && r.at == blk
          && Head(r.pool).pos == h.pos - oldN + newN && h.pos <= |Head(r.pool).mem|
          && (newN < oldN ==> Head(r.pool).mem[h.pos - oldN + newN .. h.pos] == Zeros(oldN - newN)))
    && (h.end >= oldN && last && !InPlaceFits(h, oldN, newN) ==> r == Refused(Raise(ERR_OUT_OF_MEMORY)))
    && (h.end >= oldN && !last && newN <= oldN ==> r == Granted(p, blk))
    && (h.end >= oldN && !last && oldN < newN && h.pos + newN <= h.end ==>
          r.Granted? && Valid(r.pool) && r.at == Ptr(0, h.pos) && Head(r.pool).pos == h.pos + newN)
    && (h.end >= oldN && !last && oldN < newN && h.end < h.pos + newN ==> r == Refused(Raise(ERR_POOL_FULL)))
  }

  /** Carrying out the route ralloc chooses, with the exact room test,
      yields what each branch promises. */
  lemma RallocRoutes(p: Pool, blk: Ptr, oldN: Size, newN: Size)
    requires Valid(p) && Live(p, blk, oldN)
    requires !Spills(p, ChooseRoute(Head(p), blk, oldN, newN, InPlaceFits(Head(p), oldN, newN)))
    ensures var h := Head(p);
      ChooseRoute(h, blk, oldN, newN, InPlaceFits(h, oldN, newN)) == InPlace ==>
        InPlaceFits(h, oldN, newN) && Sub(Add(h.pos, newN), oldN) <= h.end
    ensures var h := Head(p);
      RallocBranches(p, blk, oldN, newN,
        TakeRoute(p, blk, oldN, newN, ChooseRoute(h, blk, oldN, newN, InPlaceFits(h, oldN, newN))))
  {
    var h := Head(p);
    RouteCases(h, blk, oldN, newN, InPlaceFits(h, oldN, newN));
    if ChooseRoute(h, blk, oldN, newN, InPlaceFits(h, oldN, newN)) == InPlace {
      ExactTestPassesWritten(h, oldN, newN);
    }
  }

  /** ina_mempool_ralloc with the in-place room test on exact integers. */
  function Ralloc(p: Pool, blk: Ptr, oldSize: Size, newSize: Size): (r: Outcome)
    requires Valid(p) && !Shared(p) && 0 < oldSize && 0 < newSize
    requires Live(p, blk, RequestSize(Head(p).cf, oldSize))
    requires var oldN := RequestSize(Head(p).cf, oldSize);
      var newN := RequestSize(Head(p).cf, newSize);
      !Spills(p, ChooseRoute(Head(p), blk, oldN, newN, InPlaceFits(Head(p), oldN, newN)))
    ensures RallocBranches(p, blk, RequestSize(Head(p).cf, oldSize), RequestSize(Head(p).cf, newSize), r)
    ensures var oldN := RequestSize(Head(p).cf, oldSize);
      var newN := RequestSize(Head(p).cf, newSize);
      r.Granted? ==> Valid(r.pool) && Resized(p, blk, oldN, newN, r.pool, r.at)
                     && HeadOnly(p, r.pool, r.at, if newN < oldN then oldN else newN)
  {
    var oldN := RequestSize(Head(p).cf, oldSize);
    var newN := RequestSize(Head(p).cf, newSize);
    var h := Head(p);
    var route := ChooseRoute(h, blk, oldN, newN, InPlaceFits(h, oldN, newN));
    RallocRoutes(p, blk, oldN, newN);
    TakeRouteResizes(p, blk, oldN, newN, route);
    TakeRoute(p, blk, oldN, newN, route)
  }

  // ---------------------------------------------------------------------
  // info, reset, clear, merge

  function SumSize(cs: seq<Chunk>): nat {
    if |cs| == 0 then 0 else cs[0].size + SumSize(cs[1..])
  }

  /** Bytes handed out by a chunk: its front plus its back. */
  function Used(c: Chunk): int {
    c.pos + (c.size - c.end)
  }

  function SumUsed(cs: seq<Chunk>): int {
    if |cs| == 0 then 0 else Used(cs[0]) + SumUsed(cs[1..])
  }

  /** ina_mempool_info_t, without the chunk size field the call never sets. */
  datatype Info = Info(cf: Flags, size: Size, used: Size, children: nat)

  /** ina_mempool_info: the sums are accumulated on size_t. */
  function GetInfo(p: Pool): (i: Info)
    requires Valid(p)
    ensures i.children == |p.chunks| - 1 && i.cf == Head(p).cf
    ensures SumSize(p.chunks) < SIZE_LIMIT ==>
      i.size == SumSize(p.chunks) && i.used == SumUsed(p.chunks) && i.used <= i.size
  {
    UsedBounded(p.chunks);
    Info(Head(p).cf, Wrap(SumSize(p.chunks)), Wrap(SumUsed(p.chunks)), |p.chunks| - 1)
  }

  /** A chain never reports more bytes used than it holds. */
  lemma {:induction false} UsedBounded(cs: seq<Chunk>)
    requires forall i | 0 <= i < |cs| :: ChunkValid(cs[i])
    ensures 0 <= SumUsed(cs) <= SumSize(cs)
  {
    if |cs| > 0 {
      UsedBounded(cs[1..]);
    }
  }

  /** ina_mempool_reset: every front cursor back to 0 and the head current
      again; the back cursors stay where they are. */
  function Reset(p: Pool): (q: Pool)
    requires Valid(p)
    ensures Valid(q) && q.current == 0 && |q.chunks| == |p.chunks|
    ensures forall i | 0 <= i < |p.chunks| :: q.chunks[i] == p.chunks[i].(pos := 0)
  {
    Pool(seq(|p.chunks|, i requires 0 <= i < |p.chunks| => p.chunks[i].(pos := 0)), 0)
  }

  /** ina_mempool_clear: a reset that also zeroes every chunk. */
  function Clear(p: Pool): (q: Pool)
    requires Valid(p)
    ensures Valid(q) && q.current == 0 && |q.chunks| == |p.chunks|
    ensures forall i | 0 <= i < |p.chunks| ::
      q.chunks[i] == p.chunks[i].(pos := 0, mem := Zeros(p.chunks[i].size))
  {
    Pool(seq(|p.chunks|, i requires 0 <= i < |p.chunks| =>
                           p.chunks[i].(pos := 0, mem := Zeros(p.chunks[i].size))), 0)
  }

  /** ina_mempool_merge: `src`'s head is linked in right after `dest`'s head,
      ahead of dest's former children; src's own children drop out of the
      chain. The current chunk of dest stays the same chunk. */
  function Merge(dest: Option<Pool>, src: Option<Pool>): (r: Result<Pool, Code>)
    requires dest.Some? ==> Valid(dest.value)
    requires src.Some? ==> Valid(src.value)
    ensures dest.None? ==> r == Err(Raise(ERR_INVALID_ARGUMENT))
    ensures dest.Some? && src.None? ==> r == Ok(dest.value)
    ensures dest.Some? && src.Some? ==>
      ((Shared(dest.value) || Shared(src.value)) <==> r.Err?)
    ensures dest.Some? && src.Some? && r.Err? ==> r.error == Raise(ERR_OPERATION_INVALID)
    ensures r.Ok? && src.Some? ==>
      var d := dest.value;
      Valid(r.value)
      && r.value.chunks == [Head(d), Head(src.value)] + d.chunks[1..]
      && r.value.chunks[r.value.current] == d.chunks[d.current]
  {
    match dest
    case None => Err(Raise(ERR_INVALID_ARGUMENT))
    case Some(d) =>
      match src
      case None => Ok(d)
      case Some(s) =>
        if Has(Head(d).cf, SHARED) || Has(Head(s).cf, SHARED) then
          Err(Raise(ERR_OPERATION_INVALID))
        else
          Ok(Pool([Head(d), Head(s)] + d.chunks[1..], if d.current == 0 then 0 else d.current + 1))
  }

  // ---------------------------------------------------------------------
  // Properties relating the operations

  lemma {:induction false} SumUsedUpdate(cs: seq<Chunk>, i: nat, c: Chunk)
    requires i < |cs|
    ensures SumUsed(cs[i := c]) == SumUsed(cs) - Used(cs[i]) + Used(c)
    ensures c.size == cs[i].size ==> SumSize(cs[i := c]) == SumSize(cs)
  {
    if i > 0 {
      SumUsedUpdate(cs[1..], i - 1, c);
      assert cs[i := c][1..] == cs[1..][i - 1 := c];
    }
  }

  lemma {:induction false} SumUsedAppend(cs: seq<Chunk>, c: Chunk)
    ensures SumUsed(cs + [c]) == SumUsed(cs) + Used(c)
    ensures SumSize(cs + [c]) == SumSize(cs) + c.size
  {
    if |cs| > 0 {
      SumUsedAppend(cs[1..], c);
      assert (cs + [c])[1..] == cs[1..] + [c];
    }
  }

  /** A front allocation of `n` bytes adds exactly `n` to the bytes in use,
      and adds the new chunk's size to the pool's size if it grew one. */
  lemma FrontGrantAccounts(p: Pool, q: Pool, at: Ptr, n: Size)
    requires Valid(p) && FrontGrant(p, q, at, n)
    ensures SumUsed(q.chunks) == SumUsed(p.chunks) + n
    ensures SumSize(q.chunks) ==
      SumSize(p.chunks) + (if |q.chunks| > |p.chunks| then q.chunks[|p.chunks|].size else 0)
  {
    if at.chunk < |p.chunks| {
      var c := p.chunks[at.chunk].(pos := at.offset + n);
      assert q.chunks == p.chunks[at.chunk := c];
      SumUsedUpdate(p.chunks, at.chunk, c);
    } else {
      assert q.chunks == p.chunks + [q.chunks[at.chunk]];
      SumUsedAppend(p.chunks, q.chunks[at.chunk]);
    }
  }

  /** ina_mempool_info after dalloc: the bytes in use grow by the aligned
      request, the chunk count by at most one. */
  lemma DallocAccounts(p: Pool, size: Size)
    requires Valid(p) && !Shared(p)
    ensures var r := Dalloc(p, size);
      r.Granted? ==>
        SumUsed(r.pool.chunks) == SumUsed(p.chunks) + RequestSize(Head(p).cf, size)
        && GetInfo(p).children <= GetInfo(r.pool).children <= GetInfo(p).children + 1
  {
    var r := Dalloc(p, size);
    if r.Granted? {
      FrontGrantAccounts(p, r.pool, r.at, RequestSize(Head(p).cf, size));
    }
  }

  /** A front allocation hands out fresh bytes: the block is allocated in the
      new pool, and every block allocated before stays allocated and does not
      overlap it. */
  lemma FrontGrantFresh(p: Pool, q: Pool, at: Ptr, n: Size, b: Ptr, m: nat)
    requires Valid(p) && FrontGrant(p, q, at, n)
    requires Live(p, b, m)
    ensures Live(q, at, n)
    ensures Live(q, b, m)
    ensures b.chunk != at.chunk || b.offset + m <= at.offset || at.offset + n <= b.offset
  {
  }

  /** The same for a back allocation, for blocks up to the current chunk:
      the chunks after it drop out of the chain when nalloc grows the pool. */
  lemma BackGrantFresh(p: Pool, q: Pool, at: Ptr, n: Size, b: Ptr, m: nat)
    requires Valid(p) && BackGrant(p, q, at, n)
    requires Live(p, b, m) && b.chunk <= p.current
    ensures Live(q, at, n)
    ensures Live(q, b, m)
    ensures b.chunk != at.chunk || b.offset + m <= at.offset || at.offset + n <= b.offset
  {
  }

  /** A dynamic pool never refuses a front allocation, and a fixed one
      refuses exactly when the current chunk lacks room. */
  lemma DallocRefusal(p: Pool, size: Size)
    requires Valid(p) && !Shared(p)
    ensures Has(Head(p).cf, DYNAMIC) ==> Dalloc(p, size).Granted?
    ensures !Has(Head(p).cf, DYNAMIC) ==>
      (Dalloc(p, size).Refused? <==>
         p.chunks[p.current].pos + RequestSize(Head(p).cf, size) > p.chunks[p.current].end)
  {
    FitsExact(p.chunks[p.current], RequestSize(Head(p).cf, size));
  }

  /** The first allocation from a new pool starts at its first byte. */
  lemma NewThenDalloc(size: Size, cf: Flags, n: Size)
    requires 0 < size <= MAX_ALIGNED && !Has(cf, SHARED)
    requires RequestSize(cf, n) <= size
    ensures var r := Dalloc(New(size, cf).value, n);
      r.Granted? && r.at == Ptr(0, 0) && r.pool.chunks[0].pos == RequestSize(cf, n)
  {
    var p := New(size, cf).value;
    FitsExact(p.chunks[0], RequestSize(cf, n));
  }

  lemma {:induction false} SumPosZero(cs: seq<Chunk>)
    requires forall i | 0 <= i < |cs| :: cs[i].pos == 0
    ensures SumUsed(cs) == SumSize(cs) - SumEnd(cs)
  {
    if |cs| > 0 {
      SumPosZero(cs[1..]);
    }
  }

  function SumEnd(cs: seq<Chunk>): nat {
    if |cs| == 0 then 0 else cs[0].end + SumEnd(cs[1..])
  }

  lemma {:induction false} SumsAgree(cs: seq<Chunk>, ds: seq<Chunk>)
    requires |cs| == |ds|
    requires forall i | 0 <= i < |cs| :: cs[i].size == ds[i].size && cs[i].end == ds[i].end
    ensures SumSize(cs) == SumSize(ds) && SumEnd(cs) == SumEnd(ds)
  {
    if |cs| > 0 {
      SumsAgree(cs[1..], ds[1..]);
    }
  }

  /** After a reset the pool holds as many bytes as before and counts only
      the back allocations as used, since reset leaves `end` alone. */
  lemma ResetAccounts(p: Pool)
    requires Valid(p)
    ensures SumSize(Reset(p).chunks) == SumSize(p.chunks)
    ensures SumUsed(Reset(p).chunks) == SumSize(p.chunks) - SumEnd(p.chunks)
    ensures GetInfo(Reset(p)).children == GetInfo(p).children
  {
    var q := Reset(p);
    SumsAgree(q.chunks, p.chunks);
    SumPosZero(q.chunks);
  }

  /** Resetting twice is resetting once; clearing likewise. */
  lemma ResetIdempotent(p: Pool)
    requires Valid(p)
    ensures Reset(Reset(p)) == Reset(p)
    ensures Clear(Clear(p)) == Clear(p)
  {
    assert Reset(Reset(p)).chunks == Reset(p).chunks;
    assert Clear(Clear(p)).chunks == Clear(p).chunks;
  }

  /** After a reset the head's whole front is available again: an allocation
      that fits below the head's back cursor starts at the head's first byte. */
  lemma ResetThenDalloc(p: Pool, n: Size)
    requires Valid(p) && !Shared(p)
    requires RequestSize(Head(p).cf, n) <= Head(p).end
    ensures var r := Dalloc(Reset(p), n);
      r.Granted? && r.at == Ptr(0, 0)
  {
    FitsExact(Reset(p).chunks[0], RequestSize(Head(p).cf, n));
  }

  /** Clear is a reset that also zeroes every byte of every chunk. */
  lemma ClearIsZeroingReset(p: Pool)
    requires Valid(p)
    ensures |Clear(p).chunks| == |Reset(p).chunks| && Clear(p).current == Reset(p).current
    ensures forall i | 0 <= i < |p.chunks| ::
      Clear(p).chunks[i].(mem := []) == Reset(p).chunks[i].(mem := [])
      && forall k | 0 <= k < |Clear(p).chunks[i].mem| :: Clear(p).chunks[i].mem[k] == Some(0)
  {
  }

  /** Merging adds one chunk to the chain and src's head size to the pool's
      size; src's children are not counted. */
  lemma MergeAccounts(d: Pool, s: Pool)
    requires Valid(d) && Valid(s) && !Shared(d) && !Shared(s)
    ensures var r := Merge(Some(d), Some(s));
      r.Ok? && GetInfo(r.value).children == GetInfo(d).children + 1
      && SumSize(r.value.chunks) == SumSize(d.chunks) + Head(s).size
      && SumUsed(r.value.chunks) == SumUsed(d.chunks) + Used(Head(s))
  {
    var q := Merge(Some(d), Some(s)).value;
    assert q.chunks[1..] == [Head(s)] + d.chunks[1..];
    assert q.chunks[1..][1..] == d.chunks[1..];
  }

  /** Where `pos + new_size` does not wrap, ralloc as written and with the
      exact room test behave the same. */
  lemma RallocAgreesWithoutWrap(p: Pool, blk: Ptr, oldSize: Size, newSize: Size)
    requires Valid(p) && !Shared(p) && 0 < oldSize && 0 < newSize
    requires Live(p, blk, RequestSize(Head(p).cf, oldSize))
    requires Head(p).pos + RequestSize(Head(p).cf, newSize) < SIZE_LIMIT
    requires var oldN := RequestSize(Head(p).cf, oldSize);
      var newN := RequestSize(Head(p).cf, newSize);
      !Spills(p, ChooseRoute(Head(p), blk, oldN, newN, InPlaceFits(Head(p), oldN, newN)))
    requires var oldN := RequestSize(Head(p).cf, oldSize);
      var newN := RequestSize(Head(p).cf, newSize);
      !Spills(p, ChooseRoute(Head(p), blk, oldN, newN, InPlaceFitsAsWritten(Head(p), oldN, newN)))
    ensures RallocAsWritten(p, blk, oldSize, newSize) == Ralloc(p, blk, oldSize, newSize)
  {
    var oldN := RequestSize(Head(p).cf, oldSize);
    var newN := RequestSize(Head(p).cf, newSize);
    var h := Head(p);
    if oldN <= h.pos {
      WrapAbsorbs(h.pos + newN, -(oldN as int));
      assert InPlaceFits(h, oldN, newN) == InPlaceFitsAsWritten(h, oldN, newN);
    }
  }

  /** A head chunk of 2048 bytes whose front cursor sits at 1024, right after
      a 16-byte block. */
  function WrapExamplePool(): (p: Pool)
    ensures Valid(p) && !Shared(p)
  {
    Pool([Chunk(FIXED, 2048, 1024, 2048, Zeros(2048))], 0)
  }

  /** As written, growing that last 16-byte block to 2^64 - 16 bytes passes
      the in-place test, because `pos + new_size` wraps around: ralloc hands
      the block back as if it now held 2^64 - 16 bytes and moves the front
      cursor backwards. The exact test refuses with OUT_OF_MEMORY. */
  lemma RallocWrapsAround()
    ensures Live(WrapExamplePool(), Ptr(0, 1008), 16)
    ensures var r := RallocAsWritten(WrapExamplePool(), Ptr(0, 1008), 16, SIZE_LIMIT - 16);
      r.Granted? && r.at == Ptr(0, 1008) && r.pool.chunks[0].pos == 992
      && !Live(r.pool, r.at, SIZE_LIMIT - 16)
    ensures Ralloc(WrapExamplePool(), Ptr(0, 1008), 16, SIZE_LIMIT - 16) == Refused(Raise(ERR_OUT_OF_MEMORY))
  {
    var p := WrapExamplePool();
    var h := Head(p);
    assert RequestSize(FIXED, 16) == 16;
    assert RequestSize(FIXED, SIZE_LIMIT - 16) == SIZE_LIMIT - 16;
    assert Sub(Add(h.pos, SIZE_LIMIT - 16), 16) == 992;
  }
}
