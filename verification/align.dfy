/** Machine sizes and the alignment arithmetic of include/libinac-ce/memory.h.

    `size_t` is an unsigned 64-bit integer: every sum the C code forms on sizes
    is taken modulo 2^64 here, written out with `Wrap`.
 */
module MemAlign {

  /** sizeof(void*) on the 64-bit targets the library is built for. */
  const POINTER_SIZE: nat := 8

  /** INA_MEM_ALIGN_SIZE: twice the pointer width, as GNU libc aligns. */
  const ALIGN_SIZE: nat := 2 * POINTER_SIZE

  /** 2^64, one more than SIZE_MAX. */
  const SIZE_LIMIT: nat := 0x1_0000_0000_0000_0000

  /** Values a `size_t` can hold. */
  type Size = n: nat | n < SIZE_LIMIT

  /** Reduce an exact result to what a `size_t` holds after wrap-around; a
      negative difference wraps to the top of the range, as unsigned
      subtraction does. */
  function Wrap(n: int): (r: Size)
    ensures 0 <= n < SIZE_LIMIT ==> r == n
    ensures SIZE_LIMIT <= n < 2 * SIZE_LIMIT ==> r == n - SIZE_LIMIT
    ensures n < 0 <= n + SIZE_LIMIT ==> r == n + SIZE_LIMIT
  {
    n % SIZE_LIMIT
  }

  /** `size_t` addition and subtraction. */
  function Add(a: Size, b: Size): Size {
    Wrap(a + b)
  }

  function Sub(a: Size, b: Size): Size {
    Wrap(a - b)
  }

  /** Unsigned arithmetic is arithmetic modulo 2^64: wrapping an intermediate
      result does not change the final one. */
  lemma WrapAbsorbs(x: int, k: int)
    ensures Wrap(Wrap(x) + k) == Wrap(x + k)
  {
    var q := x / SIZE_LIMIT;
    assert x == q * SIZE_LIMIT + Wrap(x);
    assert Wrap(x) + k == (x + k) - q * SIZE_LIMIT;
    ModShift(x + k, -q);
  }

  /** Shifting by a multiple of 2^64 leaves the residue alone. */
  lemma {:induction false} ModShift(y: int, q: int)
    ensures (y + q * SIZE_LIMIT) % SIZE_LIMIT == y % SIZE_LIMIT
    decreases if q < 0 then -q else q
  {
    if q > 0 {
      ModShift(y, q - 1);
      assert y + q * SIZE_LIMIT == (y + (q - 1) * SIZE_LIMIT) + SIZE_LIMIT;
    } else if q < 0 {
      ModShift(y, q + 1);
      assert y + q * SIZE_LIMIT == (y + (q + 1) * SIZE_LIMIT) - SIZE_LIMIT;
    }
  }

  /** Every aligned size lies at or below the largest aligned size. */
  lemma AlignedBelowMax(n: Size)
    requires n % ALIGN_SIZE == 0
    ensures n <= SIZE_LIMIT - ALIGN_SIZE
  {
  }

  /** `t & ~(ALIGN_SIZE-1)`: clearing the low four bits of a 64-bit value is
      rounding it down to a multiple of ALIGN_SIZE. */
  function ClearLowBits(t: Size): (r: Size)
    ensures r % ALIGN_SIZE == 0
    ensures r <= t < r + ALIGN_SIZE
  {
    t - t % ALIGN_SIZE
  }

  /** INA_MEM_ALIGN(n): `(n + (ALIGN_SIZE-1)) & ~(ALIGN_SIZE-1)` on size_t. */
  function Align(n: Size): (r: Size)
    ensures r % ALIGN_SIZE == 0
    ensures n <= SIZE_LIMIT - ALIGN_SIZE ==> n <= r < n + ALIGN_SIZE
    ensures n > SIZE_LIMIT - ALIGN_SIZE ==> r == 0
  {
    ClearLowBits(Add(n, ALIGN_SIZE - 1))
  }

  /** ina_mem_get_aligned_size: the inline function spells out the same
      expression as the macro. */
  function GetAlignedSize(query: Size): (r: Size)
    ensures r % ALIGN_SIZE == 0
    ensures query <= SIZE_LIMIT - ALIGN_SIZE ==> query <= r < query + ALIGN_SIZE
  {
    ClearLowBits(Add(query, ALIGN_SIZE - 1))
  }

  predicate Aligned(n: Size) {
    n % ALIGN_SIZE == 0
  }

  /** The largest aligned size; every larger request wraps to 0. */
  const MAX_ALIGNED: Size := SIZE_LIMIT - ALIGN_SIZE

  /** An aligned size is returned unchanged. */
  lemma AlignFixesAligned(n: Size)
    requires Aligned(n)
    ensures Align(n) == n
  {
  }

  /** Aligning twice is aligning once. */
  lemma AlignIdempotent(n: Size)
    ensures Align(Align(n)) == Align(n)
  {
    AlignFixesAligned(Align(n));
  }

  /** The inline function and the macro agree on every input. */
  lemma GetAlignedSizeIsAlign(query: Size)
    ensures GetAlignedSize(query) == Align(query)
  {
  }

  /** Alignment is the least multiple of ALIGN_SIZE not below `n`, as long as
      the rounding does not overflow. */
  lemma AlignIsLeastMultiple(n: Size, m: Size)
    requires n <= MAX_ALIGNED
    requires Aligned(m) && n <= m
    ensures Align(n) <= m
  {
  }

  /** Alignment is monotone below the overflow point. */
  lemma AlignMonotone(a: Size, b: Size)
    requires a <= b <= MAX_ALIGNED
    ensures Align(a) <= Align(b)
  {
    AlignIsLeastMultiple(a, Align(b));
  }
}
