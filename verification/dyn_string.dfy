/** The length-prefixed dynamic strings of src/string.c and the inline
    wrappers of include/libinac-ce/string.h.

    A string is a header {size, len} followed by `size` bytes of data: the
    `len` bytes of content, a NUL terminator and spare room. A string either
    owns a heap block or lives inside a memory pool; the library marks the
    second kind with bits in `size`, which this model keeps as a separate tag.
    Functions taking a `const char *` read a C string: the bytes before its
    first NUL. Such arguments are sequences here, cut at their first NUL by
    `CString`. A NULL pointer argument is `None`.
 */
module DynString {
  import opened Wrappers
  import opened MemAlign
  import opened ResultCodes
  import MemPool

  type Byte = bv8

  /** sizeof(ina_str_hdr_t): two packed size_t fields. */
  const HEADER_SIZE: nat := 2 * POINTER_SIZE

  datatype Backing = Heap | Pooled

  /** `data` holds the `len` bytes before the terminator, `size` the bytes
      reserved after the header, the terminator included. */
  datatype Str = Str(data: seq<Byte>, size: nat, backing: Backing)

  /** Content and terminator fit in the reserved bytes. */
  predicate Valid(s: Str) {
    |s.data| < s.size
  }

  // ---------------------------------------------------------------------
  // C strings

  predicate NoNul(c: seq<Byte>) {
    forall i | 0 <= i < |c| :: c[i] != 0
  }

  /** strlen: the index of the first NUL, or the whole sequence when the
      terminator lies just past it. */
  function Strlen(c: seq<Byte>): (n: nat)
    ensures n <= |c|
    ensures NoNul(c[..n])
    ensures n < |c| ==> c[n] == 0
  {
    if |c| == 0 || c[0] == 0 then 0
    else
      var n := 1 + Strlen(c[1..]);
      assert c[..n] == [c[0]] + c[1..][..n - 1];
      n
  }

  /** The C string a pointer to `c` denotes. */
  function CString(c: seq<Byte>): (r: seq<Byte>)
    ensures NoNul(r) && r <= c
    ensures NoNul(c) ==> r == c
  {
    c[..Strlen(c)]
  }

  /** The byte at index `i` of a string's data, where index len holds the
      terminator. */
  function At(d: seq<Byte>, i: nat): Byte
    requires i <= |d|
  {
    if i < |d| then d[i] else 0
  }

  // ---------------------------------------------------------------------
  // Lengths

  /** ina_str_len: 0 for NULL. */
  function Length(s: Option<Str>): (n: nat)
    ensures s.None? ==> n == 0
    ensures s.Some? ==> n == |s.value.data|
  {
    if s.None? then 0 else |s.value.data|
  }

  /** ina_str_size: 0 for NULL. */
  function SizeOf(s: Option<Str>): (n: nat)
    ensures s.None? ==> n == 0
    ensures s.Some? ==> n == s.value.size
  {
    if s.None? then 0 else s.value.size
  }

  /** ina_str_available: the spare room after content and terminator, 0 for
      NULL. */
  function Available(s: Option<Str>): (n: nat)
    requires s.Some? ==> Valid(s.value)
    ensures Length(s) + n + (if s.None? then 0 else 1) == SizeOf(s)
  {
    if s.None? then 0 else s.value.size - |s.value.data| - 1
  }

  // ---------------------------------------------------------------------
  // Constructors

  /** ina_str_new: an empty heap string with room for `len` bytes. */
  function New(len: nat): (s: Str)
    ensures Valid(s) && s.backing == Heap
    ensures s.data == [] && Available(Some(s)) == len
  {
    Str([], len + 1, Heap)
  }

  /** A pooled string together with the pool it was carved from and the
      address of its header. */
  datatype Placed = Placed(pool: MemPool.Pool, at: MemPool.Ptr, str: Str)

  /** ina_str_new_using_pool: the header and `len + 1` bytes come from the
      front of the pool; a refused allocation is passed on. */
  function NewUsingPool(p: MemPool.Pool, len: nat): (r: Result<Placed, Code>)
    requires MemPool.Valid(p) && !MemPool.Shared(p)
    requires len + 1 + HEADER_SIZE < SIZE_LIMIT
    ensures r.Ok? ==> (Valid(r.value.str) && r.value.str.backing == Pooled
                       && r.value.str.data == [] && Available(Some(r.value.str)) == len)
    ensures r.Ok? ==>
      MemPool.FrontGrant(p, r.value.pool, r.value.at,
                         MemPool.RequestSize(MemPool.Head(p).cf, len + 1 + HEADER_SIZE))
    ensures r.Err? <==> (!MemPool.Has(MemPool.Head(p).cf, MemPool.DYNAMIC)
      && !MemPool.Fits(p.chunks[p.current], MemPool.RequestSize(MemPool.Head(p).cf, len + 1 + HEADER_SIZE)))
    ensures r.Err? ==> r.error == Raise(ERR_POOL_FULL)
  {
    match MemPool.Dalloc(p, len + 1 + HEADER_SIZE)
    case Granted(q, at) => Ok(Placed(q, at, Str([], len + 1, Pooled)))
    case Refused(rc) => Err(rc)
  }

  /** ina_str_new_fromblk: a heap string holding the first `len` bytes of
      the block, with no spare room. */
  function FromBlk(blk: Option<seq<Byte>>, len: nat): (r: Result<Str, Code>)
    requires blk.Some? ==> len <= |blk.value|
    ensures r.Err? <==> blk.None?
    ensures r.Err? ==> r.error == Raise(ERR_INVALID_ARGUMENT)
    ensures r.Ok? ==> (Valid(r.value) && r.value.backing == Heap
                       && r.value.data == blk.value[..len] && Available(Some(r.value)) == 0)
  {
    if blk.None? then Err(Raise(ERR_INVALID_ARGUMENT))
    else Ok(New(len).(data := blk.value[..len]))
  }

  /** ina_str_new_fromblk_using_pool as the source writes it: the bytes are
      copied but the length field keeps the 0 the pooled constructor wrote. */
  function FromBlkUsingPoolAsWritten(p: Option<MemPool.Pool>, blk: Option<seq<Byte>>, len: nat)
    : (r: Result<Placed, Code>)
    requires p.Some? ==> MemPool.Valid(p.value) && !MemPool.Shared(p.value)
    requires len + 1 + HEADER_SIZE < SIZE_LIMIT
    requires blk.Some? ==> len <= |blk.value|
    ensures r.Ok? ==> Valid(r.value.str) && r.value.str.data == [] && Available(Some(r.value.str)) == len
  {
    if p.None? || blk.None? then Err(Raise(ERR_INVALID_ARGUMENT))
    else NewUsingPool(p.value, len)
  }

  /** ina_str_new_fromblk_using_pool with the length set, as its heap twin
      does. */
  function FromBlkUsingPool(p: Option<MemPool.Pool>, blk: Option<seq<Byte>>, len: nat)
    : (r: Result<Placed, Code>)
    requires p.Some? ==> MemPool.Valid(p.value) && !MemPool.Shared(p.value)
    requires len + 1 + HEADER_SIZE < SIZE_LIMIT
    requires blk.Some? ==> len <= |blk.value|
    ensures p.None? || blk.None? ==> r == Err(Raise(ERR_INVALID_ARGUMENT))
    ensures r.Ok? ==> (Valid(r.value.str) && r.value.str.backing == Pooled
                       && r.value.str.data == blk.value[..len] && Available(Some(r.value.str)) == 0)
    ensures r.Ok? ==>
      MemPool.FrontGrant(p.value, r.value.pool, r.value.at,
                         MemPool.RequestSize(MemPool.Head(p.value).cf, len + 1 + HEADER_SIZE))
    ensures p.Some? && blk.Some? ==>
      (r.Err? <==> (!MemPool.Has(MemPool.Head(p.value).cf, MemPool.DYNAMIC)
        && !MemPool.Fits(p.value.chunks[p.value.current],
                         MemPool.RequestSize(MemPool.Head(p.value).cf, len + 1 + HEADER_SIZE))))
    ensures p.Some? && blk.Some? && r.Err? ==> r.error == Raise(ERR_POOL_FULL)
  {
    if p.None? || blk.None? then Err(Raise(ERR_INVALID_ARGUMENT))
    else match NewUsingPool(p.value, len)
      case Ok(pl) => Ok(pl.(str := pl.str.(data := blk.value[..len])))
      case Err(rc) => Err(rc)
  }

  /** The pooled constructor as written loses the length: on every pool the
      allocation succeeds on, a non-empty block gives a string of length 0,
      where the corrected constructor gives one of length `len`. */
  lemma PooledBlockLosesLength(p: MemPool.Pool, blk: seq<Byte>, len: nat)
    requires MemPool.Valid(p) && !MemPool.Shared(p)
    requires len + 1 + HEADER_SIZE < SIZE_LIMIT && 0 < len <= |blk|
    ensures var w := FromBlkUsingPoolAsWritten(Some(p), Some(blk), len);
      var c := FromBlkUsingPool(Some(p), Some(blk), len);
      (w.Ok? <==> c.Ok?)
      && (c.Ok? ==> w.value.pool == c.value.pool && Length(Some(w.value.str)) == 0
                    && Length(Some(c.value.str)) == len && c.value.str.data == blk[..len])
  {
  }

  /** ina_str_new_fromcstr: a heap string holding the C string, empty for
      NULL, with no spare room. */
  function FromCStr(c: Option<seq<Byte>>): (s: Str)
    ensures Valid(s) && s.backing == Heap && Available(Some(s)) == 0
    ensures c.None? ==> s.data == []
    ensures c.Some? ==> s.data == CString(c.value) && NoNul(s.data)
  {
    var bytes := if c.None? then [] else CString(c.value);
    New(|bytes|).(data := bytes)
  }

  /** ina_str_new_fromcstr_using_pool. */
  function FromCStrUsingPool(p: MemPool.Pool, c: Option<seq<Byte>>): (r: Result<Placed, Code>)
    requires MemPool.Valid(p) && !MemPool.Shared(p)
    requires c.Some? ==> |CString(c.value)| + 1 + HEADER_SIZE < SIZE_LIMIT
    ensures r.Ok? ==> Valid(r.value.str) && r.value.str.backing == Pooled && Available(Some(r.value.str)) == 0
    ensures r.Ok? ==> r.value.str.data == if c.None? then [] else CString(c.value)
    ensures var len := if c.None? then 0 else |CString(c.value)|;
      && (r.Ok? ==> MemPool.FrontGrant(p, r.value.pool, r.value.at,
                                       MemPool.RequestSize(MemPool.Head(p).cf, len + 1 + HEADER_SIZE)))
      && (r.Err? <==> (!MemPool.Has(MemPool.Head(p).cf, MemPool.DYNAMIC)
            && !MemPool.Fits(p.chunks[p.current], MemPool.RequestSize(MemPool.Head(p).cf, len + 1 + HEADER_SIZE))))
      && (r.Err? ==> r.error == Raise(ERR_POOL_FULL))
  {
    var bytes := if c.None? then [] else CString(c.value);
    match NewUsingPool(p, |bytes|)
    case Ok(pl) => Ok(pl.(str := pl.str.(data := bytes)))
    case Err(rc) => Err(rc)
  }

  /** ina_str_dup: NULL for NULL, otherwise a fresh heap copy of the C
      string. */
  function Dup(c: Option<seq<Byte>>): (r: Option<Str>)
    ensures r.None? <==> c.None?
    ensures r.Some? ==> (Valid(r.value) && r.value.backing == Heap
                         && r.value.data == CString(c.value) && Available(r) == 0)
  {
    if c.None? then None else Some(FromCStr(c))
  }

  // ---------------------------------------------------------------------
  // Copy and append (heap strings)

  /** __ina_ensure_size: the block size afterwards. The block is kept while
      the spare room exceeds `need`, otherwise resized so that `need` bytes
      and a terminator fit; it shrinks when `need` is below the current
      length, which only ncpy asks for. */
  function EnsureSize(s: Str, need: nat): (size: nat)
    requires Valid(s)
    ensures need < size
    ensures s.size - |s.data| - 1 > need ==> size == s.size
    ensures |s.data| <= need ==> s.size <= size
  {
    if s.size - |s.data| - 1 > need then s.size
    else (s.size - |s.data|) + need
  }

  /** ina_str_ncpy: the content becomes the first `n` bytes of `src`; a NULL
      source leaves the string alone. */
  function NCpy(dest: Str, src: Option<seq<Byte>>, n: nat): (r: Str)
    requires Valid(dest) && dest.backing == Heap
    requires src.Some? ==> n <= |src.value|
    ensures Valid(r) && r.backing == Heap
    ensures src.None? ==> r == dest
    ensures src.Some? ==> r.data == src.value[..n]
  {
    if src.None? then dest
    else dest.(data := src.value[..n], size := EnsureSize(dest, n))
  }

  /** ina_str_ncat: the first `n` bytes of `src` are appended; a NULL
      source leaves the string alone. */
  function NCat(dest: Str, src: Option<seq<Byte>>, n: nat): (r: Str)
    requires Valid(dest) && dest.backing == Heap
    requires src.Some? ==> n <= |src.value|
    ensures Valid(r) && r.backing == Heap
    ensures src.None? ==> r == dest
    ensures src.Some? ==> r.data == dest.data + src.value[..n] && r.size >= dest.size
  {
    if src.None? then dest
    else dest.(data := dest.data + src.value[..n], size := EnsureSize(dest, |dest.data| + n))
  }

  /** ina_str_cpy: ncpy with the source's own length. */
  function Cpy(dest: Str, src: Option<Str>): (r: Str)
    requires Valid(dest) && dest.backing == Heap
    ensures Valid(r) && r.backing == Heap
    ensures src.None? ==> r == dest
    ensures src.Some? ==> r.data == src.value.data
  {
    NCpy(dest, if src.None? then None else Some(src.value.data), Length(src))
  }

  /** ina_str_cat: ncat with the source's own length. */
  function Cat(dest: Str, src: Option<Str>): (r: Str)
    requires Valid(dest) && dest.backing == Heap
    ensures Valid(r) && r.backing == Heap
    ensures src.None? ==> r == dest
    ensures src.Some? ==> r.data == dest.data + src.value.data
  {
    NCat(dest, if src.None? then None else Some(src.value.data), Length(src))
  }

  /** Copying then appending builds the concatenation, and the capacity
      never drops below what the content needs. */
  lemma CpyThenCat(dest: Str, a: Str, b: Str)
    requires Valid(dest) && dest.backing == Heap
    ensures var r := Cat(Cpy(dest, Some(a)), Some(b));
      r.data == a.data + b.data && Length(Some(r)) == Length(Some(a)) + Length(Some(b))
  {
  }

  // ---------------------------------------------------------------------
  // Comparison

  /** memcmp over the first `n` bytes: the difference of the first pair of
      bytes that differ, or 0. C promises only the sign of a non-zero
      result. */
  function MemCmp(a: seq<Byte>, b: seq<Byte>, n: nat): (c: int)
    requires n <= |a| && n <= |b|
    ensures c == 0 <==> a[..n] == b[..n]
    decreases n
  {
    if n == 0 then 0
    else if a[0] != b[0] then
      assert a[..n][0] != b[..n][0];
      a[0] as int - b[0] as int
    else
      var c := MemCmp(a[1..], b[1..], n - 1);
      assert a[..n] == [a[0]] + a[1..][..n - 1];
      assert b[..n] == [b[0]] + b[1..][..n - 1];
      c
  }

  /** ina_str_cmp: memcmp over the shorter length, then the bytes at that
      index, one of which is a terminator. */
  function Cmp(lhs: Str, rhs: Str): (c: int)
    requires Valid(lhs) && Valid(rhs)
    ensures lhs.data == rhs.data ==> c == 0
    ensures c == 0 ==> forall i | 0 <= i < |lhs.data| && i < |rhs.data| :: lhs.data[i] == rhs.data[i]
    ensures c == 0 && |lhs.data| < |rhs.data| ==> rhs.data[|lhs.data|] == 0
    ensures c == 0 && |rhs.data| < |lhs.data| ==> lhs.data[|rhs.data|] == 0
  {
    var m := if |lhs.data| < |rhs.data| then |lhs.data| else |rhs.data|;
    var c := MemCmp(lhs.data, rhs.data, m);
    if c == 0 then At(lhs.data, m) as int - At(rhs.data, m) as int else c
  }

  lemma {:induction false} MemCmpAntisymmetric(a: seq<Byte>, b: seq<Byte>, n: nat)
    requires n <= |a| && n <= |b|
    ensures MemCmp(a, b, n) == -MemCmp(b, a, n)
    decreases n
  {
    if n > 0 && a[0] == b[0] {
      MemCmpAntisymmetric(a[1..], b[1..], n - 1);
    }
  }

  /** The first differing byte decides memcmp. */
  lemma {:induction false} MemCmpFirstDifference(a: seq<Byte>, b: seq<Byte>, n: nat, i: nat)
    requires i < n <= |a| && n <= |b|
    requires a[..i] == b[..i] && a[i] != b[i]
    ensures MemCmp(a, b, n) == a[i] as int - b[i] as int
    decreases n
  {
    if i > 0 {
      assert a[0] == a[..i][0] == b[..i][0] == b[0];
      assert a[1..][..i - 1] == a[..i][1..] == b[..i][1..] == b[1..][..i - 1];
      MemCmpFirstDifference(a[1..], b[1..], n - 1, i - 1);
    }
  }

  /** Swapping the arguments negates the result. */
  lemma CmpAntisymmetric(lhs: Str, rhs: Str)
    requires Valid(lhs) && Valid(rhs)
    ensures Cmp(lhs, rhs) == -Cmp(rhs, lhs)
  {
    var m := if |lhs.data| < |rhs.data| then |lhs.data| else |rhs.data|;
    var m' := if |rhs.data| < |lhs.data| then |rhs.data| else |lhs.data|;
    assert m' == m;
    MemCmpAntisymmetric(lhs.data, rhs.data, m);
    var c := MemCmp(lhs.data, rhs.data, m);
    assert Cmp(lhs, rhs) == if c == 0 then At(lhs.data, m) as int - At(rhs.data, m) as int else c;
    assert Cmp(rhs, lhs) == if c == 0 then At(rhs.data, m) as int - At(lhs.data, m) as int else -c;
  }

  /** Strings without embedded NULs compare equal exactly when their
      contents are equal. */
  lemma CmpZeroIff(lhs: Str, rhs: Str)
    requires Valid(lhs) && Valid(rhs) && NoNul(lhs.data) && NoNul(rhs.data)
    ensures Cmp(lhs, rhs) == 0 <==> lhs.data == rhs.data
  {
    var m := if |lhs.data| < |rhs.data| then |lhs.data| else |rhs.data|;
    if Cmp(lhs, rhs) == 0 {
      assert lhs.data[..m] == rhs.data[..m];
      assert At(lhs.data, m) == At(rhs.data, m);
      assert |lhs.data| == |rhs.data|;
      assert lhs.data == lhs.data[..m];
    }
  }

  /** The sign comes from the first byte at which the contents differ. */
  lemma CmpFirstDifference(lhs: Str, rhs: Str, i: nat)
    requires Valid(lhs) && Valid(rhs)
    requires i < |lhs.data| && i < |rhs.data|
    requires lhs.data[..i] == rhs.data[..i] && lhs.data[i] != rhs.data[i]
    ensures Cmp(lhs, rhs) == lhs.data[i] as int - rhs.data[i] as int
  {
    var m := if |lhs.data| < |rhs.data| then |lhs.data| else |rhs.data|;
    MemCmpFirstDifference(lhs.data, rhs.data, m, i);
  }

  /** A proper prefix compares less, unless the longer string continues with
      a NUL byte. */
  lemma CmpProperPrefix(lhs: Str, rhs: Str)
    requires Valid(lhs) && Valid(rhs)
    requires |lhs.data| < |rhs.data| && lhs.data == rhs.data[..|lhs.data|]
    requires rhs.data[|lhs.data|] != 0
    ensures Cmp(lhs, rhs) < 0
  {
    assert lhs.data[..|lhs.data|] == lhs.data;
  }

  /** With an embedded NUL, different contents can compare equal: the byte
      after the shorter string is compared against its terminator. */
  lemma CmpEmbeddedNul()
    ensures Cmp(Str([97, 0], 3, Heap), Str([97], 2, Heap)) == 0
  {
    assert [97 as Byte, 0][..1] == [97 as Byte][..1];
  }

  // ---------------------------------------------------------------------
  // Case flipping

  /** The byte test of ina_str_toupper: bytes 0x60..0x7F lose bit 5. */
  function Upper(c: Byte): Byte {
    if 224 & c == 96 then c ^ 32 else c
  }

  /** The byte test of ina_str_tolower: bytes 0x40..0x5F gain bit 5. */
  function Lower(c: Byte): Byte {
    if 224 & c == 64 then c ^ 32 else c
  }

  /** What the two flips do to one byte: they move the 32-byte blocks
      0x60..0x7F and 0x40..0x5F onto each other (letters among them), keep
      every other byte and never produce or remove a NUL. */
  lemma CaseFlipBytes(c: Byte)
    ensures 0x60 <= c <= 0x7F ==> Upper(c) == c - 32
    ensures !(0x60 <= c <= 0x7F) ==> Upper(c) == c
    ensures 0x40 <= c <= 0x5F ==> Lower(c) == c + 32
    ensures !(0x40 <= c <= 0x5F) ==> Lower(c) == c
    ensures 'a' as Byte <= c <= 'z' as Byte ==> Upper(c) == c - ('a' as Byte - 'A' as Byte)
    ensures 'A' as Byte <= c <= 'Z' as Byte ==> Lower(c) == c + ('a' as Byte - 'A' as Byte)
    ensures Upper(c) == 0 <==> c == 0
    ensures Lower(c) == 0 <==> c == 0
  {
  }

  /** The do-while loop: every byte before the first NUL is flipped, the NUL
      ends the walk and whatever follows it is left alone. */
  function UpperBytes(d: seq<Byte>): (r: seq<Byte>)
    ensures |r| == |d|
    ensures forall i | 0 <= i < Strlen(d) :: r[i] == Upper(d[i])
    ensures forall i | Strlen(d) <= i < |d| :: r[i] == d[i]
  {
    if |d| == 0 || d[0] == 0 then d
    else [Upper(d[0])] + UpperBytes(d[1..])
  }

  function LowerBytes(d: seq<Byte>): (r: seq<Byte>)
    ensures |r| == |d|
    ensures forall i | 0 <= i < Strlen(d) :: r[i] == Lower(d[i])
    ensures forall i | Strlen(d) <= i < |d| :: r[i] == d[i]
  {
    if |d| == 0 || d[0] == 0 then d
    else [Lower(d[0])] + LowerBytes(d[1..])
  }

  /** ina_str_toupper: NULL is returned as is; every byte before the first NUL is
      flipped and the rest are left alone. */
  function ToUpper(s: Option<Str>): (r: Option<Str>)
    ensures r.None? <==> s.None?
    ensures r.Some? ==> (r.value.size == s.value.size && r.value.backing == s.value.backing
                         && |r.value.data| == |s.value.data|)
    ensures r.Some? ==> forall i | 0 <= i < Strlen(s.value.data) :: r.value.data[i] == Upper(s.value.data[i])
    ensures r.Some? ==> forall i | Strlen(s.value.data) <= i < |s.value.data| :: r.value.data[i] == s.value.data[i]
  {
    if s.None? then None else Some(s.value.(data := UpperBytes(s.value.data)))
  }

  /** ina_str_tolower: NULL is returned as is; every byte before the first NUL is
      flipped and the rest are left alone. */
  function ToLower(s: Option<Str>): (r: Option<Str>)
    ensures r.None? <==> s.None?
    ensures r.Some? ==> (r.value.size == s.value.size && r.value.backing == s.value.backing
                         && |r.value.data| == |s.value.data|)
    ensures r.Some? ==> forall i | 0 <= i < Strlen(s.value.data) :: r.value.data[i] == Lower(s.value.data[i])
    ensures r.Some? ==> forall i | Strlen(s.value.data) <= i < |s.value.data| :: r.value.data[i] == s.value.data[i]
  {
    if s.None? then None else Some(s.value.(data := LowerBytes(s.value.data)))
  }

  /** Flipping keeps the first NUL where it was. */
  lemma FlipKeepsStrlen(d: seq<Byte>)
    ensures Strlen(UpperBytes(d)) == Strlen(d) && Strlen(LowerBytes(d)) == Strlen(d)
  {
    var n := Strlen(d);
    forall i | 0 <= i < n ensures UpperBytes(d)[i] != 0 && LowerBytes(d)[i] != 0 {
      assert d[..n][i] == d[i];
      CaseFlipBytes(d[i]);
    }
    StrlenFromBytes(UpperBytes(d), n);
    StrlenFromBytes(LowerBytes(d), n);
  }

  /** The first NUL at `n` determines strlen. */
  lemma {:induction false} StrlenFromBytes(d: seq<Byte>, n: nat)
    requires n <= |d| && (forall i | 0 <= i < n :: d[i] != 0) && (n < |d| ==> d[n] == 0)
    ensures Strlen(d) == n
  {
    if n > 0 {
      StrlenFromBytes(d[1..], n - 1);
    }
  }

  /** Upper-casing twice is upper-casing once. */
  lemma ToUpperIdempotent(s: Option<Str>)
    ensures ToUpper(ToUpper(s)) == ToUpper(s)
  {
    if s.Some? {
      var d := s.value.data;
      FlipKeepsStrlen(d);
      forall i | 0 <= i < Strlen(d) ensures Upper(Upper(d[i])) == Upper(d[i]) {
        CaseFlipBytes(d[i]);
        CaseFlipBytes(Upper(d[i]));
      }
      assert UpperBytes(UpperBytes(d)) == UpperBytes(d);
    }
  }

  /** Lower-casing undoes upper-casing on a string with no byte from
      0x40..0x5F before its first NUL; it is the identity on strings that
      upper-casing left alone. */
  lemma LowerUndoesUpper(s: Option<Str>)
    requires s.Some? ==> forall i | 0 <= i < Strlen(s.value.data) ::
      !(0x40 <= s.value.data[i] <= 0x5F)
    ensures ToLower(ToUpper(s)) == s
  {
    if s.Some? {
      var d := s.value.data;
      FlipKeepsStrlen(d);
      forall i | 0 <= i < Strlen(d) ensures Lower(Upper(d[i])) == d[i] {
        CaseFlipBytes(d[i]);
        CaseFlipBytes(Upper(d[i]));
      }
      assert LowerBytes(UpperBytes(d)) == d;
    }
  }

  /** Upper-casing forgets a previous lower-casing. */
  lemma UpperAfterLower(s: Option<Str>)
    ensures ToUpper(ToLower(s)) == ToUpper(s)
  {
    if s.Some? {
      var d := s.value.data;
      FlipKeepsStrlen(d);
      forall i | 0 <= i < Strlen(d) ensures Upper(Lower(d[i])) == Upper(d[i]) {
        CaseFlipBytes(d[i]);
        CaseFlipBytes(Lower(d[i]));
      }
      assert UpperBytes(LowerBytes(d)) == UpperBytes(d);
    }
  }

  // ---------------------------------------------------------------------
  // Truncate and trim

  /** ina_str_truncate: the content is cut at `pos`; the reserved memory
      stays as it was. */
  function Truncate(s: Option<Str>, pos: nat): (r: Option<Str>)
    requires s.Some? ==> Valid(s.value) && pos <= |s.value.data|
    ensures r.None? <==> s.None?
    ensures r.Some? ==> (Valid(r.value) && r.value.data == s.value.data[..pos]
                         && SizeOf(r) == SizeOf(s) && r.value.backing == s.value.backing)
  {
    if s.None? then None else Some(s.value.(data := s.value.data[..pos]))
  }

  /** strchr(chars, c) != NULL: `c` occurs in the C string, or is the NUL
      that strchr finds as its terminator. */
  predicate InChars(chars: seq<Byte>, c: Byte) {
    c == 0 || c in CString(chars)
  }

  /** The forward scan: the number of leading bytes found in `chars`. */
  function Lead(d: seq<Byte>, chars: seq<Byte>): (n: nat)
    ensures n <= |d|
    ensures forall i | 0 <= i < n :: InChars(chars, d[i])
    ensures n < |d| ==> !InChars(chars, d[n])
  {
    if |d| == 0 || !InChars(chars, d[0]) then 0
    else 1 + Lead(d[1..], chars)
  }

  /** The backward scan: from index `e` down while the byte is in `chars`,
      stopping at index 0 at the latest. */
  function BackStop(d: seq<Byte>, chars: seq<Byte>, e: int): (k: int)
    requires -1 <= e < |d|
    ensures -1 <= k <= e && (0 <= e ==> 0 <= k)
    ensures forall i | k < i <= e :: InChars(chars, d[i])
    ensures 0 < k ==> !InChars(chars, d[k])
    decreases e + 1
  {
    if e > 0 && InChars(chars, d[e]) then BackStop(d, chars, e - 1) else e
  }

  /** The bytes ina_str_trim keeps. */
  function TrimBytes(d: seq<Byte>, chars: seq<Byte>): (t: seq<Byte>)
    ensures var i := Lead(d, chars);
      i + |t| <= |d| && t == d[i .. i + |t|]
      && (forall k | i + |t| <= k < |d| :: InChars(chars, d[k]))
      && (0 < |t| ==> !InChars(chars, t[0]) && !InChars(chars, t[|t| - 1]))
  {
    var sp := Lead(d, chars);
    var ep := BackStop(d, chars, |d| - 1);
    if sp > ep then [] else d[sp .. ep + 1]
  }

  /** ina_str_trim: drops the longest prefix and suffix made of bytes from
      `chars` (NUL bytes always count); a NULL `chars` changes nothing. */
  function Trim(s: Str, chars: Option<seq<Byte>>): (r: Str)
    requires Valid(s)
    ensures Valid(r) && r.size == s.size && r.backing == s.backing
    ensures chars.None? ==> r == s
    ensures chars.Some? ==> r.data == TrimBytes(s.data, chars.value)
  {
    if chars.None? then s else s.(data := TrimBytes(s.data, chars.value))
  }

  /** A slice whose end bytes are outside `chars` is left alone. */
  lemma TrimKeepsTrimmed(t: seq<Byte>, chars: seq<Byte>)
    requires 0 < |t| ==> !InChars(chars, t[0]) && !InChars(chars, t[|t| - 1])
    ensures TrimBytes(t, chars) == t
  {
    if 0 < |t| {
      assert Lead(t, chars) == 0;
      assert BackStop(t, chars, |t| - 1) == |t| - 1;
    }
  }

  /** Trimming twice is trimming once. */
  lemma TrimIdempotent(s: Str, chars: Option<seq<Byte>>)
    requires Valid(s)
    ensures Trim(Trim(s, chars), chars) == Trim(s, chars)
  {
    if chars.Some? {
      TrimKeepsTrimmed(TrimBytes(s.data, chars.value), chars.value);
    }
  }

  /** Everything is trimmed exactly when every byte is in `chars`. */
  lemma TrimEmptyIff(d: seq<Byte>, chars: seq<Byte>)
    ensures TrimBytes(d, chars) == [] <==> forall k | 0 <= k < |d| :: InChars(chars, d[k])
  {
  }

  // ---------------------------------------------------------------------
  // Substrings

  function Min(a: nat, b: nat): nat {
    if a < b then a else b
  }

  /** __ina_str_substr_internal as the source writes it, in size_t
      arithmetic: `(end - start) + 1` wraps to 0 when start is 0 and end is
      SIZE_MAX, and the clamping that follows is skipped. */
  function SubstrLenAsWritten(start: Size, end: Size, len: Size): (n: Size)
    ensures start < len ==> n <= len - start
    ensures len == 0 || start > end || start >= len ==> n == 0
  {
    if len == 0 then 0
    else
      var n := if start > end then 0 else Add(end - start, 1);
      if n == 0 then 0
      else if start >= len then 0
      else if end >= len then
        var e: int := len - 1;
        Wrap(if start > e then 0 else e - start + 1)
      else n
  }

  /** The substring length with `end` clamped to the last byte. */
  function SubstrLen(start: Size, end: Size, len: Size): (n: nat)
    ensures n == 0 <==> len == 0 || start > end || start >= len
    ensures 0 < n ==> start + n <= len
    ensures 0 < n && end < len ==> n == end - start + 1
    ensures 0 < n && len <= end ==> start + n == len
  {
    if len == 0 || start > end || start >= len then 0
    else Min(end, len - 1) - start + 1
  }

  /** The two agree on every input but one pair of bounds. */
  lemma SubstrLenAgrees(start: Size, end: Size, len: Size)
    requires !(start == 0 && end == SIZE_LIMIT - 1)
    ensures SubstrLenAsWritten(start, end, len) == SubstrLen(start, end, len)
  {
  }

  /** The pair where they disagree: asking for the whole range of size_t
      yields nothing instead of the whole string. */
  lemma SubstrWholeRangeIsEmpty(len: Size)
    requires 0 < len
    ensures SubstrLenAsWritten(0, SIZE_LIMIT - 1, len) == 0
    ensures SubstrLen(0, SIZE_LIMIT - 1, len) == len
  {
  }

  /** ina_str_substr: a fresh heap string with the bytes from `start`
      through `end`, `end` clamped to the last byte. */
  function Substr(s: Str, start: Size, end: Size): (r: Str)
    requires Valid(s) && |s.data| < SIZE_LIMIT
    ensures Valid(r) && r.backing == Heap && Available(Some(r)) == 0
    ensures start <= end < |s.data| ==> r.data == s.data[start .. end + 1]
    ensures start <= end && start < |s.data| <= end ==> r.data == s.data[start..]
    ensures end < start || |s.data| <= start ==> r.data == []
  {
    var n := SubstrLen(start, end, |s.data|);
    var tail := if start <= |s.data| then s.data[start..] else [];
    FromBlk(Some(tail), n).value
  }

  // ---------------------------------------------------------------------
  // Split

  /** `sep` occurs in `s` at index `j`. */
  predicate MatchAt(s: seq<Byte>, j: nat, sep: seq<Byte>) {
    j + |sep| <= |s| && s[j .. j + |sep|] == sep
  }

  /** The scanning loop of ina_str_split from index `j`, the current token
      starting at `start`. Only indexes below len - 1 are tried. */
  function SplitFrom(s: seq<Byte>, sep: seq<Byte>, start: nat, j: nat): (t: seq<seq<Byte>>)
    requires 0 < |sep| && start <= j <= |s|
    ensures 0 < |t|
    decreases |s| - j
  {
    if j + 1 >= |s| then [s[start..]]
    else if (|sep| == 1 && s[j] == sep[0]) || MatchAt(s, j, sep) then
      [s[start..j]] + SplitFrom(s, sep, j + |sep|, j + |sep|)
    else SplitFrom(s, sep, start, j + 1)
  }

  /** ina_str_split: the tokens (each a fresh heap string) and their count;
      NULL or empty input or separator gives no array and a count of 0. */
  function Split(str: Option<seq<Byte>>, sep: Option<seq<Byte>>): (r: (Option<seq<seq<Byte>>>, nat))
    ensures r.0.None? <==> r.1 == 0
    ensures r.0.None? <==> str.None? || sep.None? || CString(str.value) == [] || CString(sep.value) == []
    ensures r.0.Some? ==> r.1 == |r.0.value|
  {
    if str.None? || sep.None? || CString(str.value) == [] || CString(sep.value) == [] then (None, 0)
    else
      var t := SplitFrom(CString(str.value), CString(sep.value), 0, 0);
      (Some(t), |t|)
  }

  /** The tokens separated by `sep`. */
  function Join(tokens: seq<seq<Byte>>, sep: seq<Byte>): seq<Byte>
    decreases |tokens|
  {
    if |tokens| == 0 then []
    else if |tokens| == 1 then tokens[0]
    else tokens[0] + sep + Join(tokens[1..], sep)
  }

  lemma JoinCons(a: seq<Byte>, rest: seq<seq<Byte>>, sep: seq<Byte>)
    requires 0 < |rest|
    ensures Join([a] + rest, sep) == a + sep + Join(rest, sep)
  {
    assert ([a] + rest)[1..] == rest;
  }

  lemma SliceThree(s: seq<Byte>, a: nat, b: nat, c: nat)
    requires a <= b <= c <= |s|
    ensures s[a..] == s[a..b] + s[b..c] + s[c..]
  {
  }

  lemma {:induction false} SplitFromJoins(s: seq<Byte>, sep: seq<Byte>, start: nat, j: nat)
    requires 0 < |sep| && start <= j <= |s|
    ensures 0 < |SplitFrom(s, sep, start, j)|
    ensures Join(SplitFrom(s, sep, start, j), sep) == s[start..]
    decreases |s| - j
  {
    if j + 1 >= |s| {
    } else if (|sep| == 1 && s[j] == sep[0]) || MatchAt(s, j, sep) {
      var k := j + |sep|;
      assert s[j .. k] == sep;
      SplitFromJoins(s, sep, k, k);
      var rest := SplitFrom(s, sep, k, k);
      JoinCons(s[start..j], rest, sep);
      SliceThree(s, start, j, k);
    } else {
      SplitFromJoins(s, sep, start, j + 1);
    }
  }

  /** Joining the tokens with the separator gives the input back, and there
      is always at least one token. */
  lemma SplitJoins(str: seq<Byte>, sep: seq<Byte>)
    requires CString(str) != [] && CString(sep) != []
    ensures var r := Split(Some(str), Some(sep));
      r.0.Some? && 1 <= r.1 && Join(r.0.value, CString(sep)) == CString(str)
  {
    SplitFromJoins(CString(str), CString(sep), 0, 0);
  }

  /** `sep` occurs somewhere in `t`. */
  predicate Contains(t: seq<Byte>, sep: seq<Byte>) {
    exists k | 0 <= k <= |t| :: MatchAt(t, k, sep)
  }

  lemma SliceOfSlice(s: seq<Byte>, a: nat, b: nat, i: nat, j: nat)
    requires a <= b <= |s| && i <= j <= b - a
    ensures s[a..b][i..j] == s[a + i .. a + j]
  {
    forall x | 0 <= x < j - i ensures s[a..b][i..j][x] == s[a + i .. a + j][x] {
      assert s[a..b][i..j][x] == s[a..b][i + x] == s[a + i + x];
    }
  }

  /** No token but the last contains `sep`. */
  predicate SeparatorFree(t: seq<seq<Byte>>, sep: seq<Byte>) {
    forall i | 0 <= i < |t| - 1 :: !Contains(t[i], sep)
  }

  lemma {:induction false} SplitFromTokensFree(s: seq<Byte>, sep: seq<Byte>, start: nat, j: nat)
    requires 0 < |sep| && start <= j <= |s|
    requires forall k | start <= k < j :: !MatchAt(s, k, sep)
    ensures SeparatorFree(SplitFrom(s, sep, start, j), sep)
    decreases |s| - j
  {
    if j + 1 >= |s| {
    } else if (|sep| == 1 && s[j] == sep[0]) || MatchAt(s, j, sep) {
      SplitFromTokensFree(s, sep, j + |sep|, j + |sep|);
      var tok := s[start..j];
      var rest := SplitFrom(s, sep, j + |sep|, j + |sep|);
      var t := [tok] + rest;
      assert t == SplitFrom(s, sep, start, j);
      forall k | 0 <= k <= |tok| ensures !MatchAt(tok, k, sep) {
        if k + |sep| <= |tok| {
          SliceOfSlice(s, start, j, k, k + |sep|);
          assert !MatchAt(s, start + k, sep);
        }
      }
      assert !Contains(tok, sep);
      assert SeparatorFree(rest, sep);
      forall i | 0 <= i < |t| - 1 ensures !Contains(t[i], sep) {
        if i > 0 {
          assert t[i] == rest[i - 1];
        } else {
          assert t[i] == tok;
        }
      }
    } else {
      assert !MatchAt(s, j, sep);
      SplitFromTokensFree(s, sep, start, j + 1);
      assert SplitFrom(s, sep, start, j) == SplitFrom(s, sep, start, j + 1);
    }
  }

  /** Every token but the last is free of the separator: the scan splits at
      each occurrence it meets. */
  lemma SplitTokensFree(str: seq<Byte>, sep: seq<Byte>)
    requires CString(str) != [] && CString(sep) != []
    ensures SeparatorFree(Split(Some(str), Some(sep)).0.value, CString(sep))
  {
    SplitFromTokensFree(CString(str), CString(sep), 0, 0);
    assert Split(Some(str), Some(sep)).0.value == SplitFrom(CString(str), CString(sep), 0, 0);
  }

  /** A separator in the last byte is not split off: "a," gives the single
      token "a,". */
  lemma SplitIgnoresLastByte()
    ensures Split(Some([97, 44]), Some([44])) == (Some([[97, 44]]), 1)
  {
    assert CString([97 as Byte, 44]) == [97, 44];
    assert CString([44 as Byte]) == [44];
  }

  // ---------------------------------------------------------------------
  // Tokenizer

  /** What `*next` points at: nothing, the rest of the text, or the byte
      after the terminator (left there by the last token of a text). */
  datatype Cursor = NoText | Text(rest: seq<Byte>) | PastEnd

  /** A 7-bit C string: ina_str_tok indexes its bitmap with signed chars. */
  predicate Ascii(d: seq<Byte>) {
    forall i | 0 <= i < |d| :: 0 < d[i] < 128
  }

  /** The bitmap ina_str_tok builds from the separator string: the set of
      its bytes. */
  function Delims(c: seq<Byte>): (m: set<Byte>)
    ensures forall b :: b in m <==> b in c
  {
    set i | 0 <= i < |c| :: c[i]
  }

  /** The number of leading bytes in `sep`. */
  function Skip(d: seq<Byte>, sep: set<Byte>): (n: nat)
    ensures n <= |d|
    ensures forall i | 0 <= i < n :: d[i] in sep
    ensures n < |d| ==> d[n] !in sep
  {
    if |d| == 0 || d[0] !in sep then 0 else 1 + Skip(d[1..], sep)
  }

  /** The number of leading bytes not in `sep`. */
  function Span(d: seq<Byte>, sep: set<Byte>): (n: nat)
    ensures n <= |d|
    ensures forall i | 0 <= i < n :: d[i] !in sep
    ensures n < |d| ==> d[n] in sep
  {
    if |d| == 0 || d[0] in sep then 0 else 1 + Span(d[1..], sep)
  }

  /** `t` is the token found in `rest`, and `cur` the cursor left behind:
      after the delimiters that open `rest` comes `t`, a non-empty run of
      non-delimiters, ended by a delimiter the cursor skips or by the
      terminator the cursor passes. */
  predicate NextToken(rest: seq<Byte>, sep: set<Byte>, t: seq<Byte>, cur: Cursor) {
    var k := Skip(rest, sep);
    0 < |t| && k + |t| <= |rest| && t == rest[k .. k + |t|]
    && (forall i | 0 <= i < |t| :: t[i] !in sep)
    && (k + |t| == |rest| ==> cur == PastEnd)
    && (k + |t| < |rest| ==> rest[k + |t|] in sep && cur == Text(rest[k + |t| + 1..]))
  }

  /** One scan of ina_str_tok over the text `rest`. */
  function TokText(rest: seq<Byte>, sep: set<Byte>): (r: (Option<seq<Byte>>, Cursor))
    ensures r.0.Some? ==> NextToken(rest, sep, r.0.value, r.1)
    ensures r.0.None? <==> forall i | 0 <= i < |rest| :: rest[i] in sep
    ensures r.0.None? ==> r.1 == NoText
  {
    var k := Skip(rest, sep);
    if k == |rest| then (None, NoText)
    else
      var e := k + Span(rest[k..], sep);
      (Some(rest[k..e]), if e < |rest| then Text(rest[e + 1..]) else PastEnd)
  }

  /** ina_str_tok: with a usable separator, scans the given text, or the one
      the cursor holds; otherwise returns NULL and leaves the cursor. */
  function Tok(str: Option<seq<Byte>>, sep: Option<seq<Byte>>, next: Cursor): (r: (Option<seq<Byte>>, Cursor))
    requires str.Some? ==> Ascii(str.value)
    requires str.None? ==> next != PastEnd && (next.Text? ==> Ascii(next.rest))
    ensures sep.None? || CString(sep.value) == [] ==> r == (None, next)
    ensures sep.Some? && CString(sep.value) != [] && str.Some? ==>
      r == TokText(str.value, Delims(CString(sep.value)))
    ensures sep.Some? && CString(sep.value) != [] && str.None? ==>
      r == (if next.NoText? then (None, NoText) else TokText(next.rest, Delims(CString(sep.value))))
  {
    if sep.None? || CString(sep.value) == [] then (None, next)
    else
      var cur := if str.Some? then Text(str.value) else next;
      if cur.NoText? then (None, NoText)
      else TokText(cur.rest, Delims(CString(sep.value)))
  }

  /** The tokens a caller collects by calling ina_str_tok with the cursor
      until it returns NULL or the cursor has passed the terminator. Each
      token is non-empty and free of delimiters. */
  function TokAll(rest: seq<Byte>, sep: set<Byte>): (ts: seq<seq<Byte>>)
    ensures Fields(ts, sep)
    decreases |rest|
  {
    var r := TokText(rest, sep);
    if r.0.None? then []
    else
      var t := r.0.value;
      assert NextToken(rest, sep, t, r.1);
      if r.1.Text? then
        var more := TokAll(r.1.rest, sep);
        FieldsCons(t, more, sep);
        [t] + more
      else
        FieldsCons(t, [], sep);
        [t]
  }

  /** The bytes of `d` that are not delimiters. */
  function Remove(d: seq<Byte>, sep: set<Byte>): seq<Byte> {
    if |d| == 0 then []
    else (if d[0] in sep then [] else [d[0]]) + Remove(d[1..], sep)
  }

  function Flatten(ts: seq<seq<Byte>>): seq<Byte> {
    if |ts| == 0 then [] else ts[0] + Flatten(ts[1..])
  }

  lemma {:induction false} RemoveAppend(a: seq<Byte>, b: seq<Byte>, sep: set<Byte>)
    ensures Remove(a + b, sep) == Remove(a, sep) + Remove(b, sep)
    decreases |a|
  {
    if |a| == 0 {
      assert a + b == b;
    } else {
      assert (a + b)[0] == a[0] && (a + b)[1..] == a[1..] + b;
      RemoveAppend(a[1..], b, sep);
    }
  }

  lemma {:induction false} RemoveUniform(a: seq<Byte>, sep: set<Byte>)
    ensures (forall i | 0 <= i < |a| :: a[i] in sep) ==> Remove(a, sep) == []
    ensures (forall i | 0 <= i < |a| :: a[i] !in sep) ==> Remove(a, sep) == a
    decreases |a|
  {
    if |a| > 0 {
      RemoveUniform(a[1..], sep);
    }
  }

  lemma RemoveDelims(a: seq<Byte>, sep: set<Byte>)
    requires forall i | 0 <= i < |a| :: a[i] in sep
    ensures Remove(a, sep) == []
  {
    RemoveUniform(a, sep);
  }

  lemma RemoveToken(b: seq<Byte>, sep: set<Byte>)
    requires forall i | 0 <= i < |b| :: b[i] !in sep
    ensures Remove(b, sep) == b
  {
    RemoveUniform(b, sep);
  }

  /** Non-empty, delimiter-free tokens. */
  predicate Fields(ts: seq<seq<Byte>>, sep: set<Byte>) {
    forall i | 0 <= i < |ts| :: 0 < |ts[i]| && forall j | 0 <= j < |ts[i]| :: ts[i][j] !in sep
  }

  /** What one scan removes from the text: delimiters before index `k`,
      the token from `k` to `e`, and the delimiter at `e`. */
  lemma TokStep(rest: seq<Byte>, sep: set<Byte>, k: nat, e: nat)
    requires k <= e <= |rest|
    requires forall i | 0 <= i < k :: rest[i] in sep
    requires forall i | k <= i < e :: rest[i] !in sep
    requires e < |rest| ==> rest[e] in sep
    ensures e < |rest| ==> Remove(rest, sep) == rest[k..e] + Remove(rest[e + 1..], sep)
    ensures e == |rest| ==> Remove(rest, sep) == rest[k..e]
  {
    var a, b := rest[..k], rest[k..e];
    assert Remove(a, sep) == [] by {
      RemoveDelims(a, sep);
    }
    assert Remove(b, sep) == b by {
      assert forall i | 0 <= i < |b| :: b[i] == rest[k + i];
      RemoveToken(b, sep);
    }
    if e < |rest| {
      assert Remove(rest, sep) == Remove(a, sep) + Remove(b, sep) + Remove(rest[e + 1..], sep) by {
        RemoveSplit(rest, sep, k, e);
      }
    } else {
      assert Remove(rest, sep) == Remove(a, sep) + Remove(b, sep) by {
        assert rest == a + b;
        RemoveAppend(a, b, sep);
      }
    }
  }

  lemma RemoveSplit(rest: seq<Byte>, sep: set<Byte>, k: nat, e: nat)
    requires k <= e < |rest| && rest[e] in sep
    ensures Remove(rest, sep) == Remove(rest[..k], sep) + Remove(rest[k..e], sep) + Remove(rest[e + 1..], sep)
  {
    var tail := rest[e + 1..];
    assert rest == rest[..k] + rest[k..e] + [rest[e]] + tail;
    RemoveAppend(rest[..k] + rest[k..e] + [rest[e]], tail, sep);
    RemoveAppend(rest[..k] + rest[k..e], [rest[e]], sep);
    RemoveAppend(rest[..k], rest[k..e], sep);
    assert Remove([rest[e]], sep) == [];
  }

  /** One scan's token is what its text keeps before the cursor. */
  lemma TokTextRemoves(rest: seq<Byte>, sep: set<Byte>)
    requires TokText(rest, sep).0.Some?
    ensures var r := TokText(rest, sep);
      (r.1.Text? ==> Remove(rest, sep) == r.0.value + Remove(r.1.rest, sep))
      && (!r.1.Text? ==> Remove(rest, sep) == r.0.value)
  {
    var r := TokText(rest, sep);
    var t := r.0.value;
    var k := Skip(rest, sep);
    var e := k + |t|;
    assert k <= e <= |rest| && t == rest[k..e]
      && (forall i | k <= i < e :: rest[i] !in sep)
      && (e < |rest| ==> rest[e] in sep && r.1 == Text(rest[e + 1..]))
      && (e == |rest| ==> r.1 == PastEnd) by {
      assert NextToken(rest, sep, t, r.1);
      assert forall i | k <= i < e :: rest[i] == t[i - k];
    }
    TokStep(rest, sep, k, e);
  }

  lemma FlattenCons(t: seq<Byte>, ts: seq<seq<Byte>>)
    ensures Flatten([t] + ts) == t + Flatten(ts)
  {
    assert ([t] + ts)[1..] == ts;
  }

  /** Calling the tokenizer until it stops loses no byte but the
      delimiters: the tokens put together are the text without them. */
  lemma {:induction false} TokAllFlatten(rest: seq<Byte>, sep: set<Byte>)
    ensures Flatten(TokAll(rest, sep)) == Remove(rest, sep)
    decreases |rest|
  {
    var r := TokText(rest, sep);
    if r.0.None? {
      RemoveDelims(rest, sep);
    } else {
      var t := r.0.value;
      TokTextRemoves(rest, sep);
      if r.1.Text? {
        TokAllFlatten(r.1.rest, sep);
        assert TokAll(rest, sep) == [t] + TokAll(r.1.rest, sep);
        FlattenCons(t, TokAll(r.1.rest, sep));
      } else {
        assert TokAll(rest, sep) == [t];
        FlattenCons(t, []);
      }
    }
  }

  lemma FieldsCons(t: seq<Byte>, ts: seq<seq<Byte>>, sep: set<Byte>)
    requires 0 < |t| && forall j | 0 <= j < |t| :: t[j] !in sep
    requires Fields(ts, sep)
    ensures Fields([t] + ts, sep)
  {
    var q := [t] + ts;
    forall i | 0 <= i < |q|
      ensures 0 < |q[i]| && forall j | 0 <= j < |q[i]| :: q[i][j] !in sep
    {
      if i > 0 {
        assert q[i] == ts[i - 1];
      }
    }
  }

  /** The last token of a text leaves the cursor past the terminator:
      tokenizing "ab" at "," gives "ab" and a cursor the next call would
      read from beyond the string. */
  lemma TokLastTokenPastEnd()
    ensures Tok(Some([97, 98]), Some([44]), NoText) == (Some([97, 98]), PastEnd)
  {
    var ab: seq<Byte> := [97, 98];
    var comma: seq<Byte> := [44];
    assert comma[1..] == [];
    assert Strlen(comma) == 1;
    assert CString(comma) == comma;
    var d := Delims(comma);
    assert 97 !in d && 98 !in d;
    assert Skip(ab, d) == 0;
    assert ab[1..][1..] == [];
    assert Span(ab[1..], d) == 1;
    assert Span(ab, d) == 2;
    assert ab[0..2] == ab;
    assert TokText(ab, d) == (Some(ab), PastEnd);
  }

  // ---------------------------------------------------------------------
  // Searching

  /** strstr: the first index at which `needle` occurs. */
  function Find(hay: seq<Byte>, needle: seq<Byte>, from: nat): (r: Option<nat>)
    ensures r.Some? ==> from <= r.value && MatchAt(hay, r.value, needle)
    ensures r.Some? ==> forall k | from <= k < r.value :: !MatchAt(hay, k, needle)
    ensures r.None? ==> forall k | from <= k :: !MatchAt(hay, k, needle)
    decreases |hay| - from
  {
    if |hay| < from + |needle| then None
    else if MatchAt(hay, from, needle) then Some(from)
    else Find(hay, needle, from + 1)
  }

  /** ina_str_str: NULL when either string is NULL or the needle has length
      0, otherwise strstr on the two C strings. */
  function StrStr(hay: Option<Str>, needle: Option<Str>): (r: Option<nat>)
    ensures hay.None? || needle.None? || Length(needle) == 0 ==> r.None?
    ensures r.Some? ==> MatchAt(CString(hay.value.data), r.value, CString(needle.value.data))
    ensures r.Some? ==>
      forall k | 0 <= k < r.value :: !MatchAt(CString(hay.value.data), k, CString(needle.value.data))
    ensures (hay.Some? && needle.Some? && Length(needle) != 0
             && Contains(CString(hay.value.data), CString(needle.value.data))) ==> r.Some?
  {
    if hay.None? || needle.None? || Length(needle) == 0 then None
    else Find(CString(hay.value.data), CString(needle.value.data), 0)
  }

  /** ina_str_strcstr: the same with a C string needle. */
  function StrCStr(hay: Option<Str>, needle: Option<seq<Byte>>): (r: Option<nat>)
    ensures hay.None? || needle.None? || CString(needle.value) == [] ==> r.None?
    ensures r.Some? ==> MatchAt(CString(hay.value.data), r.value, CString(needle.value))
    ensures r.Some? ==>
      forall k | 0 <= k < r.value :: !MatchAt(CString(hay.value.data), k, CString(needle.value))
    ensures (hay.Some? && needle.Some? && CString(needle.value) != []
             && Contains(CString(hay.value.data), CString(needle.value))) ==> r.Some?
  {
    if hay.None? || needle.None? || CString(needle.value) == [] then None
    else Find(CString(hay.value.data), CString(needle.value), 0)
  }

  /** strrchr below index `n`: the last index holding `chr`. */
  function LastIndex(d: seq<Byte>, chr: Byte, n: nat): (r: Option<nat>)
    requires n <= |d|
    ensures r.Some? ==> r.value < n && d[r.value] == chr
    ensures r.Some? ==> forall k | r.value < k < n :: d[k] != chr
    ensures r.None? ==> forall k | 0 <= k < n :: d[k] != chr
  {
    if n == 0 then None
    else if d[n - 1] == chr then Some(n - 1)
    else LastIndex(d, chr, n - 1)
  }

  /** ina_str_rchr: the last occurrence of `chr` in the C string, and NULL
      for the NUL byte although strrchr would find the terminator. */
  function Rchr(s: Str, chr: Byte): (r: Option<nat>)
    ensures chr == 0 ==> r.None?
    ensures r.Some? ==> r.value < Strlen(s.data) && s.data[r.value] == chr
    ensures r.Some? ==> forall k | r.value < k < Strlen(s.data) :: s.data[k] != chr
    ensures r.None? && chr != 0 ==> forall k | 0 <= k < Strlen(s.data) :: s.data[k] != chr
  {
    if chr == 0 then None else LastIndex(s.data, chr, Strlen(s.data))
  }
}
