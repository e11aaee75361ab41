/** The 64-bit result codes of include/libinac-ce/error.h.

    Layout of a code, from the top bit down:
      63      error flag (set: the operation failed and was not handled)
      56..58  version       48..55  revision
      32..47  errno         24..31  user bits
      16..23  adjective     15      negate flag
      0..14   subject
    The library keeps the last code in a thread-local variable; this model has
    every operation return its code instead.
 */
module ResultCodes {

  type Code = bv64

  // Bit positions (INA_RC_BIT_*). The shifts below write them as literals.
  const BIT_E: nat := 63
  const BIT_V: nat := 56
  const BIT_R: nat := 48
  const BIT_O: nat := 32
  const BIT_U: nat := 24
  const BIT_C: nat := 16
  const BIT_N: nat := 15
  const BIT_S: nat := 0

  const SUCCESS: Code := 0

  /** INA_ERR_ERROR and INA_ERR_NOT. */
  const ERROR: Code := 1 << 63
  const NOT: Code := 1 << 15

  // Accessors (INA_RC_*).
  function EFlag(rc: Code): Code { (rc >> 63) & 0x1 }
  function Ver(rc: Code): Code { (rc >> 56) & 0x7 }
  function Rev(rc: Code): Code { (rc >> 48) & 0xFF }
  function Errno(rc: Code): (e: Code)
    ensures e < 0x1_0000 && (rc & !(0xFFFF << 32)) | (e << 32) == rc
  {
    (rc >> 32) & 0xFFFF
  }
  function UBits(rc: Code): Code { (rc >> 24) & 0xFF }
  function NFlag(rc: Code): (n: Code)
    ensures n <= 1 && (n == 1 <==> rc & NOT != 0)
  {
    (rc >> 15) & 0x1
  }
  function CodeBits(rc: Code): Code { rc & (0xFF << 16) }
  function Adj(rc: Code): Code { (rc >> 16) & 0xFF }
  function Subject(rc: Code): (s: Code)
    ensures s < 0x8000 && (rc & !0x7FFF) | s == rc
  {
    rc & 0x7FFF
  }

  /** INA_FAILED / INA_SUCCEED. */
  predicate Failed(rc: Code)
    ensures Failed(rc) <==> EFlag(rc) == 1
  {
    rc & ERROR != 0
  }

  predicate Succeeded(rc: Code)
    ensures Succeeded(rc) <==> EFlag(rc) == 0
  {
    !Failed(rc)
  }

  /** INA_ERR_<adjective>: the adjective number shifted into bits 16..23. */
  function Adjective(k: bv8): (c: Code)
    ensures Adj(c) == k as Code && NFlag(c) == 0 && Subject(c) == 0 && !Failed(c)
  {
    (k as Code) << 16
  }

  /** INA_ERR_NOT_<adjective>: INA_ERR_NOT | INA_ERR_<adjective>. */
  function Negate(c: Code): (r: Code)
    ensures NFlag(r) == 1
    ensures Adj(r) == Adj(c) && Subject(r) == Subject(c) && Failed(r) == Failed(c)
  {
    NOT | c
  }

  // Adjective numbers used by the modelled code (error.h lines 52-208).
  const ADJ_A: bv8 := 1
  const ADJ_EMPTY: bv8 := 33
  const ADJ_ENOUGH: bv8 := 36
  const ADJ_EXISTS: bv8 := 40
  const ADJ_FOUND: bv8 := 48
  const ADJ_FULL: bv8 := 49
  const ADJ_MERGED: bv8 := 72
  const ADJ_NO: bv8 := 76
  const ADJ_NO_SUCH: bv8 := 77
  const ADJ_OUT_OF: bv8 := 83
  const ADJ_SHARED: bv8 := 111
  const ADJ_VALID: bv8 := 147
  const ADJ_MATCH: bv8 := 154

  const ERR_A: Code := Adjective(ADJ_A)
  const ERR_EMPTY: Code := Adjective(ADJ_EMPTY)
  const ERR_ENOUGH: Code := Adjective(ADJ_ENOUGH)
  const ERR_EXISTS: Code := Adjective(ADJ_EXISTS)
  const ERR_FOUND: Code := Adjective(ADJ_FOUND)
  const ERR_FULL: Code := Adjective(ADJ_FULL)
  const ERR_NO: Code := Adjective(ADJ_NO)
  const ERR_NO_SUCH: Code := Adjective(ADJ_NO_SUCH)
  const ERR_OUT_OF: Code := Adjective(ADJ_OUT_OF)
  const ERR_VALID: Code := Adjective(ADJ_VALID)
  const ERR_MATCH: Code := Adjective(ADJ_MATCH)

  const ERR_NOT_A: Code := Negate(ERR_A)
  const ERR_NOT_ENOUGH: Code := Negate(ERR_ENOUGH)
  const ERR_NOT_EXISTS: Code := Negate(ERR_EXISTS)
  const ERR_NOT_FOUND: Code := Negate(ERR_FOUND)
  const ERR_NOT_VALID: Code := Negate(ERR_VALID)
  const ERR_NOT_MATCH: Code := Negate(ERR_MATCH)
  /** The alias INA_ERR_INVALID. */
  const ERR_INVALID: Code := ERR_NOT_VALID

  // Subjects (INA_ES_*, error.h lines 381-423).
  const ES_NONE: Code := 0
  const ES_ARGUMENT: Code := 2
  const ES_MEMORY: Code := 14
  const ES_POOL: Code := 16
  const ES_SIZE: Code := 19
  const ES_OPTION: Code := 31
  const ES_PATTERN: Code := 36
  const ES_OPERATION: Code := 38
  const ES_TEXT: Code := 41
  const ES_API: Code := 42
  const ES_USER_DEFINED: Code := 1024

  // Composite codes (error.h lines 432-436).
  const ERR_INVALID_ARGUMENT: Code := ERR_INVALID | ES_ARGUMENT
  const ERR_OUT_OF_MEMORY: Code := ERR_OUT_OF | ES_MEMORY
  const ERR_INVALID_PATTERN: Code := ERR_INVALID | ES_PATTERN
  const ERR_POOL_FULL: Code := ERR_FULL | ES_POOL
  const ERR_OPERATION_INVALID: Code := ES_OPERATION | ERR_INVALID

  /** The low half of a code as the library composes it: an adjective, the
      negate bit and a subject. */
  function Compose(adj: bv8, negated: bv1, subject: bv15): Code {
    ((adj as Code) << 16) | ((negated as Code) << 15) | (subject as Code)
  }

  /** INA_RC_PACK(x, e) in a build outside the library, with INA_ERROR_VER and
      INA_ERROR_REV as `ver` and `rev`. `e` is the errno after its conversion
      to 64 bits. */
  function Pack(x: Code, e: Code, ver: Code, rev: Code): (rc: Code)
    ensures Failed(rc)
  {
    ERROR | (ver << 56) | (rev << 48) | (e << 32) | x
  }

  /** INA_ERROR(x): the code the library records for error `x`, with errno 0
      and version and revision at their defaults of 0. */
  function Raise(x: Code): (rc: Code)
    ensures Failed(rc)
  {
    Pack(x, 0, 0, 0)
  }

  /** Reading back a packed code recovers the adjective, the negate flag, the
      subject and the low 16 bits of errno, and finds the error flag set and
      no user bits, whatever the version fields hold. */
  lemma PackRoundTrip(adj: bv8, negated: bv1, subject: bv15, e: Code, ver: Code, rev: Code)
    ensures var rc := Pack(Compose(adj, negated, subject), e, ver, rev);
      EFlag(rc) == 1 && Errno(rc) == e & 0xFFFF && UBits(rc) == 0
      && Adj(rc) == adj as Code && NFlag(rc) == negated as Code
      && Subject(rc) == subject as Code
  {
  }

  /** Version, revision and errno read back exactly when each fits its field. */
  lemma PackVersionRoundTrip(adj: bv8, negated: bv1, subject: bv15, e: bv16, ver: bv3, rev: bv8)
    ensures var rc := Pack(Compose(adj, negated, subject), e as Code, ver as Code, rev as Code);
      Ver(rc) == ver as Code && Rev(rc) == rev as Code && Errno(rc) == e as Code
  {
  }

  /** ina_err_clear_rc: drops the error flag and nothing else. */
  function ClearRc(rc: Code): (r: Code)
    ensures Succeeded(r)
    ensures r | ERROR == rc | ERROR
  {
    rc & !ERROR
  }

  /** Clearing twice is clearing once, and a succeeding code is left alone. */
  lemma ClearRcIdempotent(rc: Code)
    ensures ClearRc(ClearRc(rc)) == ClearRc(rc)
    ensures Succeeded(rc) ==> ClearRc(rc) == rc
  {
  }

  /** Mask of the user bits, bits 24..31. */
  const UBITS_MASK: Code := ((1 << 8) - 1) << 24

  /** ina_err_set_ubits: replaces bits 24..31 of the code. */
  function SetUBits(rc: Code, ubits: bv8): (r: Code)
    ensures r & !UBITS_MASK == rc & !UBITS_MASK
    ensures UBits(r) == ubits as Code
  {
    (rc & !UBITS_MASK) | ((ubits as Code) << 24)
  }

  /** ina_err_get_ubits. */
  function GetUBits(rc: Code): (u: bv8)
    ensures u as Code == UBits(rc)
  {
    UBits(rc) as bv8
  }

  /** Setting then getting the user bits returns them, and setting them does
      not change whether the code fails. */
  lemma UBitsRoundTrip(rc: Code, ubits: bv8)
    ensures GetUBits(SetUBits(rc, ubits)) == ubits
    ensures Failed(SetUBits(rc, ubits)) == Failed(rc)
  {
  }

  /** The composite codes decode to the words their names promise. */
  lemma CompositeCodes()
    ensures ERR_INVALID == NOT | ERR_VALID
    ensures ERR_POOL_FULL == ERR_FULL | ES_POOL
    ensures NFlag(ERR_INVALID_ARGUMENT) == 1 && Adj(ERR_INVALID_ARGUMENT) == ADJ_VALID as Code
      && Subject(ERR_INVALID_ARGUMENT) == ES_ARGUMENT
    ensures NFlag(ERR_OUT_OF_MEMORY) == 0 && Adj(ERR_OUT_OF_MEMORY) == ADJ_OUT_OF as Code
      && Subject(ERR_OUT_OF_MEMORY) == ES_MEMORY
    ensures NFlag(ERR_POOL_FULL) == 0 && Adj(ERR_POOL_FULL) == ADJ_FULL as Code
      && Subject(ERR_POOL_FULL) == ES_POOL
    ensures ERR_OPERATION_INVALID == ERR_INVALID | ES_OPERATION
  {
  }

  /** Every negated adjective is the plain adjective with the negate bit set,
      and clearing that bit gives the plain one back. */
  lemma NegatedAdjectives(k: bv8)
    ensures Negate(Adjective(k)) == NOT | ((k as Code) << 16)
    ensures Negate(Adjective(k)) & !NOT == Adjective(k)
    ensures Negate(Adjective(k)) != Adjective(k)
  {
  }
}
