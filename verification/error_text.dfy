/** The words of an error message, as src/error.c chooses them.

    `ina_err_strerror` names the subject of a code (a noun), the negation
    ("NOT" or nothing) and the adjective, and orders them either as
    noun-negation-adjective ("ARGUMENT NOT VALID") or, for a handful of
    adjectives that read better in front, as negation-adjective-noun
    ("NO SUCH FILE"). The diagnostic suffix it appends (the hexadecimal code and
    the decoded fields) is not part of this model.
 */
module ErrorText {
  import opened Wrappers
  import opened ResultCodes

  /** ina_err_subject_cb_t: maps a subject number to its name. */
  type Dictionary = int -> string

  /** The subject switch of __ina_get_subject: the fixed name of a subject
      number, or None where the switch has no case (INA_ES_SOCKET, 20, among
      them) and the default branch applies. */
  function SubjectCase(id: nat): (w: Option<string>)
    ensures w.Some? <==> id <= 42 && id != 20
    ensures w == Some("") <==> id == 0
  {
    match id
    case 0 => Some("")
    case 1 => Some("ACCESS")
    case 2 => Some("ARGUMENT")
    case 3 => Some("COMPRESSION")
    case 4 => Some("DESCRIPTOR")
    case 5 => Some("DECOMPRESSION")
    case 6 => Some("DEVICE")
    case 7 => Some("DIRECTORY")
    case 8 => Some("FILE")
    case 9 => Some("FUNCTION")
    case 10 => Some("HANDLE")
    case 11 => Some("INPUT")
    case 12 => Some("IO")
    case 13 => Some("LIMIT")
    case 14 => Some("MEMORY")
    case 15 => Some("OBJECT")
    case 16 => Some("POOL")
    case 17 => Some("POSITION")
    case 18 => Some("SCRIPT")
    case 19 => Some("SIZE")
    case 21 => Some("STRING")
    case 22 => Some("TYPE")
    case 23 => Some("VERSION")
    case 24 => Some("STATE")
    case 25 => Some("CONFIGURATION")
    case 26 => Some("SECTION")
    case 27 => Some("KEY")
    case 28 => Some("ENUMERATION")
    case 29 => Some("READ")
    case 30 => Some("WRITE")
    case 31 => Some("OPTION")
    case 32 => Some("BUFFER")
    case 33 => Some("ADDRESS")
    case 34 => Some("MAC")
    case 35 => Some("PROCESS")
    case 36 => Some("PATTERN")
    case 37 => Some("SEMAPHORE")
    case 38 => Some("OPERATION")
    case 39 => Some("TIME")
    case 40 => Some("HOST")
    case 41 => Some("TEXT")
    case 42 => Some("API")
    case _ => None
  }

  /** The adjective switch of ina_err_strerror; adjectives without a case
      read as the empty word. */
  function AdjectiveName(k: nat): (w: string)
    ensures k == 0 || 157 < k ==> |w| == 0
  {
    match k
    case 1 => "A"
    case 2 => "ACK"
    case 3 => "ACTIVE"
    case 4 => "ALIGNED"
    case 5 => "ALLOWED"
    case 6 => "ASSIGNED"
    case 7 => "ATTACHED"
    case 8 => "ATTEMPTED"
    case 9 => "AUTHORIZED"
    case 10 => "AVAILABLE"
    case 11 => "BAD"
    case 12 => "BLOCKED"
    case 13 => "BROKEN"
    case 14 => "BUILT"
    case 15 => "BUSY"
    case 16 => "CLOSED"
    case 18 => "COMPILED"
    case 19 => "COMPLETE"
    case 20 => "CONFLICTED"
    case 21 => "CONNECTED"
    case 22 => "CONSTRUCTED"
    case 23 => "CREATED"
    case 24 => "DEFINED"
    case 25 => "DENIED"
    case 27 => "DESTRUCTED"
    case 28 => "DETACHED"
    case 29 => "DETECTED"
    case 31 => "DOWN"
    case 32 => "DOWNLOADED"
    case 33 => "EMPTY"
    case 35 => "ENHANCED"
    case 36 => "ENOUGH"
    case 37 => "EXCEEDED"
    case 38 => "EXCHANGED"
    case 39 => "EXECUTABLE"
    case 40 => "EXISTS"
    case 41 => "EXPIRED"
    case 42 => "EXTENDED"
    case 43 => "FAILED"
    case 44 => "FALSE"
    case 45 => "FATAL"
    case 46 => "FORBIDDEN"
    case 47 => "FORMATTED"
    case 48 => "FOUND"
    case 49 => "FULL"
    case 50 => "GONE"
    case 51 => "GOOD"
    case 52 => "HALTED"
    case 54 => "HOLD"
    case 55 => "IDLE"
    case 56 => "ILLEGAL"
    case 57 => "IMPLEMENTED"
    case 58 => "IN PROGRESS"
    case 59 => "IN USE"
    case 60 => "INITIALIZED"
    case 62 => "INSTALLED"
    case 63 => "INTERRUPTED"
    case 65 => "KNOWN"
    case 66 => "LINKED"
    case 67 => "LOADED"
    case 68 => "LOCAL"
    case 69 => "LOCKED"
    case 70 => "LOOPED"
    case 71 => "LOST"
    case 73 => "MISSING"
    case 74 => "MOUNTED"
    case 75 => "NEEDED"
    case 76 => "NO"
    case 77 => "NO SUCH"
    case 78 => "OFF"
    case 79 => "ON"
    case 80 => "ONLINE"
    case 81 => "OPEN"
    case 82 => "ORDERED"
    case 83 => "OUT OF"
    case 84 => "OUT OF RANGE"
    case 85 => "OVERFLOW"
    case 86 => "PADDED"
    case 88 => "PERMITTED"
    case 91 => "PROCESSABLE"
    case 92 => "PROVIDED"
    case 94 => "REACHABLE"
    case 95 => "READABLE"
    case 96 => "RECEIVED"
    case 97 => "REFUSED"
    case 98 => "REGISTERED"
    case 99 => "REJECTED"
    case 100 => "RELEASED"
    case 101 => "REMOTE"
    case 103 => "RENDERABLE"
    case 104 => "RESERVED"
    case 105 => "RESET"
    case 106 => "RESPONDING"
    case 107 => "RETRIED"
    case 108 => "RIGHT"
    case 109 => "RUNNING"
    case 110 => "SENT"
    case 113 => "SPECIFIED"
    case 115 => "STALLED"
    case 116 => "STOPPED"
    case 117 => "SUCEEDED"
    case 118 => "SUITABLE"
    case 119 => "SUPPORTED"
    case 120 => "SYNCHRONIZED"
    case 121 => "TERMINATED"
    case 122 => "THROWN"
    case 123 => "TIMED OUT"
    case 124 => "TOO COMPLEX"
    case 125 => "TOO FEW"
    case 126 => "TOO LARGE"
    case 127 => "TOO LONG"
    case 128 => "TOO MANY"
    case 129 => "TOO MUCH"
    case 130 => "TOO SIMPLE"
    case 131 => "TOO SMALL"
    case 132 => "TRIGGERED"
    case 133 => "TRUE"
    case 138 => "UNIQUE"
    case 142 => "UP"
    case 143 => "UPDATED"
    case 144 => "UPGRADED"
    case 145 => "UPLOADED"
    case 146 => "USED"
    case 147 => "VALID"
    case 149 => "WORKING"
    case 150 => "WRITABLE"
    case 151 => "WRONG"
    case 152 => "END OF"
    case 153 => "RESOLVED"
    case 154 => "MATCH"
    case 155 => "TRY AGAIN"
    case 156 => "PARSED"
    case 157 => "CHANGED"
    case _ => ""
  }

  /** ina_err_register_dict: installs `cb` and hands back the callback it
      replaces. The pair is (previous callback, new registry). */
  function RegisterDict(registry: Option<Dictionary>, cb: Option<Dictionary>)
    : (r: (Option<Dictionary>, Option<Dictionary>))
    ensures r.0 == registry && r.1 == cb
  {
    (registry, cb)
  }

  /** Subject numbers the switch names. */
  predicate HasSubjectCase(id: nat) {
    SubjectCase(id).Some?
  }

  /** __ina_get_subject: the fixed name of a known subject, otherwise the
      registered dictionary's answer, otherwise "??". */
  function SubjectName(id: nat, registry: Option<Dictionary>): (name: string)
    ensures HasSubjectCase(id) ==> name == SubjectCase(id).value
    ensures !HasSubjectCase(id) && registry.Some? ==> name == registry.value(id)
    ensures !HasSubjectCase(id) && registry.None? ==> name == "??"
  {
    if HasSubjectCase(id) then SubjectCase(id).value
    else if registry.Some? then registry.value(id)
    else "??"
  }

  /** The adjective word of a code, from bits 16..23. */
  function AdjectiveWord(rc: Code): string
  {
    AdjectiveName(Adj(rc) as nat)
  }

  /** The negation word: "NOT" exactly when bit 15 is set. */
  function NegationWord(rc: Code): (w: string)
    ensures w == "NOT" <==> NFlag(rc) == 1
    ensures w == "" <==> NFlag(rc) == 0
  {
    if rc & NOT != 0 then "NOT" else ""
  }

  /** Bits 16..24 of the code, the "type" the order test looks at. Note the
      mask reaches one bit past the adjective, into the user bits, and stops
      short of the negate bit. */
  function TypeBits(rc: Code): Code {
    rc & (0x1FF << 16)
  }

  /** Whether the negation-adjective-noun order is used: the type is A,
      NOT_A, NO, NO_SUCH, ENOUGH or NOT_ENOUGH. */
  predicate SpecialOrder(rc: Code) {
    var t := TypeBits(rc);
    t == ERR_A || t == ERR_NOT_A || t == ERR_NO || t == ERR_NO_SUCH
    || t == ERR_ENOUGH || t == ERR_NOT_ENOUGH
  }

  /** The three words in the order they are printed. */
  datatype Words = Words(first: string, second: string, third: string)

  /** The word selection of ina_err_strerror: nothing for a succeeding code,
      otherwise the noun, negation and adjective in one of the two orders. */
  function MessageWords(rc: Code, registry: Option<Dictionary>): (r: Option<Words>)
    ensures r.None? <==> Succeeded(rc)
    ensures r.Some? && SpecialOrder(rc) ==>
      r.value == Words(NegationWord(rc), AdjectiveWord(rc), SubjectName(Subject(rc) as nat, registry))
    ensures r.Some? && !SpecialOrder(rc) ==>
      r.value == Words(SubjectName(Subject(rc) as nat, registry), NegationWord(rc), AdjectiveWord(rc))
  {
    if Succeeded(rc) then None
    else
      var noun := SubjectName(Subject(rc) as nat, registry);
      var neg := NegationWord(rc);
      var adj := AdjectiveWord(rc);
      if SpecialOrder(rc) then Some(Words(neg, adj, noun)) else Some(Words(noun, neg, adj))
  }

  /** The "%s%s%s%s%s" head of the message: each of the first two words is
      followed by a space unless it is empty. */
  function Headline(w: Words): (s: string)
    ensures |s| == |w.first| + |w.second| + |w.third|
      + (if w.first == "" then 0 else 1) + (if w.second == "" then 0 else 1)
    ensures s[..|w.first|] == w.first && s[|s| - |w.third|..] == w.third
  {
    w.first + (if w.first == "" then "" else " ")
    + w.second + (if w.second == "" then "" else " ")
    + w.third
  }

  /** The words part of ina_err_strerror: empty for a succeeding code. */
  function StrError(rc: Code, registry: Option<Dictionary>): (s: string)
    ensures Succeeded(rc) ==> s == ""
    ensures Failed(rc) ==> s == Headline(MessageWords(rc, registry).value)
  {
    match MessageWords(rc, registry)
    case None => ""
    case Some(w) => Headline(w)
  }

  /** The special order is chosen exactly for the adjectives A, NO, NO_SUCH
      and ENOUGH, and only when user bit 24 is clear; the negate bit plays no
      part. */
  lemma SpecialOrderIff(rc: Code)
    ensures SpecialOrder(rc) <==>
      (Adj(rc) == ADJ_A as Code || Adj(rc) == ADJ_NO as Code || Adj(rc) == ADJ_NO_SUCH as Code
       || Adj(rc) == ADJ_ENOUGH as Code) && (rc >> 24) & 1 == 0
  {
  }

  /** The NOT_A and NOT_ENOUGH comparisons can never succeed: the type mask
      does not cover the negate bit those constants carry. */
  lemma NegatedComparisonsNeverMatch(rc: Code)
    ensures TypeBits(rc) != ERR_NOT_A && TypeBits(rc) != ERR_NOT_ENOUGH
  {
  }

  /** The negate bit does not change which order is used. */
  lemma OrderIgnoresNegation(rc: Code)
    ensures SpecialOrder(rc | NOT) == SpecialOrder(rc & !NOT)
  {
  }

  /** A subject the switch names is never looked up in the dictionary. */
  lemma KnownSubjectsIgnoreDictionary(id: nat, r1: Option<Dictionary>, r2: Option<Dictionary>)
    requires HasSubjectCase(id)
    ensures SubjectName(id, r1) == SubjectName(id, r2)
  {
  }

  /** Registering twice returns the first callback on the second call. */
  lemma RegisterReturnsPrevious(d0: Option<Dictionary>, a: Option<Dictionary>, b: Option<Dictionary>)
    ensures RegisterDict(RegisterDict(d0, a).1, b).0 == a
  {
  }

  /** INA_ERR_INVALID_ARGUMENT reads noun first. */
  lemma ExampleInvalidArgument()
    ensures StrError(Raise(ERR_INVALID_ARGUMENT), None) == "ARGUMENT NOT VALID"
  {
  }

  /** INA_ERR_OUT_OF_MEMORY has no negation word and no double space. */
  lemma ExampleOutOfMemory()
    ensures StrError(Raise(ERR_OUT_OF_MEMORY), None) == "MEMORY OUT OF"
  {
  }

  /** INA_ERR_POOL_FULL. */
  lemma ExamplePoolFull()
    ensures StrError(Raise(ERR_POOL_FULL), None) == "POOL FULL"
  {
    var rc := Raise(ERR_POOL_FULL);
    assert rc == 0x8000_0000_0031_0010;
    assert Subject(rc) == 16 && Adj(rc) == 49 && NFlag(rc) == 0;
    assert !SpecialOrder(rc);
  }

  /** NO_SUCH puts the adjective in front. */
  lemma ExampleNoSuchFile()
    ensures StrError(Raise(ERR_NO_SUCH | 8), None) == "NO SUCH FILE"
  {
  }

  /** NOT_A puts the negation and adjective in front. */
  lemma ExampleNotAFile()
    ensures StrError(Raise(ERR_NOT_A | 8), None) == "NOT A FILE"
  {
  }

  /** NOT_ENOUGH likewise. */
  lemma ExampleNotEnoughMemory()
    ensures StrError(Raise(ERR_NOT_ENOUGH | ES_MEMORY), None) == "NOT ENOUGH MEMORY"
  {
  }

  /** An adjective without a case leaves the trailing space of the noun. */
  lemma ExampleSharedPool()
    ensures StrError(Raise(Adjective(ADJ_SHARED) | ES_POOL), None) == "POOL "
  {
  }

  /** SOCKET has no case, so without a dictionary it reads "??". */
  lemma ExampleUnknownSubject()
    ensures StrError(Raise(ERR_FULL | 20), None) == "?? FULL"
  {
  }

  /** A cleared code has no message. */
  lemma ExampleCleared()
    ensures StrError(ClearRc(Raise(ERR_POOL_FULL)), None) == ""
  {
  }
}
