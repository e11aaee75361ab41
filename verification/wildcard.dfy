/** ina_str_wildcard_match (src/string.c:702-785): Kirk J. Krauss's
    single-pass matcher for patterns in which `?` stands for one character and
    `*` for any run of characters.

    The loop walks two C strings with a tame cursor `t`, a wild cursor `w` and,
    once a star has been passed, a pair of bookmarks. Each pass of the loop is
    one `Step` here, and `RunAsWritten` iterates the steps. Reading a byte at
    the terminator's index yields 0; reading beyond it is undefined behaviour
    in C and ends the run with `ReadsPastEnd`.

    `Glob` is the meaning the header gives the two wildcard characters. The
    code as written is sound against it but misses matches and can read past
    both terminators; `StepFixed` is the corrected loop, proved to decide
    `Glob` exactly.
 */
module Wildcard {
  import opened Wrappers
  import opened ResultCodes
  import DynString

  type Byte = DynString.Byte

  /** '*' */
  const STAR: Byte := 0x2A
  /** '?' */
  const ANY: Byte := 0x3F

  // ---------------------------------------------------------------------
  // The meaning of a pattern
  // ---------------------------------------------------------------------

  /** The text from index `t` on matches the pattern from index `w` on: a star
      matches any run, possibly empty; `?` matches any one byte; every other
      byte matches itself. */
  predicate GlobAt(T: seq<Byte>, W: seq<Byte>, t: nat, w: nat)
    requires t <= |T| && w <= |W|
    decreases |T| - t + |W| - w
  {
    if w == |W| then t == |T|
    else if W[w] == STAR then GlobAt(T, W, t, w + 1) || (t < |T| && GlobAt(T, W, t + 1, w))
    else t < |T| && (W[w] == ANY || W[w] == T[t]) && GlobAt(T, W, t + 1, w + 1)
  }

  predicate Glob(T: seq<Byte>, W: seq<Byte>) {
    GlobAt(T, W, 0, 0)
  }

  /** Some suffix of the text starting at `t` or later matches the pattern
      from `w` on. */
  predicate From(T: seq<Byte>, W: seq<Byte>, t: nat, w: nat)
    requires w <= |W|
  {
    exists k | t <= k <= |T| :: GlobAt(T, W, k, w)
  }

  predicate Stars(W: seq<Byte>, a: nat, b: nat)
    requires a <= b <= |W|
  {
    forall i | a <= i < b :: W[i] == STAR
  }

  predicate NoStar(W: seq<Byte>, a: nat, b: nat)
    requires a <= b <= |W|
  {
    forall i | a <= i < b :: W[i] != STAR
  }

  /** The exhausted text matches exactly the patterns made of stars alone. */
  lemma {:induction false} EmptyText(T: seq<Byte>, W: seq<Byte>, w: nat)
    requires w <= |W|
    ensures GlobAt(T, W, |T|, w) <==> Stars(W, w, |W|)
    decreases |W| - w
  {
    if w < |W| {
      EmptyText(T, W, w + 1);
    }
  }

  /** One star matches any run: the text matches `*` followed by a rest iff
      some later suffix matches the rest. */
  lemma {:induction false} StarRun(T: seq<Byte>, W: seq<Byte>, t: nat, w: nat)
    requires t <= |T| && w < |W| && W[w] == STAR
    ensures GlobAt(T, W, t, w) <==> From(T, W, t, w + 1)
    decreases |T| - t
  {
    if t < |T| {
      StarRun(T, W, t + 1, w);
      if GlobAt(T, W, t, w + 1) {
        assert t <= t <= |T| && GlobAt(T, W, t, w + 1);
      }
      if From(T, W, t, w + 1) {
        var k :| t <= k <= |T| && GlobAt(T, W, k, w + 1);
        if k > t {
          assert From(T, W, t + 1, w + 1);
        }
      }
    } else {
      if GlobAt(T, W, t, w + 1) {
        assert t <= t <= |T| && GlobAt(T, W, t, w + 1);
      }
    }
  }

  /** Two stars in a row match what one star matches ("xy" matches "x**y"). */
  lemma StarStar(T: seq<Byte>, W: seq<Byte>, t: nat, w: nat)
    requires t <= |T| && w + 1 < |W| && W[w] == STAR && W[w + 1] == STAR
    ensures GlobAt(T, W, t, w) <==> GlobAt(T, W, t, w + 1)
  {
    StarRun(T, W, t, w);
    StarRun(T, W, t, w + 1);
    if GlobAt(T, W, t, w) {
      var k :| t <= k <= |T| && GlobAt(T, W, k, w + 1);
      StarRun(T, W, k, w + 1);
      var m :| k <= m <= |T| && GlobAt(T, W, m, w + 2);
      assert From(T, W, t, w + 2);
    }
  }

  /** A run of stars behaves as one star. */
  lemma {:induction false} StarsRun(T: seq<Byte>, W: seq<Byte>, t: nat, w: nat, v: nat)
    requires t <= |T| && w < v <= |W| && Stars(W, w, v)
    ensures GlobAt(T, W, t, w) <==> From(T, W, t, v)
    decreases v - w
  {
    if v == w + 1 {
      StarRun(T, W, t, w);
    } else {
      StarStar(T, W, t, w);
      StarsRun(T, W, t, w + 1, v);
    }
  }

  /** A star-free stretch of pattern consumes exactly as many bytes of text. */
  lemma {:induction false} LiteralRun(T: seq<Byte>, W: seq<Byte>, k: nat, a: nat, b: nat)
    requires k <= |T| && a <= b <= |W| && NoStar(W, a, b)
    ensures GlobAt(T, W, k, a) ==> k + (b - a) <= |T| && GlobAt(T, W, k + (b - a), b)
    decreases b - a
  {
    if a < b && GlobAt(T, W, k, a) {
      LiteralRun(T, W, k + 1, a + 1, b);
    }
  }

  /** Splitting off the first candidate suffix. */
  lemma FromSplit(T: seq<Byte>, W: seq<Byte>, t: nat, w: nat)
    requires t <= |T| && w <= |W|
    ensures From(T, W, t, w) <==> GlobAt(T, W, t, w) || From(T, W, t + 1, w)
  {
    if From(T, W, t, w) && !GlobAt(T, W, t, w) {
      var k :| t <= k <= |T| && GlobAt(T, W, k, w);
      assert t + 1 <= k;
    }
    if GlobAt(T, W, t, w) {
      assert t <= t <= |T| && GlobAt(T, W, t, w);
    }
  }

  /** Candidates that cannot match can be skipped. */
  lemma FromSkip(T: seq<Byte>, W: seq<Byte>, t: nat, u: nat, w: nat)
    requires t <= u <= |T| && w <= |W|
    requires forall i | t <= i < u :: !GlobAt(T, W, i, w)
    ensures From(T, W, t, w) <==> From(T, W, u, w)
  {
    if From(T, W, t, w) {
      var k :| t <= k <= |T| && GlobAt(T, W, k, w);
      assert u <= k;
    }
  }

  // ---------------------------------------------------------------------
  // The loop's building blocks
  // ---------------------------------------------------------------------

  /** `while (*(++pWildText) == '*')`: the first index at or after `w` that
      does not hold a star; the terminator stops the scan. */
  function SkipStars(W: seq<Byte>, w: nat): (v: nat)
    requires w <= |W|
    ensures w <= v <= |W| && Stars(W, w, v)
    ensures v < |W| ==> W[v] != STAR
    decreases |W| - w
  {
    if w < |W| && W[w] == STAR then SkipStars(W, w + 1) else w
  }

  datatype Forward = Found(at: nat) | Exhausted | Overrun

  /** The fast-forward loop: `while (*t != c) { if (!*(++t)) fail; }`. When it
      starts on the terminator the first increment already steps past it. */
  function FastForward(T: seq<Byte>, t: nat, c: Byte): (r: Forward)
    requires t <= |T| && c != 0
    ensures r.Found? ==> t <= r.at < |T| && T[r.at] == c
    ensures r.Found? ==> forall i | t <= i < r.at :: T[i] != c
    ensures r.Exhausted? ==> forall i | t <= i < |T| :: T[i] != c
    ensures r.Overrun? <==> t == |T|
    decreases |T| - t
  {
    if t == |T| then Overrun
    else if T[t] == c then Found(t)
    else if t + 1 == |T| then Exhausted
    else FastForward(T, t + 1, c)
  }

  datatype Verdict = Matches | NoMatch | ReadsPastEnd

  /** pTameBookmark and pWildBookmark, which are set together. */
  datatype Bookmark = Bookmark(tame: nat, wild: nat)

  datatype State = State(t: nat, w: nat, marks: Option<Bookmark>)

  datatype Step = Done(verdict: Verdict) | Next(state: State)

  /** What holds at the head of the loop: the cursors are within the strings,
      and a wild bookmark sits just after a run of stars, on a byte that is
      neither a star nor the terminator. */
  predicate Inv(T: seq<Byte>, W: seq<Byte>, s: State) {
    DynString.NoNul(T) && DynString.NoNul(W) && s.t <= |T| && s.w <= |W|
    && (s.marks.Some? ==>
          var b := s.marks.value;
          b.tame <= s.t && 0 < b.wild <= s.w && b.wild < |W|
          && W[b.wild] != STAR && W[b.wild - 1] == STAR)
  }

  /** Ranks of a loop-head state: every pass of the loop lowers them
      lexicographically. */
  function MarkRank(T: seq<Byte>, W: seq<Byte>, s: State): nat
    requires Inv(T, W, s)
  {
    if s.marks.None? then |W| + 1 else |W| - s.marks.value.wild
  }

  function RetryRank(T: seq<Byte>, W: seq<Byte>, s: State): nat
    requires Inv(T, W, s)
  {
    if s.marks.None? then |T| + 1 else |T| - s.marks.value.tame
  }

  function TameRank(T: seq<Byte>, W: seq<Byte>, s: State): nat
    requires Inv(T, W, s)
  {
    |T| - s.t
  }

  predicate Below(T: seq<Byte>, W: seq<Byte>, s2: State, s: State)
    requires Inv(T, W, s2) && Inv(T, W, s)
  {
    MarkRank(T, W, s2) < MarkRank(T, W, s)
    || (MarkRank(T, W, s2) == MarkRank(T, W, s)
        && (RetryRank(T, W, s2) < RetryRank(T, W, s)
            || (RetryRank(T, W, s2) == RetryRank(T, W, s) && TameRank(T, W, s2) < TameRank(T, W, s))))
  }

  /** `pTameText++; pWildText++;` and the end-of-text test after it: once the
      text is used up, the rest of the pattern must be stars. Stepping over
      the tame terminator reads past it. */
  function Advance(T: seq<Byte>, W: seq<Byte>, t: nat, w: nat, marks: Option<Bookmark>): (r: Step)
    requires t <= |T| && w <= |W|
    requires t < |T| ==> w < |W|
    ensures r.Next? ==> r.state == State(t + 1, w + 1, marks) && t + 1 < |T|
    ensures r == Done(ReadsPastEnd) <==> t == |T|
    ensures r.Done? && t < |T| ==> t + 1 == |T| && (r.verdict == Matches <==> Stars(W, w + 1, |W|))
  {
    if t + 1 > |T| then Done(ReadsPastEnd)
    else if t + 1 == |T| then
      if SkipStars(W, w + 1) == |W| then Done(Matches) else Done(NoMatch)
    else Next(State(t + 1, w + 1, marks))
  }

  // ---------------------------------------------------------------------
  // The loop as written
  // ---------------------------------------------------------------------

  /** One pass of the loop of src/string.c:712-784. On a mismatch after a
      star it either backs off to the byte after the tame bookmark or, when
      the current text byte equals the byte after the star, jumps to the
      second pattern byte and carries on from the next text byte. */
  function StepAsWritten(T: seq<Byte>, W: seq<Byte>, s: State): (r: Step)
    requires Inv(T, W, s)
    ensures r.Next? ==> Inv(T, W, r.state) && Below(T, W, r.state, s)
  {
    var t, w := s.t, s.w;
    if DynString.At(W, w) == STAR then
      var v := SkipStars(W, w + 1);
      if v == |W| then Done(Matches)
      else if W[v] != ANY then
        match FastForward(T, t, W[v])
        case Overrun => Done(ReadsPastEnd)
        case Exhausted => Done(NoMatch)
        case Found(u) => Advance(T, W, u, v, Some(Bookmark(u, v)))
      else Advance(T, W, t, v, Some(Bookmark(t, v)))
    else if DynString.At(T, t) != DynString.At(W, w) && DynString.At(W, w) != ANY then
      match s.marks
      case None => Done(NoMatch)
      case Some(b) =>
        if w != b.wild && DynString.At(T, t) != W[b.wild] then
          if b.tame + 1 > |T| then Done(ReadsPastEnd)
          else Next(State(b.tame + 1, b.wild, Some(Bookmark(b.tame + 1, b.wild))))
        else if DynString.At(T, t) != 0 then
          Next(State(t + 1, if w != b.wild then b.wild + 1 else w, s.marks))
        else Done(NoMatch)
    else Advance(T, W, t, w, s.marks)
  }

  /** The loop as written, run from `s` to its verdict. From a state that
      can only lead to a real match, a reported match is a real one. */
  function RunAsWritten(T: seq<Byte>, W: seq<Byte>, s: State): (v: Verdict)
    requires Inv(T, W, s)
    ensures Sound(T, W, s) && v == Matches ==> Glob(T, W)
    decreases MarkRank(T, W, s), RetryRank(T, W, s), TameRank(T, W, s)
  {
    var r := StepAsWritten(T, W, s);
    assert Sound(T, W, s) ==> (r.Next? ==> Sound(T, W, r.state)) && (r == Done(Matches) ==> Glob(T, W)) by {
      if Sound(T, W, s) {
        StepSound(T, W, s);
      }
    }
    match r
    case Done(v) => v
    case Next(s2) => RunAsWritten(T, W, s2)
  }

  /** The matcher as written, on the C strings `tame` and `wildcard`.
      Whenever it reports a match, the pattern matches. */
  function MatchAsWritten(tame: seq<Byte>, wild: seq<Byte>): (v: Verdict)
    ensures v == Matches ==> Glob(DynString.CString(tame), DynString.CString(wild))
  {
    RunAsWritten(DynString.CString(tame), DynString.CString(wild), State(0, 0, None))
  }

  /** What the loop as written keeps: the current position can only lead to
      a real match, and so can every later text position for the pattern
      after the last star. */
  predicate Sound(T: seq<Byte>, W: seq<Byte>, s: State)
    requires Inv(T, W, s)
  {
    (GlobAt(T, W, s.t, s.w) ==> Glob(T, W))
    && (s.marks.Some? ==>
          forall k | s.marks.value.tame <= k <= |T| ::
            GlobAt(T, W, k, s.marks.value.wild) ==> Glob(T, W))
  }

  lemma AdvanceSound(T: seq<Byte>, W: seq<Byte>, t: nat, w: nat, marks: Option<Bookmark>)
    requires Inv(T, W, State(t, w, marks)) && Sound(T, W, State(t, w, marks))
    requires w < |W| && W[w] != STAR && (t < |T| ==> W[w] == ANY || W[w] == T[t])
    ensures Advance(T, W, t, w, marks).Next? ==> Inv(T, W, State(t + 1, w + 1, marks)) && Sound(T, W, State(t + 1, w + 1, marks))
    ensures Advance(T, W, t, w, marks) == Done(Matches) ==> Glob(T, W)
  {
    if t < |T| {
      if t + 1 == |T| {
        EmptyText(T, W, w + 1);
      }
    }
  }

  lemma StarSound(T: seq<Byte>, W: seq<Byte>, s: State)
    requires Inv(T, W, s) && Sound(T, W, s) && DynString.At(W, s.w) == STAR
    ensures StepAsWritten(T, W, s).Next? ==> Sound(T, W, StepAsWritten(T, W, s).state)
    ensures StepAsWritten(T, W, s) == Done(Matches) ==> Glob(T, W)
  {
    var t, w := s.t, s.w;
    var v := SkipStars(W, w + 1);
    StarsRun(T, W, t, w, v);
    forall k | t <= k <= |T| && GlobAt(T, W, k, v)
      ensures Glob(T, W)
    {
      assert From(T, W, t, v);
    }
    if v == |W| {
      assert GlobAt(T, W, |T|, v);
    } else if W[v] != ANY {
      var f := FastForward(T, t, W[v]);
      if f.Found? {
        AdvanceSound(T, W, f.at, v, Some(Bookmark(f.at, v)));
      }
    } else {
      AdvanceSound(T, W, t, v, Some(Bookmark(t, v)));
    }
  }

  lemma MismatchSound(T: seq<Byte>, W: seq<Byte>, s: State)
    requires Inv(T, W, s) && Sound(T, W, s) && DynString.At(W, s.w) != STAR
    requires DynString.At(T, s.t) != DynString.At(W, s.w) && DynString.At(W, s.w) != ANY
    ensures StepAsWritten(T, W, s).Next? ==> Sound(T, W, StepAsWritten(T, W, s).state)
    ensures StepAsWritten(T, W, s) != Done(Matches)
  {
    if s.marks.Some? {
      var b := s.marks.value;
      if !(s.w != b.wild && DynString.At(T, s.t) != W[b.wild]) && s.t < |T| && s.w != b.wild {
        assert GlobAt(T, W, s.t + 1, b.wild + 1) ==> GlobAt(T, W, s.t, b.wild);
      }
    }
  }

  lemma StepSound(T: seq<Byte>, W: seq<Byte>, s: State)
    requires Inv(T, W, s) && Sound(T, W, s)
    ensures StepAsWritten(T, W, s).Next? ==> Sound(T, W, StepAsWritten(T, W, s).state)
    ensures StepAsWritten(T, W, s) == Done(Matches) ==> Glob(T, W)
  {
    if DynString.At(W, s.w) == STAR {
      StarSound(T, W, s);
    } else if DynString.At(T, s.t) != DynString.At(W, s.w) && DynString.At(W, s.w) != ANY {
      MismatchSound(T, W, s);
    } else if s.w < |W| {
      AdvanceSound(T, W, s.t, s.w, s.marks);
    }
  }

  // ---------------------------------------------------------------------
  // The corrected loop
  // ---------------------------------------------------------------------

  /** The corrected loop also keeps the text cursor before the terminator
      and the stretch of pattern since the bookmark free of stars, matched
      byte for byte against the text since the tame bookmark. */
  predicate InvFixed(T: seq<Byte>, W: seq<Byte>, s: State) {
    Inv(T, W, s) && s.t < |T|
    && (s.marks.Some? ==>
          s.t - s.marks.value.tame == s.w - s.marks.value.wild
          && NoStar(W, s.marks.value.wild, s.w))
  }

  /** One pass of the corrected loop: every mismatch after a star backs off
      to the byte after the tame bookmark and retries the pattern from the
      wild bookmark, and the back-off stops at the end of the text. */
  function StepFixed(T: seq<Byte>, W: seq<Byte>, s: State): (r: Step)
    requires InvFixed(T, W, s)
    ensures r.Next? ==> InvFixed(T, W, r.state) && Below(T, W, r.state, s)
    ensures r != Done(ReadsPastEnd)
  {
    var t, w := s.t, s.w;
    if DynString.At(W, w) == STAR then
      var v := SkipStars(W, w + 1);
      if v == |W| then Done(Matches)
      else if W[v] != ANY then
        var f := FastForward(T, t, W[v]);
        if f.Found? then Advance(T, W, f.at, v, Some(Bookmark(f.at, v)))
        else Done(NoMatch)
      else Advance(T, W, t, v, Some(Bookmark(t, v)))
    else if T[t] != DynString.At(W, w) && DynString.At(W, w) != ANY then
      match s.marks
      case None => Done(NoMatch)
      case Some(b) =>
        if b.tame + 1 == |T| then Done(NoMatch)
        else Next(State(b.tame + 1, b.wild, Some(Bookmark(b.tame + 1, b.wild))))
    else Advance(T, W, t, w, s.marks)
  }

  function RunFixed(T: seq<Byte>, W: seq<Byte>, s: State): (v: Verdict)
    requires InvFixed(T, W, s)
    ensures v != ReadsPastEnd
    decreases MarkRank(T, W, s), RetryRank(T, W, s), TameRank(T, W, s)
  {
    match StepFixed(T, W, s)
    case Done(v) => v
    case Next(s2) => RunFixed(T, W, s2)
  }

  /** What the corrected loop keeps: the pattern matches iff the current
      attempt succeeds or the pattern after the last star matches a suffix
      starting past the tame bookmark. */
  predicate Keeps(T: seq<Byte>, W: seq<Byte>, s: State)
    requires Inv(T, W, s)
  {
    Glob(T, W)
    == (GlobAt(T, W, s.t, s.w)
        || (s.marks.Some? && From(T, W, s.marks.value.tame + 1, s.marks.value.wild)))
  }

  /** The last text byte has been matched while a bookmark is set: a later
      start cannot leave room for the star-free stretch since it. */
  lemma NoLaterStart(T: seq<Byte>, W: seq<Byte>, t: nat, w: nat, b: Bookmark)
    requires t + 1 == |T| && w < |W| && b.tame <= t && b.wild <= w + 1
    requires t - b.tame == w - b.wild && NoStar(W, b.wild, w + 1)
    ensures !From(T, W, b.tame + 1, b.wild)
  {
    forall k | b.tame + 1 <= k <= |T|
      ensures !GlobAt(T, W, k, b.wild)
    {
      LiteralRun(T, W, k, b.wild, w + 1);
    }
  }

  lemma AdvanceKeeps(T: seq<Byte>, W: seq<Byte>, t: nat, w: nat, marks: Option<Bookmark>)
    requires InvFixed(T, W, State(t, w, marks))
    requires w < |W| && W[w] != STAR && (W[w] == ANY || W[w] == T[t])
    requires Keeps(T, W, State(t, w, marks))
    ensures Advance(T, W, t, w, marks).Next? ==> Keeps(T, W, State(t + 1, w + 1, marks))
    ensures Advance(T, W, t, w, marks).Done? ==> (Advance(T, W, t, w, marks).verdict == Matches <==> Glob(T, W))
  {
    if t + 1 == |T| {
      EmptyText(T, W, w + 1);
      if marks.Some? {
        NoLaterStart(T, W, t, w, marks.value);
      }
    }
  }

  /** After a run of stars the goal is a match of the rest anywhere later. */
  lemma StarGoal(T: seq<Byte>, W: seq<Byte>, s: State, v: nat)
    requires InvFixed(T, W, s) && Keeps(T, W, s) && DynString.At(W, s.w) == STAR
    requires v == SkipStars(W, s.w + 1)
    ensures Glob(T, W) == From(T, W, s.t, v)
  {
    var t, w := s.t, s.w;
    StarsRun(T, W, t, w, v);
    if s.marks.Some? {
      var b := s.marks.value;
      if From(T, W, b.tame + 1, b.wild) {
        var k :| b.tame + 1 <= k <= |T| && GlobAt(T, W, k, b.wild);
        LiteralRun(T, W, k, b.wild, w);
        StarsRun(T, W, k + (w - b.wild), w, v);
        var m :| k + (w - b.wild) <= m <= |T| && GlobAt(T, W, m, v);
        assert t <= m;
      }
    }
  }

  lemma StarKeeps(T: seq<Byte>, W: seq<Byte>, s: State)
    requires InvFixed(T, W, s) && Keeps(T, W, s) && DynString.At(W, s.w) == STAR
    ensures StepFixed(T, W, s).Next? ==> Keeps(T, W, StepFixed(T, W, s).state)
    ensures StepFixed(T, W, s).Done? ==> (StepFixed(T, W, s).verdict == Matches <==> Glob(T, W))
  {
    var t := s.t;
    var v := SkipStars(W, s.w + 1);
    StarGoal(T, W, s, v);
    if v == |W| {
      assert GlobAt(T, W, |T|, v);
    } else {
      EmptyText(T, W, v);
      if W[v] != ANY {
        var f := FastForward(T, t, W[v]);
        if f.Found? {
          FromSkip(T, W, t, f.at, v);
          FromSplit(T, W, f.at, v);
          AdvanceKeeps(T, W, f.at, v, Some(Bookmark(f.at, v)));
        } else {
          FromSkip(T, W, t, |T|, v);
        }
      } else {
        FromSplit(T, W, t, v);
        AdvanceKeeps(T, W, t, v, Some(Bookmark(t, v)));
      }
    }
  }

  lemma MismatchKeeps(T: seq<Byte>, W: seq<Byte>, s: State)
    requires InvFixed(T, W, s) && Keeps(T, W, s) && DynString.At(W, s.w) != STAR
    requires T[s.t] != DynString.At(W, s.w) && DynString.At(W, s.w) != ANY
    ensures StepFixed(T, W, s).Next? ==> Keeps(T, W, StepFixed(T, W, s).state)
    ensures StepFixed(T, W, s).Done? ==> (StepFixed(T, W, s).verdict == Matches <==> Glob(T, W))
  {
    assert !GlobAt(T, W, s.t, s.w);
    if s.marks.Some? {
      var b := s.marks.value;
      FromSplit(T, W, b.tame + 1, b.wild);
      if b.tame + 1 == |T| {
        EmptyText(T, W, b.wild);
      }
    }
  }

  lemma StepKeeps(T: seq<Byte>, W: seq<Byte>, s: State)
    requires InvFixed(T, W, s) && Keeps(T, W, s)
    ensures StepFixed(T, W, s).Next? ==> Keeps(T, W, StepFixed(T, W, s).state)
    ensures StepFixed(T, W, s).Done? ==> (StepFixed(T, W, s).verdict == Matches <==> Glob(T, W))
  {
    if DynString.At(W, s.w) == STAR {
      StarKeeps(T, W, s);
    } else if T[s.t] != DynString.At(W, s.w) && DynString.At(W, s.w) != ANY {
      MismatchKeeps(T, W, s);
    } else {
      AdvanceKeeps(T, W, s.t, s.w, s.marks);
    }
  }

  lemma {:induction false} RunFixedDecides(T: seq<Byte>, W: seq<Byte>, s: State)
    requires InvFixed(T, W, s) && Keeps(T, W, s)
    ensures RunFixed(T, W, s) == Matches <==> Glob(T, W)
    decreases MarkRank(T, W, s), RetryRank(T, W, s), TameRank(T, W, s)
  {
    StepKeeps(T, W, s);
    var r := StepFixed(T, W, s);
    if r.Next? {
      RunFixedDecides(T, W, r.state);
    }
  }

  /** The corrected matcher's decision on two C strings. An empty text
      matches exactly the all-star patterns; the loop itself needs a text
      byte to stand on. */
  function FixedMatches(T: seq<Byte>, W: seq<Byte>): (found: bool)
    requires DynString.NoNul(T) && DynString.NoNul(W)
    ensures found <==> Glob(T, W)
  {
    if |T| == 0 then
      EmptyText(T, W, 0);
      SkipStars(W, 0) == |W|
    else
      RunFixedDecides(T, W, State(0, 0, None));
      RunFixed(T, W, State(0, 0, None)) == Matches
  }

  /** ina_str_wildcard_match, corrected: SUCCESS iff the pattern matches the
      whole text, TEXT|NOT_MATCH otherwise. */
  function WildcardMatch(tame: seq<Byte>, wild: seq<Byte>): (rc: Code)
    ensures rc == SUCCESS <==> Glob(DynString.CString(tame), DynString.CString(wild))
    ensures rc != SUCCESS ==> rc == Raise(ES_TEXT | ERR_NOT_MATCH)
  {
    if FixedMatches(DynString.CString(tame), DynString.CString(wild)) then SUCCESS
    else Raise(ES_TEXT | ERR_NOT_MATCH)
  }

  // ---------------------------------------------------------------------
  // The two loops on concrete inputs
  // ---------------------------------------------------------------------

  /** "aaab" matches "*a?b", but the loop as written gives up: after the
      mismatch at the final 'b' it jumps back to the '?' at the text's last
      byte instead of retrying one byte further along. */
  lemma AsWrittenMissesMatch()
    ensures var tame: seq<Byte> := [0x61, 0x61, 0x61, 0x62];
            var wild: seq<Byte> := [STAR, 0x61, ANY, 0x62];
            Glob(tame, wild) && MatchAsWritten(tame, wild) == NoMatch
            && WildcardMatch(tame, wild) == SUCCESS
  {
    var T: seq<Byte> := [0x61, 0x61, 0x61, 0x62];
    var W: seq<Byte> := [STAR, 0x61, ANY, 0x62];
    assert DynString.NoNul(T) && DynString.NoNul(W);
    assert GlobAt(T, W, 3, 3);
    assert GlobAt(T, W, 2, 2);
    assert GlobAt(T, W, 1, 1);
    assert GlobAt(T, W, 1, 0);
    var s0 := State(0, 0, None);
    var b := Some(Bookmark(0, 1));
    assert SkipStars(W, 1) == 1;
    assert FastForward(T, 0, 0x61) == Found(0);
    assert StepAsWritten(T, W, s0) == Next(State(1, 2, b));
    assert StepAsWritten(T, W, State(1, 2, b)) == Next(State(2, 3, b));
    assert StepAsWritten(T, W, State(2, 3, b)) == Next(State(3, 2, b));
    assert SkipStars(W, 3) == 3;
    assert StepAsWritten(T, W, State(3, 2, b)) == Done(NoMatch);
    assert RunAsWritten(T, W, State(3, 2, b)) == NoMatch;
    assert RunAsWritten(T, W, State(2, 3, b)) == NoMatch;
    assert RunAsWritten(T, W, State(1, 2, b)) == NoMatch;
    assert RunAsWritten(T, W, s0) == NoMatch;
    assert DynString.CString(T) == T && DynString.CString(W) == W;
    assert Glob(T, W);
  }

  /** "aa" matches "*a", but the loop as written steps over the terminators
      of both strings and goes on reading. */
  lemma AsWrittenReadsPastEnd()
    ensures var tame: seq<Byte> := [0x61, 0x61];
            var wild: seq<Byte> := [STAR, 0x61];
            Glob(tame, wild) && MatchAsWritten(tame, wild) == ReadsPastEnd
            && WildcardMatch(tame, wild) == SUCCESS
  {
    var T: seq<Byte> := [0x61, 0x61];
    var W: seq<Byte> := [STAR, 0x61];
    assert DynString.NoNul(T) && DynString.NoNul(W);
    assert GlobAt(T, W, 1, 1);
    assert GlobAt(T, W, 1, 0);
    var b := Some(Bookmark(0, 1));
    assert SkipStars(W, 1) == 1;
    assert FastForward(T, 0, 0x61) == Found(0);
    assert StepAsWritten(T, W, State(0, 0, None)) == Next(State(1, 2, b));
    assert StepAsWritten(T, W, State(1, 2, b)) == Next(State(2, 2, b));
    assert StepAsWritten(T, W, State(2, 2, b)) == Done(ReadsPastEnd);
    assert RunAsWritten(T, W, State(2, 2, b)) == ReadsPastEnd;
    assert RunAsWritten(T, W, State(1, 2, b)) == ReadsPastEnd;
    assert RunAsWritten(T, W, State(0, 0, None)) == ReadsPastEnd;
    assert DynString.CString(T) == T && DynString.CString(W) == W;
    assert Glob(T, W);
  }

  /** With an empty text the first step already reads past its terminator. */
  lemma AsWrittenEmptyText()
    ensures MatchAsWritten([], []) == ReadsPastEnd
    ensures WildcardMatch([], []) == SUCCESS
  {
    assert GlobAt([], [], 0, 0);
  }

  /** The examples in the comments of the loop, for the corrected matcher. */
  lemma CommentExamples()
    ensures WildcardMatch([0x78], [STAR]) == SUCCESS
    ensures WildcardMatch([0x78, 0x79], [0x78, STAR, STAR, 0x79]) == SUCCESS
    ensures WildcardMatch([0x78, 0x79], [0x78]) == Raise(ES_TEXT | ERR_NOT_MATCH)
    ensures WildcardMatch([0x78], [0x78, 0x79]) == Raise(ES_TEXT | ERR_NOT_MATCH)
    ensures WildcardMatch([0x78], [STAR, 0x79, STAR]) == Raise(ES_TEXT | ERR_NOT_MATCH)
  {
    var x: seq<Byte> := [0x78];
    var xy: seq<Byte> := [0x78, 0x79];
    var star: seq<Byte> := [STAR];
    var xssy: seq<Byte> := [0x78, STAR, STAR, 0x79];
    var sys: seq<Byte> := [STAR, 0x79, STAR];
    assert DynString.NoNul(x) && DynString.NoNul(xy) && DynString.NoNul(xssy);
    assert DynString.NoNul(star) && DynString.NoNul(sys);
    assert GlobAt(x, star, 1, 0);
    assert GlobAt(xy, xssy, 1, 3);
    assert GlobAt(xy, xssy, 1, 2);
    assert GlobAt(xy, xssy, 1, 1);
    assert !GlobAt(xy, x, 1, 1);
    assert !GlobAt(x, xy, 1, 1);
    assert !GlobAt(x, sys, 1, 1);
    assert !GlobAt(x, sys, 1, 0);
    assert !GlobAt(x, sys, 0, 1);
  }

  /** "mississippi" matches "*sip*". */
  lemma MississippiExample()
    ensures WildcardMatch([0x6D, 0x69, 0x73, 0x73, 0x69, 0x73, 0x73, 0x69, 0x70, 0x70, 0x69],
                          [STAR, 0x73, 0x69, 0x70, STAR]) == SUCCESS
  {
    var T: seq<Byte> := [0x6D, 0x69, 0x73, 0x73, 0x69, 0x73, 0x73, 0x69, 0x70, 0x70, 0x69];
    var W: seq<Byte> := [STAR, 0x73, 0x69, 0x70, STAR];
    assert DynString.NoNul(T) && DynString.NoNul(W);
    assert GlobAt(T, W, 11, 4);
    assert GlobAt(T, W, 10, 4);
    assert GlobAt(T, W, 9, 4);
    assert GlobAt(T, W, 8, 3);
    assert GlobAt(T, W, 7, 2);
    assert GlobAt(T, W, 6, 1);
    assert GlobAt(T, W, 6, 0);
    assert GlobAt(T, W, 5, 0);
    assert GlobAt(T, W, 4, 0);
    assert GlobAt(T, W, 3, 0);
    assert GlobAt(T, W, 2, 0);
    assert GlobAt(T, W, 1, 0);
  }
}
