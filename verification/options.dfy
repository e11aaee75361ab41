/** The command-line option scanner of `ina_app_init` (src/lib.c), with the
    option lookup `__ina_opt_get` and `ina_opt_isset`.

    The caller describes its options in a table of `Spec`s; the scanner
    walks `argv[1..]`, cuts each argument into an option name and an inline
    value, looks the name up among the short names and then the long names,
    and records a value per table entry. Arguments are C strings, so their
    contents hold no NUL byte. The registry lists of the source are the
    table itself, in order; the value strings are byte sequences.
 */
module Options {
  import opened Wrappers
  import opened ResultCodes
  import DynString

  type Byte = DynString.Byte
  type Text = seq<Byte>

  const DASH: Byte := 0x2D
  const EQUALS: Byte := 0x3D
  /** The value a flag gets: "on". */
  const ON: Text := [0x6F, 0x6E]

  /** ina_opt_type_t */
  datatype Kind = String | Int | Flag | Float

  /** One entry of the caller's ina_opt_t table: short name (empty when the
      option has none), long name, type and default value. */
  datatype Spec = Spec(short: Text, long: Text, kind: Kind, dft: Option<Text>)

  /** The value of each table entry, NULL while unset. */
  type Values = seq<Option<Text>>

  /** What the scanner makes of one argument: not an option, or an option
      name with the value written after its `=`, if any. */
  datatype Token = Plain | Opt(name: Text, inline: Option<Text>)

  // ---------------------------------------------------------------------
  // Cutting one argument
  // ---------------------------------------------------------------------

  /** The index of the first `b` in `t`, or the length when there is none. */
  function IndexOf(t: Text, b: Byte): (k: nat)
    ensures k <= |t|
    ensures k < |t| ==> t[k] == b
    ensures forall j | 0 <= j < k :: t[j] != b
  {
    if |t| == 0 then 0
    else if t[0] == b then 0
    else 1 + IndexOf(t[1..], b)
  }

  /** Where an option name starts: after the first '-', or after "--" when
      that '-' is followed by another. */
  function NameStart(arg: Text): nat {
    var d := IndexOf(arg, DASH);
    if d + 1 < |arg| && arg[d + 1] == DASH then d + 2 else d + 1
  }

  /** The reading of one argument the scanner is meant to implement: an
      argument is an option when a '-' comes before its first '='; the name
      runs from just after that '-' (or "--") to the first '=' or the end;
      the inline value is everything after the first '='. */
  function Tokenize(arg: Text): (t: Token)
    ensures t.Opt? <==> exists i | 0 <= i < IndexOf(arg, EQUALS) :: arg[i] == DASH
    ensures t.Opt? ==> |t.name| <= |arg| && EQUALS !in t.name
    ensures t.Opt? ==> (t.inline.Some? <==> EQUALS in arg)
  {
    var e := IndexOf(arg, EQUALS);
    var d := IndexOf(arg, DASH);
    if e <= d then Plain
    else
      assert d + 1 < |arg| && arg[d + 1] == DASH ==> d + 1 != e;
      Opt(arg[NameStart(arg)..e], if e < |arg| then Some(arg[e + 1..]) else None)
  }

  /** The per-argument loop of ina_app_init (src/lib.c:180-212): `c` walks
      the argument, `s` is where the name starts (0 while no '-' was seen),
      `e` where it ends and `vs` where the value starts; the walk stops at
      the first '='. `tolower` leaves '-' and '=' alone and maps no other
      byte onto them, so it is left out. */
  method ScanArg(arg: Text) returns (t: Token)
    requires DynString.NoNul(arg)
    ensures t == Tokenize(arg)
  {
    var c, s, e, vs := 0, 0, 0, 0;
    while c < |arg|
      invariant c <= |arg| && vs == 0 && e == 0
      invariant forall j | 0 <= j < c :: arg[j] != EQUALS
      invariant s == 0 <==> forall j | 0 <= j < c :: arg[j] != DASH
      invariant s != 0 ==> IndexOf(arg, DASH) < c && s == NameStart(arg) && s <= c
    {
      if arg[c] == DASH {
        if s == 0 {
          if DynString.At(arg, c + 1) == DASH {
            c := c + 1;
          }
          s := c + 1;
        }
      } else if arg[c] == EQUALS {
        e := c;
        vs := c + 1;
      }
      if vs != 0 {
        break;
      }
      c := c + 1;
    }
    if e == 0 {
      e := c;
    }
    if s > 0 {
      t := Opt(arg[s..e], if vs == 0 then None else Some(arg[vs..]));
    } else {
      t := Plain;
    }
  }

  /** The two spellings of a name with a value: "-name=value" and
      "--name=value". */
  lemma TokenizeExamples(name: Text, value: Text)
    requires DASH !in name && EQUALS !in name && name != []
    ensures Tokenize([DASH] + name + [EQUALS] + value) == Opt(name, Some(value))
    ensures Tokenize([DASH, DASH] + name) == Opt(name, None)
  {
    var a := [DASH] + name + [EQUALS] + value;
    assert a[0] == DASH && a[1 + |name|] == EQUALS;
    assert IndexOf(a, EQUALS) == 1 + |name| by {
      forall j | 0 <= j < 1 + |name|
        ensures a[j] != EQUALS
      {
        if j > 0 {
          assert a[j] == name[j - 1];
        }
      }
    }
    assert a[1] == name[0] != DASH;
    assert a[1..1 + |name|] == name;
    assert a[1 + |name| + 1..] == value;
    var b := [DASH, DASH] + name;
    assert b[0] == DASH && b[1] == DASH;
    assert IndexOf(b, EQUALS) == |b| by {
      forall j | 0 <= j < |b|
        ensures b[j] != EQUALS
      {
        if j > 1 {
          assert b[j] == name[j - 2];
        }
      }
    }
    assert IndexOf(b, DASH) == 0 && NameStart(b) == 2;
    assert b[2..|b|] == name;
    assert Tokenize(b) == Opt(b[2..|b|], None);
  }

  /** An argument whose first '=' comes before any '-' is not an option,
      and "-" alone is an option with the empty name. */
  lemma TokenizeEdgeCases(value: Text)
    ensures Tokenize([EQUALS, DASH] + value) == Plain
    ensures Tokenize([DASH]) == Opt([], None)
  {
    assert IndexOf([EQUALS, DASH] + value, EQUALS) == 0;
    assert IndexOf([DASH], EQUALS) == 1;
  }

  // ---------------------------------------------------------------------
  // Lookup
  // ---------------------------------------------------------------------

  /** The first entry from `i` on with a non-empty short name equal to
      `name`; the short-option list holds only such entries. */
  function ShortFrom(specs: seq<Spec>, name: Text, i: nat): (k: nat)
    requires i <= |specs|
    ensures i <= k <= |specs|
    ensures k < |specs| ==> specs[k].short == name && name != []
    ensures forall j | i <= j < k :: specs[j].short != name || name == []
    decreases |specs| - i
  {
    if i == |specs| then i
    else if specs[i].short == name && name != [] then i
    else ShortFrom(specs, name, i + 1)
  }

  /** The first entry from `i` on whose long name equals `name`. */
  function LongFrom(specs: seq<Spec>, name: Text, i: nat): (k: nat)
    requires i <= |specs|
    ensures i <= k <= |specs|
    ensures k < |specs| ==> specs[k].long == name
    ensures forall j | i <= j < k :: specs[j].long != name
    decreases |specs| - i
  {
    if i == |specs| then i
    else if specs[i].long == name then i
    else LongFrom(specs, name, i + 1)
  }

  /** __ina_opt_get as intended: the option whose short name is `name`, and
      failing that the option whose long name is `name`. */
  function OptGet(specs: seq<Spec>, name: Text): (r: Option<nat>)
    ensures r.Some? ==> r.value < |specs|
    ensures r.None? <==> forall j | 0 <= j < |specs| :: (specs[j].short != name || name == []) && specs[j].long != name
    ensures (exists j | 0 <= j < |specs| :: specs[j].short == name && name != []) ==>
              r.Some? && specs[r.value].short == name
              && forall j | 0 <= j < r.value :: specs[j].short != name
    ensures r.Some? && specs[r.value].short != name ==>
              specs[r.value].long == name && forall j | 0 <= j < r.value :: specs[j].long != name
  {
    var k := ShortFrom(specs, name, 0);
    if k < |specs| then Some(k)
    else
      var m := LongFrom(specs, name, 0);
      if m < |specs| then Some(m) else None
  }

  /** What __ina_opt_get does with a lookup: it has no matching option, or
      it reads through the node pointer, which ina_list_find never set and
      which is still NULL. */
  datatype Lookup = Missing | NullRead

  /** __ina_opt_get as written (src/lib.c:471-487). */
  function OptGetAsWritten(specs: seq<Spec>, name: Text): (r: Lookup)
    ensures r == NullRead <==> OptGet(specs, name).Some?
  {
    if ShortFrom(specs, name, 0) < |specs| || LongFrom(specs, name, 0) < |specs| then NullRead
    else Missing
  }

  // ---------------------------------------------------------------------
  // Scanning the command line
  // ---------------------------------------------------------------------

  /** The values before scanning: each option's default. */
  function Defaults(specs: seq<Spec>): (vals: Values)
    ensures |vals| == |specs| && forall i | 0 <= i < |specs| :: vals[i] == specs[i].dft
  {
    seq(|specs|, i requires 0 <= i < |specs| => specs[i].dft)
  }

  /** The argument loop of ina_app_init from argument `n` on
      (src/lib.c:179-241): an unknown option name stops the scan with
      OPTION|INVALID; a flag gets "on"; any other option gets its inline
      value, or else the next argument, which is then skipped. */
  function ScanFrom(specs: seq<Spec>, vals: Values, args: seq<Text>, n: nat): (r: Result<Values, Code>)
    requires |vals| == |specs|
    ensures r.Err? ==> r.error == Raise(ES_OPTION | ERR_INVALID)
    ensures r.Err? ==> exists k | n <= k < |args| :: Tokenize(args[k]).Opt? && OptGet(specs, Tokenize(args[k]).name).None?
    ensures r.Ok? ==> |r.value| == |vals|
    ensures r.Ok? ==> forall i | 0 <= i < |vals| && vals[i].Some? :: r.value[i].Some?
    ensures r.Ok? ==> forall i | 0 <= i < |vals| && specs[i].kind == Flag ::
                        r.value[i] == vals[i] || r.value[i] == Some(ON)
    decreases |args| - n
  {
    if n >= |args| then Ok(vals)
    else match Tokenize(args[n])
      case Plain => ScanFrom(specs, vals, args, n + 1)
      case Opt(name, inline) =>
        match OptGet(specs, name)
        case None => Err(Raise(ES_OPTION | ERR_INVALID))
        case Some(i) =>
          if specs[i].kind == Flag then ScanFrom(specs, vals[i := Some(ON)], args, n + 1)
          else if inline.Some? then ScanFrom(specs, vals[i := inline], args, n + 1)
          else if n + 1 < |args| then ScanFrom(specs, vals[i := Some(args[n + 1])], args, n + 2)
          else ScanFrom(specs, vals, args, n + 1)
  }

  /** Where the loop goes after looking at argument `n`: to the next
      argument, or past it when it was taken as the value of a valued option
      written without '='. */
  function NextArg(specs: seq<Spec>, args: seq<Text>, n: nat): (m: nat)
    requires n < |args|
    ensures n < m <= |args|
  {
    match Tokenize(args[n])
    case Opt(name, None) =>
      if OptGet(specs, name).Some? && specs[OptGet(specs, name).value].kind != Flag && n + 1 < |args|
      then n + 2 else n + 1
    case _ => n + 1
  }

  /** The loop, started at argument `n`, looks at argument `k`. */
  predicate Visits(specs: seq<Spec>, args: seq<Text>, n: nat, k: nat)
    decreases |args| - n
  {
    n < |args| && (k == n || Visits(specs, args, NextArg(specs, args, n), k))
  }

  lemma {:induction false} VisitsBounds(specs: seq<Spec>, args: seq<Text>, n: nat, k: nat)
    requires Visits(specs, args, n, k)
    ensures n <= k < |args|
    decreases |args| - n
  {
    if k != n {
      VisitsBounds(specs, args, NextArg(specs, args, n), k);
    }
  }

  /** Argument `k` names an option the table does not have. */
  predicate Unknown(specs: seq<Spec>, args: seq<Text>, k: nat)
    requires k < |args|
  {
    Tokenize(args[k]).Opt? && OptGet(specs, Tokenize(args[k]).name).None?
  }

  /** The value argument `k` gives table entry `i`: "on" when it names a
      flag, otherwise its inline value or else the next argument; nothing
      when it names another entry, or a valued option with no value after
      it. */
  function Supplies(specs: seq<Spec>, args: seq<Text>, k: nat, i: nat): Option<Text>
    requires k < |args|
  {
    match Tokenize(args[k])
    case Plain => None
    case Opt(name, inline) =>
      if OptGet(specs, name) != Some(i) then None
      else if specs[i].kind == Flag then Some(ON)
      else if inline.Some? then inline
      else if k + 1 < |args| then Some(args[k + 1])
      else None
  }

  /** The values once argument `n` has been looked at. */
  function Apply(specs: seq<Spec>, vals: Values, args: seq<Text>, n: nat): (r: Values)
    requires n < |args|
    ensures |r| == |vals|
    ensures forall i | 0 <= i < |vals| ::
              r[i] == if Supplies(specs, args, n, i).Some? then Supplies(specs, args, n, i) else vals[i]
  {
    seq(|vals|, i requires 0 <= i < |vals| =>
      if Supplies(specs, args, n, i).Some? then Supplies(specs, args, n, i) else vals[i])
  }

  /** No argument the loop looks at from `n` on gives entry `i` a value. */
  predicate NeverGiven(specs: seq<Spec>, args: seq<Text>, n: nat, i: nat) {
    forall k | n <= k < |args| && Visits(specs, args, n, k) :: Supplies(specs, args, k, i).None?
  }

  /** Argument `k` is the last one the loop looks at from `n` on that gives
      entry `i` a value. */
  predicate LastGiven(specs: seq<Spec>, args: seq<Text>, n: nat, i: nat, k: nat) {
    n <= k < |args| && Visits(specs, args, n, k) && Supplies(specs, args, k, i).Some?
    && forall k2 | k < k2 < |args| && Visits(specs, args, n, k2) :: Supplies(specs, args, k2, i).None?
  }

  /** One turn of the loop at any position: an argument naming a known
      option records the value it supplies, and the scan carries on where
      the loop goes next. */
  lemma ScanStep(specs: seq<Spec>, vals: Values, args: seq<Text>, n: nat)
    requires |vals| == |specs| && n < |args|
    ensures Unknown(specs, args, n) ==> ScanFrom(specs, vals, args, n) == Err(Raise(ES_OPTION | ERR_INVALID))
    ensures !Unknown(specs, args, n) ==>
              ScanFrom(specs, vals, args, n)
              == ScanFrom(specs, Apply(specs, vals, args, n), args, NextArg(specs, args, n))
  {
    var a := Apply(specs, vals, args, n);
    match Tokenize(args[n])
    case Plain =>
      assert a == vals;
    case Opt(name, inline) =>
      match OptGet(specs, name)
      case None =>
      case Some(i0) =>
        if specs[i0].kind == Flag {
          assert a == vals[i0 := Some(ON)];
        } else if inline.Some? {
          assert a == vals[i0 := inline];
        } else if n + 1 < |args| {
          assert a == vals[i0 := Some(args[n + 1])];
        } else {
          assert a == vals;
        }
  }

  /** What the scan computes: it fails exactly when the loop looks at an
      argument naming an unknown option; otherwise every entry holds the
      value of the last argument that gave it one, and entries no argument
      gave a value keep the value they had. */
  lemma {:induction false} ScanFromValues(specs: seq<Spec>, vals: Values, args: seq<Text>, n: nat)
    requires |vals| == |specs|
    ensures ScanFrom(specs, vals, args, n).Err? <==>
              exists k | n <= k < |args| :: Visits(specs, args, n, k) && Unknown(specs, args, k)
    ensures ScanFrom(specs, vals, args, n).Ok? ==>
              forall i | 0 <= i < |vals| && NeverGiven(specs, args, n, i) ::
                ScanFrom(specs, vals, args, n).value[i] == vals[i]
    ensures ScanFrom(specs, vals, args, n).Ok? ==>
              forall i: nat, k: nat | i < |vals| && k < |args| && LastGiven(specs, args, n, i, k) ::
                ScanFrom(specs, vals, args, n).value[i] == Supplies(specs, args, k, i)
    decreases |args| - n
  {
    if n < |args| {
      ScanStep(specs, vals, args, n);
      var m := NextArg(specs, args, n);
      if Unknown(specs, args, n) {
        assert Visits(specs, args, n, n);
      } else {
        var a := Apply(specs, vals, args, n);
        ScanFromValues(specs, a, args, m);
        var r := ScanFrom(specs, vals, args, n);
        assert r == ScanFrom(specs, a, args, m);
        forall k | m <= k < |args| && Visits(specs, args, m, k)
          ensures Visits(specs, args, n, k)
        {
        }
        if r.Err? {
          var k :| m <= k < |args| && Visits(specs, args, m, k) && Unknown(specs, args, k);
          assert Visits(specs, args, n, k);
        } else {
          forall k | n <= k < |args| && Visits(specs, args, n, k) && Unknown(specs, args, k)
            ensures false
          {
            if k != n {
              VisitsBounds(specs, args, m, k);
            }
          }
          forall i | 0 <= i < |vals| && NeverGiven(specs, args, n, i)
            ensures r.value[i] == vals[i]
          {
            assert Supplies(specs, args, n, i).None? by {
              assert Visits(specs, args, n, n);
            }
            assert NeverGiven(specs, args, m, i) by {
              forall k | m <= k < |args| && Visits(specs, args, m, k)
                ensures Supplies(specs, args, k, i).None?
              {
                assert Visits(specs, args, n, k);
              }
            }
          }
          forall i: nat, k: nat | i < |vals| && k < |args| && LastGiven(specs, args, n, i, k)
            ensures r.value[i] == Supplies(specs, args, k, i)
          {
            if k == n {
              assert NeverGiven(specs, args, m, i) by {
                forall k2 | m <= k2 < |args| && Visits(specs, args, m, k2)
                  ensures Supplies(specs, args, k2, i).None?
                {
                  assert Visits(specs, args, n, k2);
                }
              }
            } else {
              VisitsBounds(specs, args, m, k);
              assert LastGiven(specs, args, m, i, k) by {
                forall k2 | k < k2 < |args| && Visits(specs, args, m, k2)
                  ensures Supplies(specs, args, k2, i).None?
                {
                  assert Visits(specs, args, n, k2);
                }
              }
            }
          }
        }
      }
    }
  }

  /** A flag on the command line gets "on", whatever follows its '='. */
  lemma FlagGetsOn(specs: seq<Spec>, vals: Values, prog: Text, arg: Text, i: nat)
    requires |vals| == |specs| && Tokenize(arg).Opt?
    requires OptGet(specs, Tokenize(arg).name) == Some(i) && specs[i].kind == Flag
    ensures ScanFrom(specs, vals, [prog, arg], 1) == Ok(vals[i := Some(ON)])
  {
    assert ScanFrom(specs, vals[i := Some(ON)], [prog, arg], 2) == Ok(vals[i := Some(ON)]);
  }

  /** A valued option without '=' takes the next argument, which is not
      scanned itself; with '=' it takes the inline value. */
  lemma ValueFromNextArgument(specs: seq<Spec>, vals: Values, prog: Text, arg: Text, v: Text, i: nat)
    requires |vals| == |specs| && Tokenize(arg).Opt?
    requires OptGet(specs, Tokenize(arg).name) == Some(i) && specs[i].kind != Flag
    ensures Tokenize(arg).inline.None? ==>
              ScanFrom(specs, vals, [prog, arg, v], 1) == Ok(vals[i := Some(v)])
    ensures Tokenize(arg).inline.Some? ==>
              ScanFrom(specs, vals, [prog, arg], 1) == Ok(vals[i := Tokenize(arg).inline])
  {
    if Tokenize(arg).inline.None? {
      assert ScanFrom(specs, vals[i := Some(v)], [prog, arg, v], 3) == Ok(vals[i := Some(v)]);
    } else {
      assert ScanFrom(specs, vals[i := Tokenize(arg).inline], [prog, arg], 2) == Ok(vals[i := Tokenize(arg).inline]);
    }
  }

  // ---------------------------------------------------------------------
  // Validation and queries
  // ---------------------------------------------------------------------

  /** A short option other than a flag that ended up without a value: what
      __ina_check_options looks for. */
  predicate Unset(specs: seq<Spec>, vals: Values)
    requires |vals| == |specs|
  {
    exists i | 0 <= i < |specs| :: specs[i].short != [] && specs[i].kind != Flag && vals[i].None?
  }

  /** ina_app_init's option handling as written: __ina_check_options
      records OPTION|INVALID for an option left without a value but returns
      success, so the ina_list_foreach over it never fails and the check
      has no effect (src/lib.c:80-87, 243-247). */
  function AppInitAsWritten(specs: seq<Spec>, args: seq<Text>): (r: Result<Values, Code>)
    ensures r.Err? ==> r.error == Raise(ES_OPTION | ERR_INVALID)
    ensures r.Err? <==> exists k | 1 <= k < |args| :: Visits(specs, args, 1, k) && Unknown(specs, args, k)
    ensures r.Ok? ==> |r.value| == |specs|
    ensures r.Ok? ==>
              forall i | 0 <= i < |specs| && NeverGiven(specs, args, 1, i) :: r.value[i] == specs[i].dft
    ensures r.Ok? ==>
              forall i: nat, k: nat | i < |specs| && k < |args| && LastGiven(specs, args, 1, i, k) ::
                r.value[i] == Supplies(specs, args, k, i)
  {
    ScanFromValues(specs, Defaults(specs), args, 1);
    ScanFrom(specs, Defaults(specs), args, 1)
  }

  /** ina_app_init's option handling with the check's failure returned: a
      short option other than a flag left without a value fails with
      OPTION|INVALID. */
  function AppInit(specs: seq<Spec>, args: seq<Text>): (r: Result<Values, Code>)
    ensures r.Err? ==> r.error == Raise(ES_OPTION | ERR_INVALID)
    ensures r.Ok? ==> |r.value| == |specs| && !Unset(specs, r.value)
    ensures r.Ok? <==> AppInitAsWritten(specs, args).Ok? && !Unset(specs, AppInitAsWritten(specs, args).value)
  {
    match ScanFrom(specs, Defaults(specs), args, 1)
    case Err(e) => Err(e)
    case Ok(vals) => if Unset(specs, vals) then Err(Raise(ES_OPTION | ERR_INVALID)) else Ok(vals)
  }

  /** A string option "-s" with no default, and a command line that never
      gives it: as written the program starts with the option unset. */
  lemma AppInitAsWrittenAcceptsUnset(prog: Text)
    ensures AppInitAsWritten([Spec([0x73], [0x73, 0x74, 0x72], String, None)], [prog]) == Ok([None])
    ensures AppInit([Spec([0x73], [0x73, 0x74, 0x72], String, None)], [prog]) == Err(Raise(ES_OPTION | ERR_INVALID))
  {
    var specs := [Spec([0x73], [0x73, 0x74, 0x72], String, None)];
    assert Defaults(specs) == [None];
    assert Unset(specs, [None]) by {
      assert specs[0].short != [] && specs[0].kind != Flag;
    }
  }

  /** ina_opt_isset: OPTION|NOT_EXISTS for an unknown option and for a flag
      that was not given; success otherwise. */
  function IsSet(specs: seq<Spec>, vals: Values, name: Text): (rc: Code)
    requires |vals| == |specs|
    ensures rc == SUCCESS || rc == Raise(ES_OPTION | ERR_NOT_EXISTS)
    ensures rc == SUCCESS <==>
              OptGet(specs, name).Some?
              && (specs[OptGet(specs, name).value].kind != Flag || vals[OptGet(specs, name).value].Some?)
  {
    match OptGet(specs, name)
    case None => Raise(ES_OPTION | ERR_NOT_EXISTS)
    case Some(i) =>
      if specs[i].kind == Flag && vals[i].None? then Raise(ES_OPTION | ERR_NOT_EXISTS) else SUCCESS
  }

  /** A flag given on the command line is set; scanning never unsets an
      option that had a value. */
  lemma GivenFlagIsSet(specs: seq<Spec>, prog: Text, arg: Text)
    requires Tokenize(arg).Opt? && OptGet(specs, Tokenize(arg).name).Some?
    requires specs[OptGet(specs, Tokenize(arg).name).value].kind == Flag
    ensures AppInitAsWritten(specs, [prog, arg]).Ok?
    ensures IsSet(specs, AppInitAsWritten(specs, [prog, arg]).value, Tokenize(arg).name) == SUCCESS
  {
    FlagGetsOn(specs, Defaults(specs), prog, arg, OptGet(specs, Tokenize(arg).name).value);
  }
}
