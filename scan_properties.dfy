/**
  Properties of magot's parser, stated over the value-level model in
  ScanModel: what a scan reads and what it binds, how failures leave earlier
  bindings in place, which command lines are accepted and what they bind,
  and how the required-option pass depends on the scan.
 */
module ScanProperties {
  import opened Wrappers
  import opened ScanModel

  // ---------------------------------------------------------------------
  // Composition and the tokens a scan examines

  /** A scan that consumes `a` completely continues on `b` from the values it left. */
  lemma {:induction false} ScanAppend(decls: seq<Decl>, a: seq<string>, b: seq<string>, vals: seq<Option<string>>)
    requires |vals| == |decls| && Scan(decls, a, vals).err.None?
    ensures Scan(decls, a + b, vals) == Scan(decls, b, Scan(decls, a, vals).values)
    decreases |a|
  {
    if a == [] {
      assert a + b == b;
    } else {
      var k := Find(decls, a[0]).value;
      assert (a + b)[0] == a[0];
      if decls[k].flag {
        assert (a + b)[1..] == a[1..] + b;
        ScanAppend(decls, a[1..], b, vals[k := Some(FlagSentinel)]);
      } else {
        assert (a + b)[1] == a[1];
        assert (a + b)[2..] == a[2..] + b;
        ScanAppend(decls, a[2..], b, vals[k := Some(a[1])]);
      }
    }
  }

  /** Once a token is unknown, no later token is examined: appending tokens changes nothing. */
  lemma {:induction false} UnknownStopsScan(decls: seq<Decl>, toks: seq<string>, rest: seq<string>, vals: seq<Option<string>>)
    requires |vals| == |decls|
    requires Scan(decls, toks, vals).err.Some? && Scan(decls, toks, vals).err.value.kind == UnknownOpt
    ensures Scan(decls, toks + rest, vals) == Scan(decls, toks, vals)
    decreases |toks|
  {
    assert (toks + rest)[0] == toks[0];
    match Find(decls, toks[0])
    case None =>
    case Some(k) =>
      if decls[k].flag {
        assert (toks + rest)[1..] == toks[1..] + rest;
        UnknownStopsScan(decls, toks[1..], rest, vals[k := Some(FlagSentinel)]);
      } else if |toks| == 1 {
        assert false;
      } else {
        assert (toks + rest)[1] == toks[1];
        assert (toks + rest)[2..] == toks[2..] + rest;
        UnknownStopsScan(decls, toks[2..], rest, vals[k := Some(toks[1])]);
      }
  }

  /**
    A failed scan stops at token `j`: the values it leaves are exactly those
    of a successful scan of the tokens before `j`. An unknown-option failure
    reports token `j` itself, which names no option; a missing argument is
    reported for the last token, a value option, by its name.
   */
  lemma {:induction false} FailureKeepsEarlierBindings(decls: seq<Decl>, toks: seq<string>, vals: seq<Option<string>>)
    returns (j: nat)
    requires |vals| == |decls| && Scan(decls, toks, vals).err.Some?
    ensures j < |toks| && Scan(decls, toks[..j], vals) == Outcome(None, Scan(decls, toks, vals).values)
    ensures Scan(decls, toks, vals).err.value.kind == UnknownOpt ==>
      Scan(decls, toks, vals).err.value.arg == toks[j] && Find(decls, toks[j]).None?
    ensures Scan(decls, toks, vals).err.value.kind == MissingArg ==>
      j == |toks| - 1 && Scan(decls, toks, vals).err.value.arg == toks[j] &&
      Find(decls, toks[j]).Some? && !decls[Find(decls, toks[j]).value].flag
    decreases |toks|
  {
    assert toks[..0] == [];
    match Find(decls, toks[0])
    case None =>
      j := 0;
    case Some(k) =>
      if decls[k].flag {
        var j' := FailureKeepsEarlierBindings(decls, toks[1..], vals[k := Some(FlagSentinel)]);
        j := j' + 1;
        assert toks[..j][0] == toks[0] && toks[..j][1..] == toks[1..][..j'];
      } else if |toks| == 1 {
        j := 0;
      } else {
        var j' := FailureKeepsEarlierBindings(decls, toks[2..], vals[k := Some(toks[1])]);
        j := j' + 2;
        assert toks[..j][0] == toks[0] && toks[..j][1] == toks[1] && toks[..j][2..] == toks[2..][..j'];
      }
  }

  /** A flag binds the sentinel and never consumes the token after it: that token is looked up next. */
  lemma FlagKeepsNextToken(decls: seq<Decl>, name: string, rest: seq<string>, vals: seq<Option<string>>)
    requires |vals| == |decls| && Find(decls, name).Some? && decls[Find(decls, name).value].flag
    ensures Scan(decls, [name] + rest, vals) == Scan(decls, rest, vals[Find(decls, name).value := Some(FlagSentinel)])
  {
    assert ([name] + rest)[1..] == rest;
  }

  /** A value option binds the next token verbatim, without looking it up, and the scan resumes after it. */
  lemma ValueTakesNextToken(decls: seq<Decl>, name: string, text: string, rest: seq<string>, vals: seq<Option<string>>)
    requires |vals| == |decls| && Find(decls, name).Some? && !decls[Find(decls, name).value].flag
    ensures Scan(decls, [name, text] + rest, vals) == Scan(decls, rest, vals[Find(decls, name).value := Some(text)])
  {
    assert ([name, text] + rest)[2..] == rest;
  }

  // ---------------------------------------------------------------------
  // What a scan binds

  /**
    Only options named by some token can change, and a declaration shadowed
    by an earlier one with the same name is never bound.
   */
  lemma {:induction false} ScanBindsOnlyNamed(decls: seq<Decl>, toks: seq<string>, vals: seq<Option<string>>, k: nat)
    requires |vals| == |decls| && k < |decls|
    ensures decls[k].name !in toks ==> Scan(decls, toks, vals).values[k] == vals[k]
    ensures Find(decls, decls[k].name) != Some(k) ==> Scan(decls, toks, vals).values[k] == vals[k]
    decreases |toks|
  {
    if toks != [] && Find(decls, toks[0]).Some? {
      var j := Find(decls, toks[0]).value;
      if decls[j].flag {
        ScanBindsOnlyNamed(decls, toks[1..], vals[j := Some(FlagSentinel)], k);
        assert decls[k].name !in toks ==> decls[k].name !in toks[1..];
      } else if |toks| > 1 {
        ScanBindsOnlyNamed(decls, toks[2..], vals[j := Some(toks[1])], k);
        assert decls[k].name !in toks ==> decls[k].name !in toks[2..];
      }
    }
  }

  /** A scan never unbinds: an option set before the call (say by an earlier parse) stays set. */
  lemma {:induction false} ScanNeverUnsets(decls: seq<Decl>, toks: seq<string>, vals: seq<Option<string>>, k: nat)
    requires |vals| == |decls| && k < |decls| && vals[k].Some?
    ensures Scan(decls, toks, vals).values[k].Some?
    decreases |toks|
  {
    if toks != [] && Find(decls, toks[0]).Some? {
      var j := Find(decls, toks[0]).value;
      if decls[j].flag {
        ScanNeverUnsets(decls, toks[1..], vals[j := Some(FlagSentinel)], k);
      } else if |toks| > 1 {
        ScanNeverUnsets(decls, toks[2..], vals[j := Some(toks[1])], k);
      }
    }
  }

  // ---------------------------------------------------------------------
  // Accepted command lines: writing uses out and scanning them back

  /** One use of a declared option on a command line: a flag, or a value option with its text. */
  datatype Use = UseFlag(k: nat) | UseValue(k: nat, text: string)

  /** The value a use binds. */
  function Bound(u: Use): string {
    match u
    case UseFlag(_) => FlagSentinel
    case UseValue(_, t) => t
  }

  /** A use fits the declarations: its option exists, is not shadowed by an earlier same-named one, and its kind matches. */
  predicate Fits(decls: seq<Decl>, u: Use) {
    u.k < |decls| && Find(decls, decls[u.k].name) == Some(u.k) && (u.UseFlag? <==> decls[u.k].flag)
  }

  predicate AllFit(decls: seq<Decl>, us: seq<Use>) {
    forall i :: 0 <= i < |us| ==> Fits(decls, us[i])
  }

  /** The tokens a use is written as. */
  function Written(decls: seq<Decl>, u: Use): (ts: seq<string>)
    requires u.k < |decls|
    ensures 1 <= |ts| <= 2 && ts[0] == decls[u.k].name
  {
    match u
    case UseFlag(k) => [decls[k].name]
    case UseValue(k, t) => [decls[k].name, t]
  }

  /** The command line (after the program name) that a sequence of uses is written as. */
  function Render(decls: seq<Decl>, us: seq<Use>): seq<string>
    requires AllFit(decls, us)
  {
    if us == [] then [] else Written(decls, us[0]) + Render(decls, us[1..])
  }

  /** The values after applying the uses in order, each overwriting its option's slot. */
  function Apply(us: seq<Use>, vals: seq<Option<string>>): (r: seq<Option<string>>)
    requires forall i :: 0 <= i < |us| ==> us[i].k < |vals|
    ensures |r| == |vals|
  {
    if us == [] then vals else Apply(us[1..], vals[us[0].k := Some(Bound(us[0]))])
  }

  /** A command line written from fitting uses scans without error and binds exactly what the uses say. */
  lemma {:induction false} RenderThenScan(decls: seq<Decl>, us: seq<Use>, vals: seq<Option<string>>)
    requires |vals| == |decls| && AllFit(decls, us)
    ensures Scan(decls, Render(decls, us), vals) == Outcome(None, Apply(us, vals))
    decreases |us|
  {
    if us != [] {
      var u := us[0];
      var w := Written(decls, u);
      var vals' := vals[u.k := Some(Bound(u))];
      assert AllFit(decls, us[1..]) by {
        forall i | 0 <= i < |us[1..]| ensures Fits(decls, us[1..][i]) {
          assert us[1..][i] == us[i + 1];
        }
      }
      if u.UseFlag? {
        assert w[1..] == [];
      } else {
        assert w[2..] == [];
      }
      assert Scan(decls, w, vals) == Outcome(None, vals');
      ScanAppend(decls, w, Render(decls, us[1..]), vals);
      RenderThenScan(decls, us[1..], vals');
    }
  }

  /** Every command line that scans without error is the rendering of fitting uses, and binds what they apply. */
  lemma {:induction false} ScanThenRender(decls: seq<Decl>, toks: seq<string>, vals: seq<Option<string>>)
    requires |vals| == |decls| && Scan(decls, toks, vals).err.None?
    ensures exists us :: AllFit(decls, us) && Render(decls, us) == toks &&
                         Apply(us, vals) == Scan(decls, toks, vals).values
    decreases |toks|
  {
    if toks == [] {
      assert AllFit(decls, []) && Render(decls, []) == toks && Apply([], vals) == vals;
    } else {
      var k := Find(decls, toks[0]).value;
      var u: Use, rest: seq<string>;
      if decls[k].flag {
        u, rest := UseFlag(k), toks[1..];
      } else {
        u, rest := UseValue(k, toks[1]), toks[2..];
      }
      var vals' := vals[k := Some(Bound(u))];
      ScanThenRender(decls, rest, vals');
      var us' :| AllFit(decls, us') && Render(decls, us') == rest && Apply(us', vals') == Scan(decls, rest, vals').values;
      var us := [u] + us';
      assert us[1..] == us';
      assert AllFit(decls, us);
      assert Written(decls, u) + rest == toks;
      assert Render(decls, us) == toks;
    }
  }

  /** An option no use mentions keeps its value. */
  lemma {:induction false} ApplyUnused(us: seq<Use>, vals: seq<Option<string>>, k: nat)
    requires k < |vals| && forall i :: 0 <= i < |us| ==> us[i].k < |vals| && us[i].k != k
    ensures Apply(us, vals)[k] == vals[k]
    decreases |us|
  {
    if us != [] {
      ApplyUnused(us[1..], vals[us[0].k := Some(Bound(us[0]))], k);
    }
  }

  /** A repeated option ends with the value of its last occurrence. */
  lemma {:induction false} LastOccurrenceWins(us: seq<Use>, vals: seq<Option<string>>, i: nat)
    requires forall j :: 0 <= j < |us| ==> us[j].k < |vals|
    requires i < |us| && forall j :: i < j < |us| ==> us[j].k != us[i].k
    ensures Apply(us, vals)[us[i].k] == Some(Bound(us[i]))
    decreases |us|
  {
    var vals' := vals[us[0].k := Some(Bound(us[0]))];
    if i == 0 {
      ApplyUnused(us[1..], vals', us[0].k);
    } else {
      LastOccurrenceWins(us[1..], vals', i - 1);
    }
  }

  // ---------------------------------------------------------------------
  // The whole parse

  /** Index 0 (the program name) is never looked up or bound: replacing it changes nothing. */
  lemma ProgramNameIgnored(decls: seq<Decl>, args: seq<string>, name: string, vals: seq<Option<string>>)
    requires |vals| == |decls| && |args| >= 1
    ensures Parse(decls, [name] + args[1..], vals) == Parse(decls, args, vals)
  {
    assert Rest([name] + args[1..], 1) == Rest(args, 1);
  }

  /** With nothing after the program name, parsing binds nothing and only runs the required-option pass. */
  lemma NoArgumentsOnlyValidates(decls: seq<Decl>, args: seq<string>, vals: seq<Option<string>>)
    requires |vals| == |decls| && |args| <= 1
    ensures Parse(decls, args, vals).values == vals
    ensures Parse(decls, args, vals).err ==
      match FirstMissing(decls, vals)
      case None => None
      case Some(k) => Some(Failure(MissingRequired, decls[k].name))
  {
  }

  /**
    Scan failures are the parse's failures unchanged; a missing-required
    failure happens only after a successful scan and names the first
    required option, in declaration order, that the scan left unset.
   */
  lemma ParseFailures(decls: seq<Decl>, args: seq<string>, vals: seq<Option<string>>)
    requires |vals| == |decls|
    ensures var s := Scan(decls, Rest(args, 1), vals);
      var r := Parse(decls, args, vals);
      r.values == s.values &&
      (s.err.Some? ==> r.err == s.err) &&
      (r.err.Some? && r.err.value.kind == MissingRequired <==>
         s.err.None? && FirstMissing(decls, s.values).Some?) &&
      (r.err.Some? && r.err.value.kind == MissingRequired ==>
         r.err.value.arg == decls[FirstMissing(decls, s.values).value].name)
  {
  }

  /** A parse succeeds exactly when the scan does and every required option is then set. */
  lemma ParseSucceeds(decls: seq<Decl>, args: seq<string>, vals: seq<Option<string>>)
    requires |vals| == |decls|
    ensures Parse(decls, args, vals).err.None? <==>
      Scan(decls, Rest(args, 1), vals).err.None? &&
      forall k :: 0 <= k < |decls| ==> !Missing(decls[k], Scan(decls, Rest(args, 1), vals).values[k])
  {
  }

  /**
    Well-formed uses of options, none of them shadowed, parse without error
    when they bind every required option that was unset.
   */
  lemma RenderedCommandLineParses(decls: seq<Decl>, prog: string, us: seq<Use>, vals: seq<Option<string>>)
    requires |vals| == |decls| && AllFit(decls, us)
    requires forall k :: 0 <= k < |decls| ==> !Missing(decls[k], Apply(us, vals)[k])
    ensures Parse(decls, [prog] + Render(decls, us), vals) == Outcome(None, Apply(us, vals))
  {
    assert Rest([prog] + Render(decls, us), 1) == Render(decls, us);
    RenderThenScan(decls, us, vals);
  }

  // ---------------------------------------------------------------------
  // The example program's option table: `-f` (required value), `-b` (value), `-z` (flag)

  function DemoDecls(): seq<Decl> {
    [Decl("-f", false, true), Decl("-b", false, false), Decl("-z", true, false)]
  }

  /** No arguments: the required `-f` is reported. */
  lemma DemoNoArguments()
    ensures Parse(DemoDecls(), ["demo"], [None, None, None]) ==
      Outcome(Some(Failure(MissingRequired, "-f")), [None, None, None])
  {
  }

  /** `-f -z`: `-z` is taken as the text of `-f`, so the flag stays unset. */
  lemma DemoValueLooksLikeOption()
    ensures Parse(DemoDecls(), ["demo", "-f", "-z"], [None, None, None]) ==
      Outcome(None, [Some("-z"), None, None])
  {
    assert Rest(["demo", "-f", "-z"], 1) == ["-f", "-z"];
  }

  /** `-z -q -f x`: `-q` is unknown; the flag bound before it stays bound, `-f` is never reached. */
  lemma DemoUnknownOption()
    ensures Parse(DemoDecls(), ["demo", "-z", "-q", "-f", "x"], [None, None, None]) ==
      Outcome(Some(Failure(UnknownOpt, "-q")), [None, None, Some("true")])
  {
    assert Rest(["demo", "-z", "-q", "-f", "x"], 1) == ["-z", "-q", "-f", "x"];
  }

  /** `-f x -b`: `-b` has no argument; `-f` keeps `x`. */
  lemma DemoMissingArgument()
    ensures Parse(DemoDecls(), ["demo", "-f", "x", "-b"], [None, None, None]) ==
      Outcome(Some(Failure(MissingArg, "-b")), [Some("x"), None, None])
  {
    assert Rest(["demo", "-f", "x", "-b"], 1) == ["-f", "x", "-b"];
  }

  /** `-f x -z -f y`: the last `-f` wins. */
  lemma DemoRepeatedOption()
    ensures Parse(DemoDecls(), ["demo", "-f", "x", "-z", "-f", "y"], [None, None, None]) ==
      Outcome(None, [Some("y"), None, Some("true")])
  {
    assert Rest(["demo", "-f", "x", "-z", "-f", "y"], 1) == ["-f", "x", "-z", "-f", "y"];
  }
}
