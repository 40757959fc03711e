/**
  The example program as a client of the library: it declares the three
  options `-f` (required value), `-b` (value) and `-z` (flag), zeroes an
  error record and parses its argument vector.
 */
module Demo {
  import opened Wrappers
  import opened ScanModel
  import opened Magot
  import ScanProperties

  /**
    Declare the example table, parse `args` and hand back the result, the
    failure when there is one, and the three values in declaration order.
   */
  method RunDemo(args: seq<string>) returns (ok: bool, failure: Option<Failure>, values: seq<Option<string>>)
    ensures Parse(ScanProperties.DemoDecls(), args, [None, None, None]) == Outcome(failure, values)
    ensures ok <==> failure.None?
    ensures ok ==> values[0].Some?
  {
    var foo := new Opt.InitOpt("-f", true);
    var bar := new Opt.InitOpt("-b", false);
    var baz := new Opt.InitFlag("-z");
    var err := new ErrorRecord();
    var opts := [foo, bar, baz];
    assert Decls(opts) == ScanProperties.DemoDecls();
    assert Values(opts) == [None, None, None];
    ok := MagotParse(err, args, opts);
    failure := if ok then None else Some(err.Get());
    values := [foo.value, bar.value, baz.value];
    assert values == Values(opts);
  }

  /** `demo -f x -b` reports the missing argument of `-b`, and `-f` holds `x`. */
  method RunDemoMissingArgument() returns (ok: bool, failure: Option<Failure>, foo: Option<string>)
    ensures !ok && failure == Some(Failure(MissingArg, "-b")) && foo == Some("x")
  {
    var values;
    ok, failure, values := RunDemo(["demo", "-f", "x", "-b"]);
    ScanProperties.DemoMissingArgument();
    foo := values[0];
  }
}
