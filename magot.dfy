/**
  The C library itself: caller-owned option records whose value slot the
  parser writes in place, the caller's error record written on failure, the
  early-return lookup loops and the argument scan, each proved against the
  value-level model in ScanModel.
 */
module Magot {
  import opened Wrappers
  import opened ScanModel

  /**
    An option record (`magot_t`). Name, kind and requiredness are fixed when
    the record is initialised; only the value slot changes afterwards.
   */
  class Opt {
    const name: string
    const flag: bool
    const required: bool
    var value: Option<string>

    /** The fixed part of this record as a value. */
    function Decl(): ScanModel.Decl {
      ScanModel.Decl(name, flag, required)
    }

    /** `magot_init`: a flag may not be required; the new record is unset. */
    constructor Init(name: string, flag: bool, required: bool)
      requires !flag || !required
      ensures this.name == name && this.flag == flag && this.required == required
      ensures value == None && !IsSet()
      ensures WellFormed(Decl())
    {
      this.name := name;
      this.flag := flag;
      this.required := required;
      this.value := None;
    }

    /** `magot_init_flag`: a flag, never required, unset. */
    constructor InitFlag(name: string)
      ensures Decl() == ScanModel.Decl(name, true, false) && value == None
      ensures WellFormed(Decl())
    {
      this.name := name;
      this.flag := true;
      this.required := false;
      this.value := None;
    }

    /** `magot_init_opt`: a value option with the given requiredness, unset. */
    constructor InitOpt(name: string, required: bool)
      ensures Decl() == ScanModel.Decl(name, false, required) && value == None
      ensures WellFormed(Decl())
    {
      this.name := name;
      this.flag := false;
      this.required := required;
      this.value := None;
    }

    /** `magot_isset`: whether a value is bound (the C test `value != NULL`). */
    predicate IsSet()
      reads this
    {
      value.Some?
    }
  }

  /** The caller's error record (`magot_err_t`), written only when parsing fails. */
  class ErrorRecord {
    var kind: ErrType
    var arg: string

    /** A zeroed record, as a caller sets one up before parsing. */
    constructor ()
      ensures kind == MissingRequired && arg == ""
    {
      kind := MissingRequired;
      arg := "";
    }

    /** The failure this record holds. */
    function Get(): Failure
      reads this
    {
      Failure(kind, arg)
    }
  }

  /** No record occurs twice in the option list. */
  predicate Distinct(opts: seq<Opt>) {
    forall i, j :: 0 <= i < j < |opts| ==> opts[i] != opts[j]
  }

  /** The declarations of an option list, in list order. */
  function Decls(opts: seq<Opt>): (ds: seq<ScanModel.Decl>)
    ensures |ds| == |opts|
    ensures forall k :: 0 <= k < |opts| ==> ds[k] == opts[k].Decl()
  {
    seq(|opts|, k requires 0 <= k < |opts| => opts[k].Decl())
  }

  /** The values bound in an option list, in list order. */
  function Values(opts: seq<Opt>): (vs: seq<Option<string>>)
    reads opts
    ensures |vs| == |opts|
    ensures forall k :: 0 <= k < |opts| ==> vs[k] == opts[k].value
  {
    seq(|opts|, k requires 0 <= k < |opts| reads opts => opts[k].value)
  }

  /** After a write to the record at `k`, only the `k`th value differs. */
  lemma BindUpdates(opts: seq<Opt>, k: nat, before: seq<Option<string>>)
    requires Distinct(opts) && k < |opts| && |before| == |opts|
    requires forall j :: 0 <= j < |opts| && opts[j] != opts[k] ==> opts[j].value == before[j]
    ensures Values(opts) == before[k := opts[k].value]
  {
  }

  /** Bind `text` to the record `opt`, which sits at position `k` of the list. */
  method Bind(opts: seq<Opt>, ghost k: nat, opt: Opt, text: string)
    requires Distinct(opts) && k < |opts| && opts[k] == opt
    modifies opt
    ensures Values(opts) == old(Values(opts))[k := Some(text)]
  {
    ghost var before := Values(opts);
    opt.value := Some(text);
    BindUpdates(opts, k, before);
  }

  /** `find_opt`: the first record in list order whose name equals `name`, or null. */
  method FindOpt(opts: seq<Opt>, name: string) returns (r: Opt?)
    ensures r == null <==> forall j :: 0 <= j < |opts| ==> opts[j].name != name
    ensures r == match Find(Decls(opts), name) case Some(k) => opts[k] case None => null
  {
    for i := 0 to |opts|
      invariant forall j :: 0 <= j < i ==> opts[j].name != name
    {
      if opts[i].name == name {
        return opts[i];
      }
    }
    return null;
  }

  /**
    The validation loop of `magot_parse`: the first record in list order that
    is required and unset, or null.
   */
  method FindMissingRequired(opts: seq<Opt>) returns (r: Opt?)
    ensures r == null <==> forall j :: 0 <= j < |opts| ==> !(opts[j].required && !opts[j].IsSet())
    ensures r == match FirstMissing(Decls(opts), Values(opts)) case Some(k) => opts[k] case None => null
  {
    for j := 0 to |opts|
      invariant forall m :: 0 <= m < j ==> !Missing(opts[m].Decl(), opts[m].value)
    {
      if opts[j].required && !opts[j].IsSet() {
        return opts[j];
      }
    }
    return null;
  }

  /**
    The scan loop of `magot_parse`: from index 1, look each token up, bind a
    flag to the sentinel or a value option to the next token, and stop at the
    first unknown token or a value option with nothing after it, writing the
    failure into `err`. Values bound before a failure stay bound.
   */
  method ScanArgs(err: ErrorRecord, args: seq<string>, opts: seq<Opt>) returns (ok: bool)
    requires Distinct(opts)
    modifies err, opts
    ensures Scan(Decls(opts), Rest(args, 1), old(Values(opts))) ==
      Outcome(if ok then None else Some(err.Get()), Values(opts))
    ensures ok ==> unchanged(err)
  {
    ghost var decls := Decls(opts);
    ghost var scanned := Scan(decls, Rest(args, 1), Values(opts));
    var i := 1;
    while i < |args|
      invariant 1 <= i && (i <= |args| || |args| <= 1)
      invariant unchanged(err)
      invariant Scan(decls, Rest(args, i), Values(opts)) == scanned
    {
      ScanAt(decls, args, i, Values(opts));
      var opt := FindOpt(opts, args[i]);
      if opt == null {
        err.kind := UnknownOpt;
        err.arg := args[i];
        return false;
      }
      ghost var k := Find(decls, args[i]).value;
      assert opt == opts[k];
      if !opt.flag {
        if i + 1 == |args| {
          err.kind := MissingArg;
          err.arg := opt.name;
          return false;
        }
        Bind(opts, k, opt, args[i + 1]);
        i := i + 2;
      } else {
        Bind(opts, k, opt, FlagSentinel);
        i := i + 1;
      }
    }
    assert Rest(args, i) == [];
    return true;
  }

  /**
    `magot_parse`: scan the arguments, then, only if the scan succeeded,
    report the first required option left unset. Returns true exactly when
    the model's parse succeeds; on failure the error record holds the
    model's failure, and in every case the records hold the model's values.
   */
  method MagotParse(err: ErrorRecord, args: seq<string>, opts: seq<Opt>) returns (ok: bool)
    requires Distinct(opts)
    modifies err, opts
    ensures var r := Parse(Decls(opts), args, old(Values(opts)));
      Values(opts) == r.values && (ok <==> r.err.None?) &&
      (ok ==> unchanged(err)) && (!ok ==> r.err == Some(err.Get()))
    ensures ok ==> forall k :: 0 <= k < |opts| && opts[k].required ==> opts[k].IsSet()
  {
    ghost var vals0 := Values(opts);
    ok := ScanArgs(err, args, opts);
    if !ok {
      ParseOfFailedScan(Decls(opts), args, vals0);
      return;
    }
    var missing := FindMissingRequired(opts);
    if missing != null {
      ParseOfScanMissing(Decls(opts), args, vals0, FirstMissing(Decls(opts), Values(opts)).value);
      err.kind := MissingRequired;
      err.arg := missing.name;
      return false;
    }
  }
}
