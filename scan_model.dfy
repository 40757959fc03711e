/**
  The value-level meaning of magot's parser: option declarations as values,
  first-match lookup, the argument scan, the required-option pass, and the
  whole parse as one function of the declarations, the argument vector and
  the values the options held before the call.
 */
module ScanModel {
  import opened Wrappers

  /** The three error kinds of magot.h, in their declaration order. */
  datatype ErrType = MissingRequired | MissingArg | UnknownOpt

  /** What a failed parse writes into the caller's error record. */
  datatype Failure = Failure(kind: ErrType, arg: string)

  /** The immutable part of an option record: its name, kind and requiredness. */
  datatype Decl = Decl(name: string, flag: bool, required: bool)

  /** Either an error (first failure wins) or none, plus every option's value afterwards. */
  datatype Outcome = Outcome(err: Option<Failure>, values: seq<Option<string>>)

  /** The text a flag is bound to when it is present. */
  const FlagSentinel: string := "true"

  /** A declaration may be constructed only if a flag is never required. */
  predicate WellFormed(d: Decl) {
    !d.flag || !d.required
  }

  /** An option is missing when it is required and nothing is bound to it. */
  predicate Missing(d: Decl, v: Option<string>) {
    d.required && v.None?
  }

  /** Index of the first declaration whose name is exactly `name`, if any. */
  function Find(decls: seq<Decl>, name: string): (r: Option<nat>)
    ensures r.None? <==> forall j :: 0 <= j < |decls| ==> decls[j].name != name
    ensures r.Some? ==> r.value < |decls| && decls[r.value].name == name
    ensures r.Some? ==> forall j :: 0 <= j < r.value ==> decls[j].name != name
  {
    if |decls| == 0 then None
    else if decls[0].name == name then Some(0)
    else match Find(decls[1..], name)
      case None => None
      case Some(j) => Some(j + 1)
  }

  /** Index of the first declared option, in declaration order, that is required and unset. */
  function FirstMissing(decls: seq<Decl>, vals: seq<Option<string>>): (r: Option<nat>)
    requires |vals| == |decls|
    ensures r.None? <==> forall j :: 0 <= j < |decls| ==> !Missing(decls[j], vals[j])
    ensures r.Some? ==> r.value < |decls| && Missing(decls[r.value], vals[r.value])
    ensures r.Some? ==> forall j :: 0 <= j < r.value ==> !Missing(decls[j], vals[j])
  {
    if |decls| == 0 then None
    else if Missing(decls[0], vals[0]) then Some(0)
    else match FirstMissing(decls[1..], vals[1..])
      case None => None
      case Some(j) => Some(j + 1)
  }

  /** The tokens from index `i` on, or none when `i` is past the end. */
  function Rest(args: seq<string>, i: nat): seq<string> {
    if i < |args| then args[i..] else []
  }

  /**
    The argument scan over the remaining tokens: each token is looked up by
    exact name; an unknown token stops the scan; a flag binds the sentinel;
    a value option binds the next token verbatim, or stops the scan when it
    is the last token.
   */
  function Scan(decls: seq<Decl>, toks: seq<string>, vals: seq<Option<string>>): (r: Outcome)
    requires |vals| == |decls|
    ensures |r.values| == |decls|
    ensures r.err.Some? ==> r.err.value.kind != MissingRequired
    decreases |toks|
  {
    if toks == [] then Outcome(None, vals)
    else match Find(decls, toks[0])
      case None => Outcome(Some(Failure(UnknownOpt, toks[0])), vals)
      case Some(k) =>
        if decls[k].flag then Scan(decls, toks[1..], vals[k := Some(FlagSentinel)])
        else if |toks| == 1 then Outcome(Some(Failure(MissingArg, decls[k].name)), vals)
        else Scan(decls, toks[2..], vals[k := Some(toks[1])])
  }

  /**
    The whole parse: scan from index 1 (index 0 is the program name), then,
    only if the scan succeeded, report the first required option left unset.
   */
  function Parse(decls: seq<Decl>, args: seq<string>, vals: seq<Option<string>>): (r: Outcome)
    requires |vals| == |decls|
    ensures |r.values| == |decls|
    ensures r.err.None? ==> forall k :: 0 <= k < |decls| ==> !Missing(decls[k], r.values[k])
    ensures r.err.Some? && r.err.value.kind == MissingRequired ==>
      exists k :: 0 <= k < |decls| && Missing(decls[k], r.values[k]) && r.err.value.arg == decls[k].name
  {
    var s := Scan(decls, Rest(args, 1), vals);
    if s.err.Some? then s
    else match FirstMissing(decls, s.values)
      case None => s
      case Some(k) => Outcome(Some(Failure(MissingRequired, decls[k].name)), s.values)
  }

  /** One step of Scan over the argument vector from cursor `i`, as the imperative loop takes it. */
  lemma ScanAt(decls: seq<Decl>, args: seq<string>, i: nat, vals: seq<Option<string>>)
    requires |vals| == |decls| && i < |args|
    ensures Scan(decls, Rest(args, i), vals) ==
      match Find(decls, args[i])
      case None => Outcome(Some(Failure(UnknownOpt, args[i])), vals)
      case Some(k) =>
        if decls[k].flag then Scan(decls, Rest(args, i + 1), vals[k := Some(FlagSentinel)])
        else if i + 1 == |args| then Outcome(Some(Failure(MissingArg, decls[k].name)), vals)
        else Scan(decls, Rest(args, i + 2), vals[k := Some(args[i + 1])])
  {
    assert Rest(args, i)[0] == args[i];
    assert Rest(args, i)[1..] == Rest(args, i + 1);
    if i + 1 < |args| {
      assert Rest(args, i)[1] == args[i + 1];
      assert Rest(args, i)[2..] == Rest(args, i + 2);
    }
  }

  /** A failed scan is the parse's outcome: validation never runs. */
  lemma ParseOfFailedScan(decls: seq<Decl>, args: seq<string>, vals: seq<Option<string>>)
    requires |vals| == |decls| && Scan(decls, Rest(args, 1), vals).err.Some?
    ensures Parse(decls, args, vals) == Scan(decls, Rest(args, 1), vals)
  {
  }

  /** After a successful scan, the parse reports the `k`th option exactly when it is the first missing one. */
  lemma ParseOfScanMissing(decls: seq<Decl>, args: seq<string>, vals: seq<Option<string>>, k: nat)
    requires |vals| == |decls| && Scan(decls, Rest(args, 1), vals).err.None?
    requires FirstMissing(decls, Scan(decls, Rest(args, 1), vals).values) == Some(k)
    ensures Parse(decls, args, vals) ==
      Outcome(Some(Failure(MissingRequired, decls[k].name)), Scan(decls, Rest(args, 1), vals).values)
  {
  }
}
