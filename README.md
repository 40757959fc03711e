# magot: a verified model of a minimal C option parser

magot is a small C library for command-line options. The caller declares
option records (`magot_t`). Each record has a name, a kind (flag or value
option), a required bit and a value slot that starts out NULL. The caller then
calls `magot_parse` with the argument vector. The parser walks `argv` from
index 1 and looks each token up by exact name among the declared records. An
unknown token fails at once. A flag gets the text `"true"`. A value option takes
the next token verbatim, or fails when it is the last token. After a complete
scan, the parser checks the records in declaration order for the first
required one that is still unset. A failure writes its kind and the offending
text into the caller's error record (`magot_err_t`). Values bound before the
failure stay bound.

The model has two layers:

- `ScanModel` (`scan_model.dfy`) states the meaning as values.
  - `Decl` is a record's fixed part. `Failure` and `ErrType` are the error record and its three kinds.
  - `Find` is the first-match lookup. `FirstMissing` is the required-option pass.
  - `Scan` is the argument scan. `Parse` is the whole call, a function of the declarations, the argument vector and the values held before the call.
- `Magot` (`magot.dfy`) is the C code in imperative form.
  - `Opt` is a class whose `value` field the parser writes in place. `ErrorRecord` is a class that is written only on failure.
  - `FindOpt` is the early-return lookup loop.
  - The two loops of `magot_parse` are `ScanArgs` (the argv loop, with the same early returns) and `FindMissingRequired` (the validation loop). `MagotParse` runs them in sequence and writes the missing-required error.
  - Each method is proved against the `ScanModel` function for the same code.

`ScanProperties` (`scan_properties.dfy`) proves what the parser promises about
that function:

- which tokens are examined, and that scans compose;
- what is left bound after a failure;
- which command lines are accepted: a rendering of option uses, scanned back, in both directions;
- that the last occurrence of an option wins;
- how validation depends on the scan;
- the behaviour of the example program's option table.

`Demo` (`demo.dfy`) is the example program as a client: it builds the three
option records and a zeroed error record and calls `MagotParse`.

`wrappers.dfy` holds the `Option` type that stands for a nullable `char *`.

Unlike parsers with long and short names, option clusters or a positional sink, this code is deliberately small:

- A flag is bound to `"true"`, not to an empty string.
- Names are matched exactly. There is no long/short split, no clustering, no POSIX/GNU style and no positional sink. Every token after index 0 must name an option or be a value.
- The missing-argument error carries the option's declared name. Because lookup is by exact match, that is the same text as the offending token (`FailureKeepsEarlierBindings` proves this).
- The missing-required error carries the option's single name.

## Model

| member | source | states |
|---|---|---|
| `ScanModel.Find` | magot.c:23-30 | returns the index of the first declaration whose name equals the token exactly, with no earlier equal name; returns none exactly when no name matches |
| `ScanModel.FirstMissing` | magot.c:66-73 | returns the index of the first declaration, in declaration order, that is required and unset; returns none exactly when every required option is set |
| `ScanModel.Scan` | magot.c:48-65 | the scan keeps one value slot per declaration and can fail only with an unknown-option or missing-argument error, never a missing-required one |
| `ScanModel.Parse` | magot.c:39-75 | a successful parse leaves no required option unset; a missing-required failure names a declared option that is required and unset |
| `Magot.Opt.Init` | magot.c:7-13 | needs `!flag \|\| !required`; afterwards name, kind and requiredness are exactly as given, the record is well formed and unset |
| `Magot.Opt.InitFlag` | magot.c:15-17 | creates a flag that is not required, well formed and unset |
| `Magot.Opt.InitOpt` | magot.c:19-21 | creates a value option with the given requiredness, well formed and unset |
| `Magot.ErrorRecord.constructor` | demo.c:11-12 | creates the caller's error record zeroed: kind is the first enumerator, text empty |
| `Magot.FindOpt` | magot.c:23-30 | returns null exactly when no record has the name, and otherwise the record at the first matching position (via `Find`) |
| `Magot.FindMissingRequired` | magot.c:66-73 | returns null exactly when no record is required and unset, and otherwise the first such record in list order (via `FirstMissing`) |
| `Magot.Bind` | magot.c:61-63 | writing a value into the record at position `k` of a list of distinct records changes that position of the list's values and no other |
| `Magot.ScanArgs` | magot.c:48-65 | the records' values afterwards are the values of `Scan` over `argv[1..]`; it returns true exactly when that scan succeeds; on failure the error record holds the scan's failure, and on success the error record is untouched |
| `Magot.MagotParse` | magot.c:39-75 | the records' values afterwards are the values of `Parse`; it returns true exactly when `Parse` succeeds; on failure the error record holds `Parse`'s failure, and on success the error record is untouched and every required record is set (`IsSet`, the test of magot.c:77-79) |
| `Demo.RunDemo` | demo.c:5-13 | declaring `-f` (required value), `-b` (value) and `-z` (flag) and parsing any argument vector gives exactly `Parse` on that table from unset values; success means `-f` is bound |
| `Demo.RunDemoMissingArgument` | demo.c:5-13 | running the example program on `-f x -b` fails with missing argument `-b` while `-f` holds `x` |
| `ScanProperties.ScanAppend` | magot.c:48-65 | a scan that succeeds on `a` continues on `a + b` exactly as a scan of `b` from the values `a` left |
| `ScanProperties.UnknownStopsScan` | magot.c:49-54 | after an unknown token no later token is examined: appending any tokens gives the same outcome |
| `ScanProperties.FailureKeepsEarlierBindings` | magot.c:49-61 | a failed scan stops at some token `j`, and its values equal a successful scan of the tokens before `j`. An unknown-option error carries token `j`, which names no option. A missing-argument error happens only at the last token, which is a value option, and carries its name |
| `ScanProperties.FlagKeepsNextToken` | magot.c:62-64 | a flag binds `"true"` and the token after it is scanned as an option, not consumed |
| `ScanProperties.ValueTakesNextToken` | magot.c:55-61 | a value option binds the next token verbatim, whatever it is (even another option's name), and the scan resumes after it |
| `ScanProperties.ScanBindsOnlyNamed` | magot.c:49-64 | an option that no token names keeps its value; a declaration shadowed by an earlier one of the same name never changes |
| `ScanProperties.ScanNeverUnsets` | magot.c:61-63 | a scan only binds and never clears, so an option set before the call (by an earlier parse) stays set |
| `ScanProperties.RenderThenScan` | magot.c:48-65 | a command line written from well-formed uses of unshadowed options scans without error and binds what the uses apply, in order |
| `ScanProperties.ScanThenRender` | magot.c:48-65 | every token sequence that scans without error is the rendering of well-formed uses, and the scan binds exactly what those uses apply |
| `ScanProperties.ApplyUnused` | magot.c:61-63 | an option that no use mentions keeps its value |
| `ScanProperties.LastOccurrenceWins` | magot.c:61-63 | when an option is used several times, its final value is the one from its last use |
| `ScanProperties.ProgramNameIgnored` | magot.c:48 | `argv[0]` is never looked up or bound: replacing it does not change the parse |
| `ScanProperties.NoArgumentsOnlyValidates` | magot.c:48-73 | with at most the program name, parsing binds nothing and only runs the required-option pass |
| `ScanProperties.ParseFailures` | magot.c:49-72 | scan failures are returned unchanged; a missing-required failure happens exactly when the scan succeeded and some required option is unset, and it names the first such option |
| `ScanProperties.ParseSucceeds` | magot.c:66-74 | a parse succeeds exactly when the scan succeeds and every required option is set afterwards |
| `ScanProperties.RenderedCommandLineParses` | magot.c:39-75 | a rendered command line that binds every required option parses successfully to the values the uses apply |
| `ScanProperties.DemoNoArguments` | demo.c:7-13 | with the example table and no arguments, the parse fails with missing-required `-f` |
| `ScanProperties.DemoValueLooksLikeOption` | demo.c:7-13 | `-f -z` binds `-z` as the text of `-f` and leaves the flag `-z` unset |
| `ScanProperties.DemoUnknownOption` | demo.c:7-13 | `-z -q -f x` fails with unknown `-q`; `-z` stays bound and `-f` is never reached |
| `ScanProperties.DemoMissingArgument` | demo.c:7-13 | `-f x -b` fails with missing argument `-b`, and `-f` keeps `x` |
| `ScanProperties.DemoRepeatedOption` | demo.c:7-13 | `-f x -z -f y` succeeds with `-f` bound to `y` and `-z` bound to `"true"` |

## Left out

- `errmsg` (magot.c:32-37) is not modelled. It does heap allocation and string concatenation, and no code calls it.
- The variadic collection of records (magot.c:40-46) becomes an explicit `seq<Opt>` argument.
- `Magot.MagotParse`: requires the records in the list to be distinct objects. The C code also accepts the same record twice, in which case lookup finds its first position. The same requirement applies to `Magot.ScanArgs`.
- `Magot.Opt.Init`: a record's name, kind and requiredness are `const` fields set by a constructor. The C code can call `magot_init` again on an existing record to re-initialise it (which also clears its value), and the model does not capture that.
- C pointer and string mechanics (`char *` identity, NUL-terminated `strcmp`, NULL) become `string` equality and `Option<string>`. The `assert` in `magot_init` becomes a precondition, not a process abort.
- `argc` and the loop counters are unbounded integers. An `int` overflow of `argc` or `i` is not modelled.
- `demo.c`'s `printf`/`puts` output and exit codes are not modelled. Its option table, error record and the call to the parser are.
