# tg — a Dafny model of the line filter's core

`tg` runs a command and passes its stdout and stderr through line filters.
Each output stream is cut into lines ending in CR, LF or CR LF. The line
terminator is stripped, and what remains is matched against regular expressions
registered from the command line (`-A -a -O -o -E -e <pattern>`) or from config
files (`-c <file>`). A line is forwarded unchanged, terminator included, when it
passes:

- every `A` pattern matches, and no `a` pattern does;
- then the stream's own list: `O`/`o` on stdout, `E`/`e` on stderr, with the same rule.

This project models the pure parts of `main.go`, in seven modules:

- `Bytes`, `Segmenter`: the split function `scanLines`. It is related to a
  one-scan reference (`LineEnd`, built on `FirstBreak`) and to the
  bufio.Scanner loop that calls it (`Scan`), which is proved independent of how
  the stream is chunked.
- `Rules`: the six pattern lists and the predicate `match`. Regular
  expressions are a parameter `Matcher` over opaque `Pattern`s.
- `Drain`: the `scanner` closure. It strips terminators, filters, and forwards
  each line, as a function of one stream's bytes (`DrainStream`). A method
  (`RunScanner`) runs the closure's loop chunk by chunk.
- `Config`: the config loader `load`. The filesystem is a map from path to
  lines, and `regexp.Compile` is a predicate `Compiler`. The absolute-path
  step of an include (`Resolve`) uses `filepath.IsAbs` for Unix, and takes
  `filepath.Abs` and `Join(Dir(..), ..)` as a parameter `PathOps`. Fatal
  errors are `Err` values.
- `Cli`: the argument loop of `main`. `ParseArgs` is the loop as written.
  `ParseArgsIntended` has `--` ending the flags and makes a `-c` path
  absolute before loading it (`LoadArgument`); see Findings.
- `Seqs`, `Wrappers`: generic helpers (`IndexOf` is `bytes.IndexByte` /
  `strings.IndexRune`), plus `Option` and `Result`.

## Model

| member | source | states |
|---|---|---|
| Seqs.IndexOf | main.go:27-32 | the index of the first occurrence, -1 exactly when the element is absent |
| Bytes.FirstBreak | main.go:22-23 | the position of the first CR or LF (or the length): no break before it, a break at it |
| Segmenter.ScanLines | main.go:23-55 | at EOF on empty data: no token, no advance; a token is always the first `advance` bytes, and a request for more data advances 0 |
| Segmenter.ScanLinesCutsFirstLine | main.go:27-54 | the two-scan code cuts exactly where the one-scan reference does: after the first CR, LF or CR LF; CR last waits for more data unless at EOF; text with no break waits unless at EOF |
| Segmenter.LineShape | main.go:34-51 | every cut token is break-free content followed by one terminator: nothing, CR, LF or CR LF |
| Segmenter.LineEndingMaximal | main.go:35-45 | a CR followed by LF is never split from it; a token without a terminator only occurs at EOF |
| Segmenter.NeedMoreWhen | main.go:39-54 | before EOF, more data is requested exactly when there is no break, or the first break is a CR that is the last buffered byte |
| Segmenter.ScanLinesStable | main.go:39-54 | a token cut before EOF is cut the same whatever bytes arrive later and whether EOF comes |
| Segmenter.Scan | main.go:198-199 | the lines the scanner yields, concatenated, are the buffered bytes followed by every chunk read: no byte lost, none added |
| Segmenter.SplitAllConcat | main.go:198-199 | the lines of a stream, concatenated, give back the stream: no byte lost, none added |
| Segmenter.SplitAllLines | main.go:22-23 | every line is non-empty break-free content plus one terminator, and only the last may lack one |
| Segmenter.ScanChunkingInvariant | main.go:195-199 | the scanner loop yields the same lines however the stream is delivered in chunks |
| Segmenter.ScanLinesOfStream | main.go:195-199 | the scanner, from an empty buffer, yields the lines of the whole stream |
| Rules.KeyRoundTrip | main.go:120 | the six rule keys and the six categories are in one-to-one correspondence |
| Rules.RuleSet.Add | main.go:125 | the pattern is appended to the end of its own category's list, and the other five lists are unchanged |
| Rules.AllMatchLoop | main.go:60-64 | a must loop returns true exactly when every pattern of its list matches the line |
| Rules.NoneMatchLoop | main.go:65-69 | a mustNot loop returns true exactly when no pattern of its list matches the line |
| Rules.Match | main.go:59-90 | returns true exactly when all `A` and the stream's include patterns match and no `a` or the stream's exclude pattern does |
| Rules.RejectionIff | main.go:60-88 | a line is rejected exactly when some must-match pattern, global (`A`) or of its stream, fails to match it, or some must-not-match pattern, global (`a`) or of its stream, matches it |
| Rules.NoRulesAdmitAll | main.go:59-90 | with no pattern registered every line is admitted |
| Rules.OtherStreamIgnored | main.go:72-78 | stdout lines ignore the `E`/`e` lists and stderr lines ignore `O`/`o` |
| Rules.AddNarrows | main.go:125 | registering one more pattern narrows admission by exactly that pattern's own test, and only on streams its category applies to |
| Rules.OrderIrrelevant | main.go:60-88 | only which patterns each list holds matters, not their order or repetition |
| Drain.Strip | main.go:201-212 | the content is a prefix of the line and what is removed is one terminator; CR LF loses both bytes |
| Drain.StripEnding | main.go:201-212 | break-free content with any terminator appended strips back to the content |
| Drain.TerminatorInvariance | main.go:201-213 | a line is matched the same whether it ends in CR, LF or CR LF |
| Drain.StripLine | main.go:200-213 | on a segmented line, the matched text is exactly the bytes before the first break |
| Drain.DrainLines | main.go:199-221 | the output is the admitted lines, each unchanged with its terminator, concatenated in input order, and never longer than all the lines together |
| Drain.DrainStream | main.go:197-222 | the output for one stream is its admitted lines, in order, and never longer than the stream |
| Drain.DrainAppend | main.go:199-221 | the output for two runs of lines is the output of the first followed by that of the second |
| Drain.KeptMembers | main.go:213-215 | a line is kept exactly when it occurs in the input and is admitted |
| Drain.DrainForwardAll | main.go:213-220 | when every line is admitted the output is the input lines concatenated |
| Drain.DrainWithoutRules | main.go:197-222 | with no rules a stream passes through byte for byte |
| Drain.Forward | main.go:213-220 | writes the whole line, terminator included, when admitted and nothing otherwise |
| Drain.RunScanner | main.go:197-222 | the loop over delivered chunks writes exactly the filtered stream of their concatenation |
| Config.ParseLine | main.go:107-138 | an accepted line is exactly the spelling of its directive, so nothing is lost; only the empty line is blank; a rejection names the file and the whole line |
| Config.ParseFormat | main.go:107-138 | every directive is parsed back from the line spelling it, values with spaces included |
| Config.ParseLineErrors | main.go:107-138 | only an empty line is blank; a line without a leading `-` or without a space is rejected, and so is any key other than A a O o E e c and `-`, empty and multi-character keys included |
| Config.Resolve | main.go:126-133 | an absolute include value is used as it is; a relative one is joined to the directory of the including file's absolute path; resolution fails exactly when the value is relative and the including file's absolute path cannot be found; with a path library that returns absolute paths the result is absolute |
| Config.Load | main.go:94-141 | a loaded path is skipped unchanged; a missing file is fatal; success marks the path loaded and only extends the state, reading each newly loaded path once; started from an absolute path, every path it newly loads is absolute |
| Config.LoadAcceptsEveryLine | main.go:105-126 | a bad line anywhere in a file is fatal: a fresh load that succeeds found every line of the file well formed and every pattern in it compiling |
| Config.LoadLines | main.go:105-140 | processing lines only extends the state and newly loads only absolute paths; a first line that does not parse ends the load with that line's error; a scan that succeeds accepted every line: each one parses, and each pattern line's pattern compiles |
| Config.Apply | main.go:119-139 | a pattern line succeeds exactly when the pattern compiles, and then appends to its own list only, else fails naming the pattern; comments and blank lines change nothing; an unresolvable include is fatal; an include of a loaded target changes nothing, one of a missing target is fatal, and a successful one leaves the target loaded |
| Config.IncludeLine | main.go:126-134 | an include line loads its resolved target and the scan goes on from the state that load left, unless the load failed, which ends the scan with its error |
| Config.IncludePatternFile | main.go:126-134 | including a file of pattern lines not loaded yet registers its patterns in order, marks it loaded and reads it once, and the scan goes on |
| Config.IncludeOfLoaded | main.go:126-134 | an include of an already loaded path changes nothing |
| Config.PatternLinesThen | main.go:119-125 | a run of pattern lines registers its patterns in order, loads nothing, and the scan goes on after it |
| Config.LineErrorAborts | main.go:107-118 | a line that does not parse, after any run of pattern lines, ends the whole load with its error whatever follows |
| Config.BadPatternAborts | main.go:121-124 | a pattern that does not compile, after any run of pattern lines, ends the whole load whatever follows |
| Config.LoadPatternFile | main.go:94-141 | loading a file of pattern lines from the start registers its patterns in file order and reads that file alone |
| Config.NoPathReadTwice | main.go:95-99 | across any nesting of includes no path string is read twice, and every read path is loaded |
| Config.LoadArgument | main.go:163-164 | the corrected `-c` handling: a relative path loads exactly as its absolute path would, and is fatal when that cannot be found; an absolute one loads as given; only extends the state, and every path it newly loads is absolute |
| Config.SelfIncludeUnderOtherKey | main.go:94-134 | a self-including file read under a key whose include resolves to another key not loaded yet is read again under that key, and its pattern is registered twice |
| Config.SelfIncludeRelativeReadTwice | main.go:164 | as written, `tg -c a.conf` in /d, where a.conf includes itself by that name, reads it as `a.conf` and again as `/d/a.conf`, registering its pattern twice |
| Config.SelfIncludeReadOnce | main.go:95-98 | with the `-c` path made absolute first, the same file is read once and its pattern registered once |
| Cli.FlagOf | main.go:149-157 | exactly the keys A a O o E e c name a flag, and only c names the config flag |
| Cli.ArgLoop | main.go:146-174 | once the loop sets the command index, it lies within the arguments |
| Cli.ArgLoopExtends | main.go:146-174 | flags only extend the loader's state; with the `-c` path made absolute, every path the loop loads is absolute |
| Cli.ArgLoopFlags | main.go:146-174 | pattern flags register their patterns in order, and the loop stops at the first argument without `-`, which is the command |
| Cli.Parse | main.go:175-182 | an error of the loop is fatal as it is; a flag still waiting for its value at the end is fatal, naming that flag; a missing or out-of-range command is fatal; on success the command is a non-empty proper suffix of the arguments |
| Cli.ArgLoopFlagsThenFlag | main.go:146-174 | pattern flags followed by a last flag with no value: the patterns are registered and the loop ends with that flag pending |
| Cli.MissingValueFatal | main.go:175-178 | `tg <pattern flags> -X` with nothing after `-X` is fatal, naming X, under either reading |
| Cli.ArgLoopFlagsThenBadPattern | main.go:163-170 | pattern flags followed by a pattern flag whose value does not compile end the loop with that value's error |
| Cli.InvalidPatternFatal | main.go:166-168 | `tg <pattern flags> -X v …` with a pattern `v` that does not compile is fatal, naming `v`, under either reading |
| Cli.ArgLoopFlagsThenBadConfig | main.go:163-164 | pattern flags followed by `-c path` whose load fails end the loop with that load's error |
| Cli.ConfigErrorFatal | main.go:163-164 | `tg <pattern flags> -c path …` is fatal with the load's own error whenever loading `path` into the state the flags left fails, under either reading |
| Cli.ArgLoopFlagsThenUnknown | main.go:148-157 | pattern flags followed by `-k` whose key names no flag end the loop rejecting that argument |
| Cli.UnknownFlagFatal | main.go:148-157 | `tg <pattern flags> -k …` with a key `k` that names no flag (and is not `-`) is fatal, naming `-k`, under either reading |
| Cli.CommandAfterFlags | main.go:146-182 | `tg <pattern flags> cmd args…` registers the patterns in order and runs `cmd args…` |
| Cli.ConfigFlagThenCommand | main.go:146-182 | `tg -c file <pattern flags> cmd` with a file of pattern lines registers the file's patterns and then the flags', reads that file alone, and runs `cmd` |
| Cli.ConfigThenFlagsLoop | main.go:146-174 | the loop over `-c path <pattern flags> cmd` loads `path`, appends the flags' patterns to what it loaded, and stops at `cmd` |
| Cli.ConfigFileActsAsFlags | main.go:146-182 | `tg -c file <more flags> cmd` and `tg <file's patterns, then more, as flags> cmd` both succeed, build the same registry, and run the same command |
| Rules.AddAllAppend | main.go:125 | registering two lists of patterns one after the other is registering their concatenation |
| Cli.DashDashCommandRejected | main.go:152-156 | as written, `tg -- -x` fails with an unknown flag; with `--` ending the flags it runs `-x` |
| Cli.DashDashFlagsStillParsed | main.go:152-175 | as written, `tg -- -A x` registers pattern `x` and runs `-A x` as the command |
| Cli.DashDashEndsFlags | main.go:152-154 | with `--` ending the flags, whatever follows it is the command |

## Left out

- Process handling: spawning the command, the pipes, waiting, and exit-code
  propagation (main.go:182-196, 223-235) are operating-system effects.
- Concurrency of the two drains: the source drains stdout to EOF and then
  stderr, sequentially, so a child that fills its stderr pipe first can block.
  The model treats each stream as a finished byte sequence and says nothing
  about ordering between them or about this deadlock.
- Regular-expression semantics: `regexp.Compile` and `MatchString` are
  parameters. Lemmas hold for every matcher, and nothing depends on RE2
  syntax.
- `filepath.Abs`, `Dir` and `Join` (main.go:127-133) are the `PathOps`
  parameter. A `None` from `abs` stands for the error of `filepath.Abs`.
  `filepath.IsAbs` is modelled for Unix only (a leading `/`); Windows volume
  names are not.
- bufio.Scanner's buffer limit (64 KiB by default). At main.go:199
  `sc.Scan()` returns false on `ErrTooLong` or on a read error, and
  `sc.Err()` is never checked, so a real drain stops silently at the first
  token of 64 KiB or more. The model's scanner has no limit and no read
  errors.
- Drain.DrainWithoutRules: byte-for-byte pass-through holds for the source
  only while every line is shorter than 64 KiB, for the reason above; the
  same limit applies to Drain.RunScanner and Segmenter.ScanLinesOfStream.
- The config scanner's own `ScanLines` (which drops a trailing CR): config
  files are given already split into lines.
- `fatal`'s message text and `os.Exit(1)`: each fatal call is an `Err` value
  carrying the message's context.
- The `readLog` field of `LoadState` is not in the source; it records the
  order of file opens so that "no path is read twice" can be stated.
- Config.Load: keyed by the path string as given, like the source's map, so
  two spellings of one file are two entries; the model does not identify
  them. Includes always produce absolute keys; a relative `-c` key is the
  second Findings row.

## Findings

| source | as written | input that shows it | evidently intended | confidence | as-written member | corrected member |
|---|---|---|---|---|---|---|
| main.go:152-154 | the `break` after `--` leaves only the `switch`, so the loop goes on reading flags | `tg -- -x` fails with "flag not recognized: -x"; `tg -- -A x` runs `-A` with pattern `x` registered | `--` ends the flags and the rest is the command | high (not executed) | Cli.DashDashCommandRejected | Cli.DashDashEndsFlags |
| main.go:164 | a `-c` path is loaded under the string as given, while an include is first made absolute (main.go:127-133), so `loaded` can hold two spellings of one file | `tg -c a.conf cmd` in /d, where a.conf holds `-A x` and `-c a.conf`: the file is read twice and `x` registered twice | every config file read once, with the `-c` path made absolute as an include's is | medium (not executed) | Config.SelfIncludeRelativeReadTwice | Config.SelfIncludeReadOnce |
