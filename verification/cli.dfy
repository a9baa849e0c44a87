/** The argument loop of `main` (main.go:143-181): flags -A -a -O -o -E -e
    take a pattern, -c takes a config path loaded at once, and the first
    argument not starting with `-` is the command. */
module Cli {
  import opened Wrappers
  import opened Rules
  import opened Config
  import opened Seqs

  /** A flag waiting for its value (`flagType` in the source). */
  datatype Flag = PatternFlag(category: Category) | ConfigFlag

  /** The fatal errors of argument parsing. */
  datatype CliError =
    | UnknownFlag(arg: string)
    | InvalidPattern(arg: string)
    | MissingValue(key: string)
    | NoCommand
    | ConfigError(error: LoadError)

  /** The loop's variables: the pending flag, the index of the command in
      os.Args[1:] (-1 while none is known), and the loader's state. */
  datatype ArgState = ArgState(pending: Option<Flag>, command: int, st: LoadState)

  /** The parsed invocation: the rules and the command's argument vector. */
  datatype Invocation = Invocation(st: LoadState, command: seq<string>)

  /** The flag a key names: the cases of main.go:150. */
  function FlagOf(key: string): (r: Option<Flag>)
    ensures r.Some? <==> key in {"A", "a", "O", "o", "E", "e", "c"}
    ensures r == Some(ConfigFlag) <==> key == "c"
  {
    if key == "c" then Some(ConfigFlag)
    else match CategoryOfKey(key)
      case Some(c) => Some(PatternFlag(c))
      case None => None
  }

  function FlagKey(f: Flag): string
  {
    match f
    case PatternFlag(c) => KeyOf(c)
    case ConfigFlag => "c"
  }

  predicate IsFlagLike(v: string)
  {
    |v| > 0 && v[0] == '-'
  }

  /** The load a -c value triggers: as written the path as given, as
      intended the path made absolute first. */
  function LoadValue(fs: FileSystem, compiles: Compiler, paths: PathOps, intended: bool,
                     path: string, st: LoadState): Result<LoadState, LoadError>
  {
    if intended then LoadArgument(fs, compiles, paths, path, st) else Load(fs, compiles, paths, path, st)
  }

  /** The loop over `args` = os.Args[1:] from position `i`. With `intended`
      false this is the loop as written: the `break` after `--` leaves only
      the switch, so later arguments are still read as flags, and a -c path
      is loaded as given. With it true, `--` ends the loop as the other
      `break` does, and a -c path is made absolute first (LoadArgument).
      The command index, once set, lies within the arguments; what the loop
      does to the loader's state is ArgLoopExtends. */
  function ArgLoop(fs: FileSystem, compiles: Compiler, paths: PathOps, intended: bool,
                   args: seq<string>, i: nat, a: ArgState)
    : (r: Result<ArgState, CliError>)
    requires i <= |args|
    ensures r.Ok? ==> r.value.command == a.command || i <= r.value.command <= |args|
    decreases |args| - i
  {
    if i == |args| then Ok(a)
    else
      var v := args[i];
      match a.pending
      case None =>
        if IsFlagLike(v) then
          (match FlagOf(v[1..])
           case Some(f) => ArgLoop(fs, compiles, paths, intended, args, i + 1, a.(pending := Some(f)))
           case None =>
             if v[1..] == "-" then
               if intended then Ok(a.(command := i + 1))
               else ArgLoop(fs, compiles, paths, intended, args, i + 1, a.(command := i + 1))
             else Err(UnknownFlag(v)))
        else Ok(a.(command := i))
      case Some(ConfigFlag) =>
        var loaded := LoadValue(fs, compiles, paths, intended, v, a.st);
        if loaded.Err? then Err(ConfigError(loaded.error))
        else ArgLoop(fs, compiles, paths, intended, args, i + 1, ArgState(None, a.command, loaded.value))
      case Some(PatternFlag(c)) =>
        if compiles(v) then
          ArgLoop(fs, compiles, paths, intended, args, i + 1,
                  ArgState(None, a.command, a.st.(rules := a.st.rules.Add(c, Pattern(v)))))
        else Err(InvalidPattern(v))
  }

  /** The loop's effect on the loader's state: only extensions, and read as
      intended, only absolute paths newly loaded. */
  ghost predicate StateGrows(fs: FileSystem, paths: PathOps, intended: bool,
                             st: LoadState, r: Result<ArgState, CliError>)
  {
    r.Ok? ==> Extends(fs, st, r.value.st) && (intended && Sane(paths) ==> NewKeysAbsolute(st, r.value.st))
  }

  /** Flags only extend the loader's state: patterns are appended and config
      files loaded, nothing is removed. Read as intended, every config path
      the loop loads is absolute. */
  lemma {:induction false} ArgLoopExtends(fs: FileSystem, compiles: Compiler, paths: PathOps, intended: bool,
                                           args: seq<string>, i: nat, a: ArgState)
    requires i <= |args|
    ensures StateGrows(fs, paths, intended, a.st, ArgLoop(fs, compiles, paths, intended, args, i, a))
    decreases |args| - i, 1
  {
    ExtendsRefl(fs, a.st);
    if i < |args| {
      match a.pending
      case None => FlagExtends(fs, compiles, paths, intended, args, i, a);
      case Some(ConfigFlag) => ConfigValueExtends(fs, compiles, paths, intended, args, i, a);
      case Some(PatternFlag(c)) => PatternValueExtends(fs, compiles, paths, intended, args, i, c, a);
    }
  }

  /** ArgLoopExtends, when the argument at `i` is read as a flag or the
      command. */
  lemma {:induction false} FlagExtends(fs: FileSystem, compiles: Compiler, paths: PathOps, intended: bool,
                                        args: seq<string>, i: nat, a: ArgState)
    requires i < |args| && a.pending.None?
    ensures StateGrows(fs, paths, intended, a.st, ArgLoop(fs, compiles, paths, intended, args, i, a))
    decreases |args| - i, 0
  {
    ExtendsRefl(fs, a.st);
    var v := args[i];
    if IsFlagLike(v) && FlagOf(v[1..]).Some? {
      var a1 := a.(pending := Some(FlagOf(v[1..]).value));
      assert ArgLoop(fs, compiles, paths, intended, args, i, a) == ArgLoop(fs, compiles, paths, intended, args, i + 1, a1);
      ArgLoopExtends(fs, compiles, paths, intended, args, i + 1, a1);
    } else if IsFlagLike(v) && v[1..] == "-" && !intended {
      var a1 := a.(command := i + 1);
      assert ArgLoop(fs, compiles, paths, intended, args, i, a) == ArgLoop(fs, compiles, paths, intended, args, i + 1, a1);
      ArgLoopExtends(fs, compiles, paths, intended, args, i + 1, a1);
    }
  }

  /** ArgLoopExtends, when the argument at `i` is the path of a -c flag. */
  lemma {:induction false} ConfigValueExtends(fs: FileSystem, compiles: Compiler, paths: PathOps, intended: bool,
                                               args: seq<string>, i: nat, a: ArgState)
    requires i < |args| && a.pending == Some(ConfigFlag)
    ensures StateGrows(fs, paths, intended, a.st, ArgLoop(fs, compiles, paths, intended, args, i, a))
    decreases |args| - i, 0
  {
    var v := args[i];
    var loaded := if intended then LoadArgument(fs, compiles, paths, v, a.st)
                  else Load(fs, compiles, paths, v, a.st);
    if loaded.Ok? {
      var a1 := ArgState(None, a.command, loaded.value);
      assert ArgLoop(fs, compiles, paths, intended, args, i, a) == ArgLoop(fs, compiles, paths, intended, args, i + 1, a1);
      ArgLoopExtends(fs, compiles, paths, intended, args, i + 1, a1);
      GrowsThrough(fs, paths, intended, a.st, a1.st, ArgLoop(fs, compiles, paths, intended, args, i + 1, a1));
    }
  }

  /** ArgLoopExtends, when the argument at `i` is the value of a pattern
      flag. */
  lemma {:induction false} PatternValueExtends(fs: FileSystem, compiles: Compiler, paths: PathOps, intended: bool,
                                                args: seq<string>, i: nat, c: Category, a: ArgState)
    requires i < |args| && a.pending == Some(PatternFlag(c))
    ensures StateGrows(fs, paths, intended, a.st, ArgLoop(fs, compiles, paths, intended, args, i, a))
    decreases |args| - i, 0
  {
    var v := args[i];
    if compiles(v) {
      var a1 := ArgState(None, a.command, a.st.(rules := a.st.rules.Add(c, Pattern(v))));
      AddExtends(fs, a.st, c, Pattern(v));
      assert ArgLoop(fs, compiles, paths, intended, args, i, a) == ArgLoop(fs, compiles, paths, intended, args, i + 1, a1);
      ArgLoopExtends(fs, compiles, paths, intended, args, i + 1, a1);
      GrowsThrough(fs, paths, intended, a.st, a1.st, ArgLoop(fs, compiles, paths, intended, args, i + 1, a1));
    }
  }

  /** One step of the loop followed by the rest of it. */
  lemma GrowsThrough(fs: FileSystem, paths: PathOps, intended: bool,
                     st0: LoadState, st1: LoadState, r: Result<ArgState, CliError>)
    requires Extends(fs, st0, st1) && (intended && Sane(paths) ==> NewKeysAbsolute(st0, st1))
    requires StateGrows(fs, paths, intended, st1, r)
    ensures StateGrows(fs, paths, intended, st0, r)
  {
    if r.Ok? {
      ExtendsTrans(fs, st0, st1, r.value.st);
    }
  }

  /** The loop, then the checks of main.go:175-181, over `argv` = os.Args.
      A loop error is fatal as it is; a flag still waiting for its value is
      fatal naming its key; so is a command index outside the arguments.
      Otherwise the command is a non-empty proper suffix of `argv`. */
  function Parse(fs: FileSystem, compiles: Compiler, paths: PathOps, intended: bool, argv: seq<string>)
    : (r: Result<Invocation, CliError>)
    requires |argv| >= 1
    ensures r.Ok? ==> 0 < |r.value.command| < |argv| && r.value.command == argv[|argv| - |r.value.command|..]
    ensures var l := ArgLoop(fs, compiles, paths, intended, argv[1..], 0, ArgState(None, -1, Initial));
            && (l.Err? ==> r == Err(l.error))
            && (l.Ok? && l.value.pending.Some? ==> r == Err(MissingValue(FlagKey(l.value.pending.value))))
            && (l.Ok? && l.value.pending.None? && (l.value.command < 0 || l.value.command + 1 >= |argv|)
                ==> r == Err(NoCommand))
  {
    match ArgLoop(fs, compiles, paths, intended, argv[1..], 0, ArgState(None, -1, Initial))
    case Err(e) => Err(e)
    case Ok(a) =>
      var command := a.command + 1;
      if a.pending.Some? then Err(MissingValue(FlagKey(a.pending.value)))
      else if command <= 0 || command >= |argv| then Err(NoCommand)
      else Ok(Invocation(a.st, argv[command..]))
  }

  /** Argument parsing as written. */
  function ParseArgs(fs: FileSystem, compiles: Compiler, paths: PathOps, argv: seq<string>)
    : (r: Result<Invocation, CliError>)
    requires |argv| >= 1
    ensures r.Ok? ==> 0 < |r.value.command| < |argv| && r.value.command == argv[|argv| - |r.value.command|..]
  {
    Parse(fs, compiles, paths, false, argv)
  }

  /** Argument parsing as evidently intended: `--` ends the flags, and a
      -c path is made absolute before it is loaded. */
  function ParseArgsIntended(fs: FileSystem, compiles: Compiler, paths: PathOps, argv: seq<string>)
    : (r: Result<Invocation, CliError>)
    requires |argv| >= 1
    ensures r.Ok? ==> 0 < |r.value.command| < |argv| && r.value.command == argv[|argv| - |r.value.command|..]
  {
    Parse(fs, compiles, paths, true, argv)
  }

  /** The arguments spelling a list of pattern flags with their values. */
  function Spell(flags: seq<(Category, string)>): seq<string>
  {
    if |flags| == 0 then [] else ["-" + KeyOf(flags[0].0), flags[0].1] + Spell(flags[1..])
  }

  lemma {:induction false} SpellLength(flags: seq<(Category, string)>)
    ensures |Spell(flags)| == 2 * |flags|
  {
    if |flags| > 0 {
      SpellLength(flags[1..]);
    }
  }

  /** A pattern flag and its value, read as one step of the loop. */
  lemma PatternStep(fs: FileSystem, compiles: Compiler, paths: PathOps, intended: bool,
                    args: seq<string>, i: nat, c: Category, v: string, a: ArgState)
    requires i + 2 <= |args| && args[i] == "-" + KeyOf(c) && args[i + 1] == v
    requires compiles(v) && a.pending.None?
    ensures ArgLoop(fs, compiles, paths, intended, args, i, a)
            == ArgLoop(fs, compiles, paths, intended, args, i + 2,
                       ArgState(None, a.command, a.st.(rules := a.st.rules.Add(c, Pattern(v)))))
  {
    assert args[i][1..] == KeyOf(c);
    KeyRoundTrip(KeyOf(c), c);
    assert FlagOf(args[i][1..]) == Some(PatternFlag(c));
  }

  /** Splitting the first flag off a spelled list. */
  lemma SpellTail(args: seq<string>, i: nat, flags: seq<(Category, string)>, tail: seq<string>)
    requires i <= |args| && args[i..] == Spell(flags) + tail && |flags| > 0
    ensures i + 2 <= |args|
    ensures args[i] == "-" + KeyOf(flags[0].0) && args[i + 1] == flags[0].1
    ensures args[i + 2..] == Spell(flags[1..]) + tail
  {
    var head := ["-" + KeyOf(flags[0].0), flags[0].1];
    assert Spell(flags) == head + Spell(flags[1..]);
    AppendAssoc(head, Spell(flags[1..]), tail);
    DropPrefix(args, i, head, Spell(flags[1..]) + tail);
    assert args[i + 0] == head[0] && args[i + 1] == head[1];
  }

  /** Pattern flags register their patterns in order, and parsing stops at
      the first argument that does not start with `-`. */
  lemma {:induction false} ArgLoopFlags(fs: FileSystem, compiles: Compiler, paths: PathOps, intended: bool,
                                         args: seq<string>, i: nat, flags: seq<(Category, string)>,
                                         tail: seq<string>, a: ArgState)
    requires i <= |args| && args[i..] == Spell(flags) + tail
    requires AllCompile(compiles, flags) && a.pending.None?
    requires |tail| > 0 && !IsFlagLike(tail[0])
    ensures ArgLoop(fs, compiles, paths, intended, args, i, a)
            == Ok(ArgState(None, i + 2 * |flags|, a.st.(rules := AddAll(a.st.rules, flags))))
    decreases |flags|
  {
    if |flags| == 0 {
      assert args[i] == tail[0];
    } else {
      var c, v := flags[0].0, flags[0].1;
      SpellTail(args, i, flags, tail);
      AllCompileTail(compiles, flags);
      var a2 := ArgState(None, a.command, a.st.(rules := a.st.rules.Add(c, Pattern(v))));
      PatternStep(fs, compiles, paths, intended, args, i, c, v, a);
      ArgLoopFlags(fs, compiles, paths, intended, args, i + 2, flags[1..], tail, a2);
    }
  }

  /** Spelling a flag and reading it back give the same flag. */
  lemma FlagKeyRoundTrip(f: Flag)
    ensures FlagOf(FlagKey(f)) == Some(f)
  {
    match f
    case PatternFlag(c) =>
      KeyRoundTrip(KeyOf(c), c);
    case ConfigFlag =>
  }

  /** Pattern flags followed by a last flag without its value: the patterns
      are registered and the loop ends with that flag pending. */
  lemma {:induction false} ArgLoopFlagsThenFlag(fs: FileSystem, compiles: Compiler, paths: PathOps, intended: bool,
                                                 args: seq<string>, i: nat, flags: seq<(Category, string)>,
                                                 f: Flag, a: ArgState)
    requires i <= |args| && args[i..] == Spell(flags) + ["-" + FlagKey(f)]
    requires AllCompile(compiles, flags) && a.pending.None?
    ensures ArgLoop(fs, compiles, paths, intended, args, i, a)
            == Ok(ArgState(Some(f), a.command, a.st.(rules := AddAll(a.st.rules, flags))))
    decreases |flags|
  {
    if |flags| == 0 {
      assert args[i..] == ["-" + FlagKey(f)];
      assert args[i] == "-" + FlagKey(f) && i + 1 == |args|;
      assert args[i][1..] == FlagKey(f);
      FlagKeyRoundTrip(f);
    } else {
      var c, v := flags[0].0, flags[0].1;
      SpellTail(args, i, flags, ["-" + FlagKey(f)]);
      AllCompileTail(compiles, flags);
      var a2 := ArgState(None, a.command, a.st.(rules := a.st.rules.Add(c, Pattern(v))));
      PatternStep(fs, compiles, paths, intended, args, i, c, v, a);
      ArgLoopFlagsThenFlag(fs, compiles, paths, intended, args, i + 2, flags[1..], f, a2);
    }
  }

  /** `tg <pattern flags> -X` with nothing after the last flag is fatal,
      naming the flag whose value is missing, under either reading. */
  lemma MissingValueFatal(fs: FileSystem, compiles: Compiler, paths: PathOps, intended: bool,
                          prog: string, flags: seq<(Category, string)>, f: Flag)
    requires AllCompile(compiles, flags)
    ensures Parse(fs, compiles, paths, intended, [prog] + Spell(flags) + ["-" + FlagKey(f)])
            == Err(MissingValue(FlagKey(f)))
  {
    var argv := [prog] + Spell(flags) + ["-" + FlagKey(f)];
    var args := Spell(flags) + ["-" + FlagKey(f)];
    assert argv[1..] == args;
    assert args[0..] == args;
    ArgLoopFlagsThenFlag(fs, compiles, paths, intended, args, 0, flags, f, ArgState(None, -1, Initial));
  }

  /** Pattern flags followed by a pattern flag whose value does not
      compile: the loop ends with that pattern's error. */
  lemma {:induction false} ArgLoopFlagsThenBadPattern(fs: FileSystem, compiles: Compiler, paths: PathOps,
                                                       intended: bool, args: seq<string>, i: nat,
                                                       flags: seq<(Category, string)>, c: Category, v: string,
                                                       rest: seq<string>, a: ArgState)
    requires i <= |args| && args[i..] == Spell(flags) + (["-" + KeyOf(c), v] + rest)
    requires AllCompile(compiles, flags) && !compiles(v) && a.pending.None?
    ensures ArgLoop(fs, compiles, paths, intended, args, i, a) == Err(InvalidPattern(v))
    decreases |flags|
  {
    if |flags| == 0 {
      assert args[i..] == ["-" + KeyOf(c), v] + rest;
      assert args[i] == "-" + KeyOf(c) && args[i + 1] == v;
      assert args[i][1..] == KeyOf(c);
      FlagKeyRoundTrip(PatternFlag(c));
    } else {
      var c0, v0 := flags[0].0, flags[0].1;
      SpellTail(args, i, flags, ["-" + KeyOf(c), v] + rest);
      AllCompileTail(compiles, flags);
      var a2 := ArgState(None, a.command, a.st.(rules := a.st.rules.Add(c0, Pattern(v0))));
      PatternStep(fs, compiles, paths, intended, args, i, c0, v0, a);
      ArgLoopFlagsThenBadPattern(fs, compiles, paths, intended, args, i + 2, flags[1..], c, v, rest, a2);
    }
  }

  /** The loop over `<pattern flags> -X v rest` with a pattern `v` that does
      not compile ends with that pattern's error. */
  lemma InvalidPatternLoop(fs: FileSystem, compiles: Compiler, paths: PathOps, intended: bool,
                           flags: seq<(Category, string)>, c: Category, v: string, rest: seq<string>)
    requires AllCompile(compiles, flags) && !compiles(v)
    ensures ArgLoop(fs, compiles, paths, intended, Spell(flags) + (["-" + KeyOf(c), v] + rest), 0,
                    ArgState(None, -1, Initial))
            == Err(InvalidPattern(v))
  {
    var args := Spell(flags) + (["-" + KeyOf(c), v] + rest);
    assert args[0..] == args;
    ArgLoopFlagsThenBadPattern(fs, compiles, paths, intended, args, 0, flags, c, v, rest, ArgState(None, -1, Initial));
  }

  /** `tg <pattern flags> -X v ...` with a pattern `v` that does not compile
      is fatal, naming `v`, under either reading. */
  lemma InvalidPatternFatal(fs: FileSystem, compiles: Compiler, paths: PathOps, intended: bool, prog: string,
                            flags: seq<(Category, string)>, c: Category, v: string, rest: seq<string>)
    requires AllCompile(compiles, flags) && !compiles(v)
    ensures Parse(fs, compiles, paths, intended, [prog] + Spell(flags) + ["-" + KeyOf(c), v] + rest)
            == Err(InvalidPattern(v))
  {
    DropFirst(prog, Spell(flags), ["-" + KeyOf(c), v], rest);
    InvalidPatternLoop(fs, compiles, paths, intended, flags, c, v, rest);
  }

  /** Pattern flags followed by `-c path` whose load into the state the
      flags left fails: the loop ends with that load error. */
  lemma {:induction false} ArgLoopFlagsThenBadConfig(fs: FileSystem, compiles: Compiler, paths: PathOps,
                                                      intended: bool, args: seq<string>, i: nat,
                                                      flags: seq<(Category, string)>, path: string,
                                                      rest: seq<string>, e: LoadError, a: ArgState)
    requires i <= |args| && args[i..] == Spell(flags) + (["-c", path] + rest)
    requires AllCompile(compiles, flags) && a.pending.None?
    requires LoadValue(fs, compiles, paths, intended, path, a.st.(rules := AddAll(a.st.rules, flags))) == Err(e)
    ensures ArgLoop(fs, compiles, paths, intended, args, i, a) == Err(ConfigError(e))
    decreases |flags|
  {
    if |flags| == 0 {
      assert args[i..] == ["-c", path] + rest;
      assert args[i] == "-c" && args[i + 1] == path;
      assert args[i][1..] == "c";
      assert a.st.(rules := AddAll(a.st.rules, flags)) == a.st;
    } else {
      var c0, v0 := flags[0].0, flags[0].1;
      SpellTail(args, i, flags, ["-c", path] + rest);
      AllCompileTail(compiles, flags);
      var a2 := ArgState(None, a.command, a.st.(rules := a.st.rules.Add(c0, Pattern(v0))));
      assert a2.st.(rules := AddAll(a2.st.rules, flags[1..])) == a.st.(rules := AddAll(a.st.rules, flags));
      PatternStep(fs, compiles, paths, intended, args, i, c0, v0, a);
      ArgLoopFlagsThenBadConfig(fs, compiles, paths, intended, args, i + 2, flags[1..], path, rest, e, a2);
    }
  }

  /** The loop over `<pattern flags> -c path rest` when loading `path` into
      the state the flags left fails: it ends with that load error. */
  lemma ConfigErrorLoop(fs: FileSystem, compiles: Compiler, paths: PathOps, intended: bool,
                        flags: seq<(Category, string)>, path: string, rest: seq<string>, e: LoadError)
    requires AllCompile(compiles, flags)
    requires LoadValue(fs, compiles, paths, intended, path, Initial.(rules := AddAll(NoRules, flags))) == Err(e)
    ensures ArgLoop(fs, compiles, paths, intended, Spell(flags) + (["-c", path] + rest), 0,
                    ArgState(None, -1, Initial))
            == Err(ConfigError(e))
  {
    var args := Spell(flags) + (["-c", path] + rest);
    assert args[0..] == args;
    ArgLoopFlagsThenBadConfig(fs, compiles, paths, intended, args, 0, flags, path, rest, e, ArgState(None, -1, Initial));
  }

  /** `tg <pattern flags> -c path ...` whose config file fails to load is
      fatal with that load error, under either reading. */
  lemma ConfigErrorFatal(fs: FileSystem, compiles: Compiler, paths: PathOps, intended: bool, prog: string,
                         flags: seq<(Category, string)>, path: string, rest: seq<string>, e: LoadError)
    requires AllCompile(compiles, flags)
    requires LoadValue(fs, compiles, paths, intended, path, Initial.(rules := AddAll(NoRules, flags))) == Err(e)
    ensures Parse(fs, compiles, paths, intended, [prog] + Spell(flags) + ["-c", path] + rest)
            == Err(ConfigError(e))
  {
    DropFirst(prog, Spell(flags), ["-c", path], rest);
    ConfigErrorLoop(fs, compiles, paths, intended, flags, path, rest, e);
  }

  /** Pattern flags followed by an argument `-k` whose key names no flag
      (and is not `-`): the loop ends rejecting that argument. */
  lemma {:induction false} ArgLoopFlagsThenUnknown(fs: FileSystem, compiles: Compiler, paths: PathOps,
                                                    intended: bool, args: seq<string>, i: nat,
                                                    flags: seq<(Category, string)>, k: string,
                                                    rest: seq<string>, a: ArgState)
    requires i <= |args| && args[i..] == Spell(flags) + (["-" + k] + rest)
    requires AllCompile(compiles, flags) && FlagOf(k).None? && k != "-" && a.pending.None?
    ensures ArgLoop(fs, compiles, paths, intended, args, i, a) == Err(UnknownFlag("-" + k))
    decreases |flags|
  {
    if |flags| == 0 {
      assert args[i..] == ["-" + k] + rest;
      assert args[i] == "-" + k;
      assert args[i][1..] == k;
    } else {
      var c0, v0 := flags[0].0, flags[0].1;
      SpellTail(args, i, flags, ["-" + k] + rest);
      AllCompileTail(compiles, flags);
      var a2 := ArgState(None, a.command, a.st.(rules := a.st.rules.Add(c0, Pattern(v0))));
      PatternStep(fs, compiles, paths, intended, args, i, c0, v0, a);
      ArgLoopFlagsThenUnknown(fs, compiles, paths, intended, args, i + 2, flags[1..], k, rest, a2);
    }
  }

  /** The loop over `<pattern flags> -k rest` with a key `k` that names no
      flag (and is not `-`) ends rejecting that argument. */
  lemma UnknownFlagLoop(fs: FileSystem, compiles: Compiler, paths: PathOps, intended: bool,
                        flags: seq<(Category, string)>, k: string, rest: seq<string>)
    requires AllCompile(compiles, flags) && FlagOf(k).None? && k != "-"
    ensures ArgLoop(fs, compiles, paths, intended, Spell(flags) + (["-" + k] + rest), 0,
                    ArgState(None, -1, Initial))
            == Err(UnknownFlag("-" + k))
  {
    var args := Spell(flags) + (["-" + k] + rest);
    assert args[0..] == args;
    ArgLoopFlagsThenUnknown(fs, compiles, paths, intended, args, 0, flags, k, rest, ArgState(None, -1, Initial));
  }

  /** `tg <pattern flags> -k ...` with a key `k` that names no flag (and is
      not `-`) is fatal, naming the argument, under either reading. */
  lemma UnknownFlagFatal(fs: FileSystem, compiles: Compiler, paths: PathOps, intended: bool, prog: string,
                         flags: seq<(Category, string)>, k: string, rest: seq<string>)
    requires AllCompile(compiles, flags) && FlagOf(k).None? && k != "-"
    ensures Parse(fs, compiles, paths, intended, [prog] + Spell(flags) + ["-" + k] + rest)
            == Err(UnknownFlag("-" + k))
  {
    DropFirst(prog, Spell(flags), ["-" + k], rest);
    UnknownFlagLoop(fs, compiles, paths, intended, flags, k, rest);
  }

  /** `tg <pattern flags> cmd args...`: the flags' patterns are registered in
      order and the command is everything from the first non-flag argument
      on, under either reading of `--`. */
  lemma CommandAfterFlags(fs: FileSystem, compiles: Compiler, paths: PathOps, intended: bool,
                          prog: string, flags: seq<(Category, string)>, cmd: string, rest: seq<string>)
    requires AllCompile(compiles, flags) && !IsFlagLike(cmd)
    ensures Parse(fs, compiles, paths, intended, [prog] + Spell(flags) + [cmd] + rest)
            == Ok(Invocation(Initial.(rules := AddAll(NoRules, flags)), [cmd] + rest))
  {
    var argv := [prog] + Spell(flags) + [cmd] + rest;
    DropHead(prog, Spell(flags), cmd, rest);
    SpellLength(flags);
    FlagsThenCommandLoop(fs, compiles, paths, intended, flags, cmd, rest);
    ParseOfLoop(fs, compiles, paths, intended, argv,
                ArgState(None, 2 * |flags|, Initial.(rules := AddAll(NoRules, flags))));
  }

  /** The loop over `<pattern flags> cmd args...`. */
  lemma FlagsThenCommandLoop(fs: FileSystem, compiles: Compiler, paths: PathOps, intended: bool,
                             flags: seq<(Category, string)>, cmd: string, rest: seq<string>)
    requires AllCompile(compiles, flags) && !IsFlagLike(cmd)
    ensures ArgLoop(fs, compiles, paths, intended, Spell(flags) + ([cmd] + rest), 0, ArgState(None, -1, Initial))
            == Ok(ArgState(None, 2 * |flags|, Initial.(rules := AddAll(NoRules, flags))))
  {
    var args := Spell(flags) + ([cmd] + rest);
    assert args[0..] == args;
    ArgLoopFlags(fs, compiles, paths, intended, args, 0, flags, [cmd] + rest, ArgState(None, -1, Initial));
  }

  /** The checks after the loop, on a loop that ended with no flag pending
      and a command index inside the arguments. */
  lemma ParseOfLoop(fs: FileSystem, compiles: Compiler, paths: PathOps, intended: bool,
                    argv: seq<string>, a: ArgState)
    requires |argv| >= 1 && ArgLoop(fs, compiles, paths, intended, argv[1..], 0, ArgState(None, -1, Initial)) == Ok(a)
    requires a.pending.None? && 0 < a.command + 1 < |argv|
    ensures Parse(fs, compiles, paths, intended, argv) == Ok(Invocation(a.st, argv[a.command + 1..]))
  {
  }

  /** As intended, `--` ends the flags: whatever follows is the command, even
      when it starts with `-`. */
  lemma DashDashEndsFlags(fs: FileSystem, compiles: Compiler, paths: PathOps,
                          prog: string, flags: seq<(Category, string)>, cmd: seq<string>)
    requires AllCompile(compiles, flags) && |cmd| > 0
    ensures ParseArgsIntended(fs, compiles, paths, [prog] + Spell(flags) + ["--"] + cmd)
            == Ok(Invocation(Initial.(rules := AddAll(NoRules, flags)), cmd))
  {
    var argv := [prog] + Spell(flags) + ["--"] + cmd;
    var args := Spell(flags) + (["--"] + cmd);
    DropHead(prog, Spell(flags), "--", cmd);
    assert args[0..] == args;
    SpellLength(flags);
    ArgLoopFlagsThenDashDash(fs, compiles, paths, args, 0, flags, cmd, ArgState(None, -1, Initial));
    assert argv[|Spell(flags)| + 1..][1..] == cmd;
    ParseOfLoop(fs, compiles, paths, true, argv,
                ArgState(None, 2 * |flags| + 1, Initial.(rules := AddAll(NoRules, flags))));
  }

  /** Pattern flags followed by `--` and the command, read as intended: the
      patterns are registered and the command starts after `--`. */
  lemma {:induction false} ArgLoopFlagsThenDashDash(fs: FileSystem, compiles: Compiler, paths: PathOps,
                                                     args: seq<string>, i: nat, flags: seq<(Category, string)>,
                                                     cmd: seq<string>, a: ArgState)
    requires i <= |args| && args[i..] == Spell(flags) + (["--"] + cmd)
    requires AllCompile(compiles, flags) && a.pending.None?
    ensures ArgLoop(fs, compiles, paths, true, args, i, a)
            == Ok(ArgState(None, i + 2 * |flags| + 1, a.st.(rules := AddAll(a.st.rules, flags))))
    decreases |flags|
  {
    if |flags| == 0 {
      assert args[i] == "--";
      assert args[i][1..] == "-";
    } else {
      var c, v := flags[0].0, flags[0].1;
      SpellTail(args, i, flags, ["--"] + cmd);
      AllCompileTail(compiles, flags);
      var a2 := ArgState(None, a.command, a.st.(rules := a.st.rules.Add(c, Pattern(v))));
      PatternStep(fs, compiles, paths, true, args, i, c, v, a);
      ArgLoopFlagsThenDashDash(fs, compiles, paths, args, i + 2, flags[1..], cmd, a2);
    }
  }

  /** As written, `--` does not end the flags: a command starting with `-`
      after `--` is rejected as an unknown flag. */
  lemma DashDashCommandRejected(fs: FileSystem, compiles: Compiler, paths: PathOps)
    ensures ParseArgs(fs, compiles, paths, ["tg", "--", "-x"]) == Err(UnknownFlag("-x"))
    ensures ParseArgsIntended(fs, compiles, paths, ["tg", "--", "-x"]) == Ok(Invocation(Initial, ["-x"]))
  {
    var args := ["tg", "--", "-x"][1..];
    assert args == ["--", "-x"];
    assert args[0][1..] == "-" && FlagOf("-") == None;
    assert args[1][1..] == "x" && FlagOf("x") == None;
  }

  /** As written, flags after `--` are still applied, and when nothing else
      follows, the command index left by `--` points at the first of them:
      `tg -- -A x` registers pattern x and runs `-A x` as the command. */
  lemma DashDashFlagsStillParsed(fs: FileSystem, compiles: Compiler, paths: PathOps)
    requires compiles("x")
    ensures ParseArgs(fs, compiles, paths, ["tg", "--", "-A", "x"])
            == Ok(Invocation(Initial.(rules := NoRules.Add(Must, Pattern("x"))), ["-A", "x"]))
  {
    var args := ["tg", "--", "-A", "x"][1..];
    assert args == ["--", "-A", "x"];
    assert args[0][1..] == "-";
    assert args[1][1..] == "A";
  }

  /** A config file of pattern lines given with -c, followed by more
      pattern flags, has the effect of giving its patterns as flags in its
      place: `tg -c f -a bar cmd` and `tg -A foo -a bar cmd` build the same
      registry and run the same command. */
  lemma ConfigFileActsAsFlags(fs: FileSystem, compiles: Compiler, paths: PathOps,
                              path: string, entries: seq<(Category, string)>,
                              more: seq<(Category, string)>, cmd: string)
    requires path in fs && fs[path] == PatternLines(entries)
    requires AllCompile(compiles, entries) && AllCompile(compiles, more) && !IsFlagLike(cmd)
    ensures ParseArgs(fs, compiles, paths, ["tg", "-c", path] + Spell(more) + [cmd]).Ok?
    ensures ParseArgs(fs, compiles, paths, ["tg"] + Spell(entries + more) + [cmd]).Ok?
    ensures ParseArgs(fs, compiles, paths, ["tg", "-c", path] + Spell(more) + [cmd]).value.st.rules
            == ParseArgs(fs, compiles, paths, ["tg"] + Spell(entries + more) + [cmd]).value.st.rules
            == AddAll(NoRules, entries + more)
    ensures ParseArgs(fs, compiles, paths, ["tg", "-c", path] + Spell(more) + [cmd]).value.command
            == ParseArgs(fs, compiles, paths, ["tg"] + Spell(entries + more) + [cmd]).value.command
            == [cmd]
  {
    AllCompileAppend(compiles, entries, more);
    CommandAfterFlags(fs, compiles, paths, false, "tg", entries + more, cmd, []);
    assert ["tg"] + Spell(entries + more) + [cmd] + [] == ["tg"] + Spell(entries + more) + [cmd];
    ConfigFlagThenCommand(fs, compiles, paths, path, entries, more, cmd);
    AddAllAppend(NoRules, entries, more);
  }

  /** `tg -c file <pattern flags> cmd` with a file of pattern lines: the
      file's patterns are registered, then the flags', that file alone is
      read, and `cmd` runs. */
  lemma ConfigFlagThenCommand(fs: FileSystem, compiles: Compiler, paths: PathOps, path: string,
                              entries: seq<(Category, string)>, more: seq<(Category, string)>, cmd: string)
    requires path in fs && fs[path] == PatternLines(entries)
    requires AllCompile(compiles, entries) && AllCompile(compiles, more) && !IsFlagLike(cmd)
    ensures ParseArgs(fs, compiles, paths, ["tg", "-c", path] + Spell(more) + [cmd])
            == Ok(Invocation(LoadState(AddAll(AddAll(NoRules, entries), more), {path}, [path]), [cmd]))
  {
    var argv := ["tg", "-c", path] + Spell(more) + [cmd];
    LoadPatternFile(fs, compiles, paths, path, entries);
    ConfigArgvShape(path, more, cmd);
    var loaded := LoadState(AddAll(NoRules, entries), {path}, [path]);
    ConfigThenFlagsLoop(fs, compiles, paths, argv[1..], path, more, cmd, loaded);
    ParseOfLoop(fs, compiles, paths, false, argv,
                ArgState(None, 2 + 2 * |more|, loaded.(rules := AddAll(loaded.rules, more))));
  }

  /** Where the pieces of `tg -c path <pattern flags> cmd` sit. */
  lemma ConfigArgvShape(path: string, more: seq<(Category, string)>, cmd: string)
    ensures var argv := ["tg", "-c", path] + Spell(more) + [cmd];
            && |argv| == 2 * |more| + 4
            && argv[1..] == ["-c", path] + (Spell(more) + [cmd])
            && argv[2 + 2 * |more| + 1..] == [cmd]
  {
    SpellLength(more);
    var argv := ["tg", "-c", path] + Spell(more) + [cmd];
    assert argv[1..] == ["-c", path] + (Spell(more) + [cmd]);
    assert argv[2 + 2 * |more| + 1..] == [cmd];
  }

  /** The loop as written over `-c path <pattern flags> cmd`, for whatever
      state loading `path` leaves. */
  lemma ConfigThenFlagsLoop(fs: FileSystem, compiles: Compiler, paths: PathOps, args: seq<string>,
                            path: string, more: seq<(Category, string)>, cmd: string, loaded: LoadState)
    requires args == ["-c", path] + (Spell(more) + [cmd])
    requires Load(fs, compiles, paths, path, Initial) == Ok(loaded)
    requires AllCompile(compiles, more) && !IsFlagLike(cmd)
    ensures ArgLoop(fs, compiles, paths, false, args, 0, ArgState(None, -1, Initial))
            == Ok(ArgState(None, 2 + 2 * |more|, loaded.(rules := AddAll(loaded.rules, more))))
  {
    ConfigStep(fs, compiles, paths, args, 0, path, ArgState(None, -1, Initial), loaded);
    FlagsAfterConfig(fs, compiles, paths, args, path, more, cmd, loaded);
  }

  /** The loop as written over `-c path <pattern flags> cmd`, once the -c
      step has left the state `loaded`. */
  lemma FlagsAfterConfig(fs: FileSystem, compiles: Compiler, paths: PathOps, args: seq<string>,
                         path: string, more: seq<(Category, string)>, cmd: string, loaded: LoadState)
    requires args == ["-c", path] + (Spell(more) + [cmd])
    requires ArgLoop(fs, compiles, paths, false, args, 0, ArgState(None, -1, Initial))
             == ArgLoop(fs, compiles, paths, false, args, 2, ArgState(None, -1, loaded))
    requires AllCompile(compiles, more) && !IsFlagLike(cmd)
    ensures ArgLoop(fs, compiles, paths, false, args, 0, ArgState(None, -1, Initial))
            == Ok(ArgState(None, 2 + 2 * |more|, loaded.(rules := AddAll(loaded.rules, more))))
  {
    assert args[2..] == Spell(more) + [cmd];
    ArgLoopFlags(fs, compiles, paths, false, args, 2, more, [cmd], ArgState(None, -1, loaded));
  }

  /** A -c flag and its path, read as one step of the loop as written: the
      file is loaded at once, under the path as given. */
  lemma ConfigStep(fs: FileSystem, compiles: Compiler, paths: PathOps,
                   args: seq<string>, i: nat, path: string, a: ArgState, st: LoadState)
    requires i + 2 <= |args| && args[i] == "-c" && args[i + 1] == path && a.pending.None?
    requires Load(fs, compiles, paths, path, a.st) == Ok(st)
    ensures ArgLoop(fs, compiles, paths, false, args, i, a)
            == ArgLoop(fs, compiles, paths, false, args, i + 2, ArgState(None, a.command, st))
  {
    assert args[i][1..] == "c";
  }
}
