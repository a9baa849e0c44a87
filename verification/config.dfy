/** The config-file loader `load` (main.go:92-141). A config file is a list
    of `-<key> <value>` lines; keys A a O o E e register a pattern, key c
    includes another file, key - is a comment. The set `loaded` is keyed by
    the path string as passed, and a path already in it is skipped. */
module Config {
  import opened Wrappers
  import opened Seqs
  import opened Rules

  /** The readable config files, each already split into lines. */
  type FileSystem = map<string, seq<string>>

  /** regexp.Compile, reduced to whether a source text compiles. */
  type Compiler = string -> bool

  /** The path-library calls an include makes (main.go:127-132): `abs` is
      filepath.Abs, None when it fails; `join(p, v)` is
      filepath.Join(filepath.Dir(p), v). */
  datatype PathOps = PathOps(abs: string -> Option<string>, join: (string, string) -> string)

  /** filepath.IsAbs on a Unix system: the path starts at the root. */
  predicate IsAbs(p: string)
  {
    |p| > 0 && p[0] == '/'
  }

  /** What the real path library guarantees: Abs yields absolute paths, and
      a name joined to the directory of an absolute path is absolute. */
  ghost predicate Sane(paths: PathOps)
  {
    && (forall p :: paths.abs(p).Some? ==> IsAbs(paths.abs(p).value))
    && (forall p, v :: IsAbs(p) ==> IsAbs(paths.join(p, v)))
  }

  /** The path an include of `value` in the file at `path` loads
      (main.go:127-133): an absolute value as it is, otherwise the value
      joined to the directory of the file's absolute path; None when that
      absolute path cannot be determined. */
  function Resolve(paths: PathOps, path: string, value: string): (t: Option<string>)
    ensures IsAbs(value) ==> t == Some(value)
    ensures !IsAbs(value) && paths.abs(path).Some? ==> t == Some(paths.join(paths.abs(path).value, value))
    ensures t.None? <==> !IsAbs(value) && paths.abs(path).None?
    ensures Sane(paths) && t.Some? ==> IsAbs(t.value)
  {
    if IsAbs(value) then Some(value)
    else
      match paths.abs(path)
      case None => None
      case Some(p) => Some(paths.join(p, value))
  }

  /** The fatal errors of `load`, with the context the messages carry. */
  datatype LoadError =
    | OpenFailed(path: string)
    | NoDash(path: string, line: string)
    | NoValue(path: string, line: string)
    | BadPattern(path: string, value: string)
    | NoAbsolutePath(path: string)
    | UnknownRule(path: string, line: string)

  /** The meaning of one config line. */
  datatype Directive =
    | Blank
    | Add(category: Category, value: string)
    | Include(target: string)
    | Comment(text: string)

  /** The syntax of one line (main.go:107-119, 135-138): the key is the text
      between the leading `-` and the first space, the value all after it.
      An accepted line is exactly the spelling of its directive (nothing is
      lost), only the empty line is blank, and a rejection names the file
      and the whole line. */
  function ParseLine(path: string, l: string): (r: Result<Directive, LoadError>)
    ensures r.Ok? ==> Format(r.value) == l
    ensures r == Ok(Blank) <==> |l| == 0
    ensures r.Err? ==> r.error in {NoDash(path, l), NoValue(path, l), UnknownRule(path, l)}
  {
    if |l| == 0 then Ok(Blank)
    else if l[0] != '-' then Err(NoDash(path, l))
    else
      var i := IndexOf(l, ' ');
      if i == -1 then Err(NoValue(path, l))
      else
        var key := l[1..i];
        var value := l[i + 1..];
        assert l == "-" + key + " " + value;
        match CategoryOfKey(key)
        case Some(c) =>
          KeyRoundTrip(key, c);
          Ok(Add(c, value))
        case None =>
          if key == "c" then Ok(Include(value))
          else if key == "-" then Ok(Comment(value))
          else Err(UnknownRule(path, l))
  }

  /** The line that spells a directive. */
  function Format(d: Directive): string
  {
    match d
    case Blank => ""
    case Add(c, v) => "-" + KeyOf(c) + " " + v
    case Include(v) => "-c " + v
    case Comment(v) => "-- " + v
  }

  /** Every directive is read back from the line that spells it, whatever
      its value holds, spaces included. */
  lemma ParseFormat(path: string, d: Directive)
    ensures ParseLine(path, Format(d)) == Ok(d)
  {
    var l := Format(d);
    if d != Blank {
      assert l[0] == '-' && l[1] != ' ' && l[2] == ' ';
      assert l[..2] == l[..1] + [l[1]];
      assert IndexOf(l, ' ') == 2;
      assert l[1..2] == [l[1]];
      match d
      case Add(c, v) =>
        assert l[1..2] == KeyOf(c);
        KeyRoundTrip(KeyOf(c), c);
      case Include(v) =>
      case Comment(v) =>
    }
  }

  /** The rejections of one line: a line not starting with `-`, one with
      no space, and one whose key is none of A a O o E e c and `-`, which
      includes an empty key and one of several characters. */
  lemma ParseLineErrors(path: string, l: string)
    ensures ParseLine(path, l) == Ok(Blank) <==> |l| == 0
    ensures |l| > 0 && l[0] != '-' ==> ParseLine(path, l) == Err(NoDash(path, l))
    ensures |l| > 0 && l[0] == '-' && ' ' !in l ==> ParseLine(path, l) == Err(NoValue(path, l))
    ensures |l| > 0 && l[0] == '-' && ' ' in l
            && CategoryOfKey(l[1..IndexOf(l, ' ')]).None? && l[1..IndexOf(l, ' ')] !in {"c", "-"}
            ==> ParseLine(path, l) == Err(UnknownRule(path, l))
  {
  }

  /** The loader's state: the registry, the set `loaded`, and the paths read
      so far, in order. */
  datatype LoadState = LoadState(rules: RuleSet, loaded: set<string>, readLog: seq<string>)

  const Initial := LoadState(NoRules, {}, [])

  /** What a successful load from `st` to `st'` may change: lists only grow
      at their ends, `loaded` only grows, every path added to it was read
      from the filesystem, and no path was read twice or read although it
      was loaded before. */
  predicate Extends(fs: FileSystem, st: LoadState, st': LoadState)
  {
    && st.rules.GrowsTo(st'.rules)
    && st.loaded <= st'.loaded
    && |st.readLog| <= |st'.readLog|
    && st'.readLog[..|st.readLog|] == st.readLog
    && (forall i :: |st.readLog| <= i < |st'.readLog| ==>
          st'.readLog[i] in fs && st'.readLog[i] in st'.loaded && st'.readLog[i] !in st.loaded)
    && (forall i, j :: |st.readLog| <= i < j < |st'.readLog| ==> st'.readLog[i] != st'.readLog[j])
    && (forall p :: p in st'.loaded && p !in st.loaded ==> p in st'.readLog[|st.readLog|..])
  }

  lemma ExtendsRefl(fs: FileSystem, st: LoadState)
    ensures Extends(fs, st, st)
  {
  }

  /** Registering one pattern extends the state and loads nothing. */
  lemma AddExtends(fs: FileSystem, st: LoadState, c: Category, p: Pattern)
    ensures Extends(fs, st, st.(rules := st.rules.Add(c, p)))
    ensures NewKeysAbsolute(st, st.(rules := st.rules.Add(c, p)))
  {
    var st1 := st.(rules := st.rules.Add(c, p));
    forall d
      ensures st.rules.Get(d) <= st1.rules.Get(d)
    {
    }
    assert st1.readLog[..|st.readLog|] == st.readLog;
  }

  lemma ExtendsTrans(fs: FileSystem, a: LoadState, b: LoadState, c: LoadState)
    requires Extends(fs, a, b) && Extends(fs, b, c)
    ensures Extends(fs, a, c)
  {
    assert c.readLog[..|a.readLog|] == c.readLog[..|b.readLog|][..|a.readLog|];
    forall p | p in c.loaded && p !in a.loaded
      ensures p in c.readLog[|a.readLog|..]
    {
      if p in b.loaded {
        var i :| 0 <= i < |b.readLog[|a.readLog|..]| && b.readLog[|a.readLog|..][i] == p;
        assert c.readLog[|a.readLog| + i] == p;
      } else {
        var i :| 0 <= i < |c.readLog[|b.readLog|..]| && c.readLog[|b.readLog|..][i] == p;
        assert c.readLog[|b.readLog| + i] == p;
      }
    }
    forall i | |a.readLog| <= i < |c.readLog|
      ensures c.readLog[i] in fs && c.readLog[i] in c.loaded && c.readLog[i] !in a.loaded
    {
      if i < |b.readLog| {
        assert c.readLog[i] == c.readLog[..|b.readLog|][i];
      }
    }
    forall i, j | |a.readLog| <= i < j < |c.readLog|
      ensures c.readLog[i] != c.readLog[j]
    {
      if i < |b.readLog| {
        assert c.readLog[i] == c.readLog[..|b.readLog|][i];
        if j < |b.readLog| {
          assert c.readLog[j] == c.readLog[..|b.readLog|][j];
        }
      }
    }
  }

  /** Marking a path of the filesystem as loaded shrinks the set of files
      still loadable. */
  lemma LoadableShrinks(fs: FileSystem, loaded: set<string>, path: string)
    requires path in fs && path !in loaded
    ensures |fs.Keys - (loaded + {path})| < |fs.Keys - loaded|
  {
    assert fs.Keys - loaded == (fs.Keys - (loaded + {path})) + {path};
  }

  /** Loading more paths never grows the set of files still loadable. */
  lemma {:induction false} LoadableMonotone(fs: FileSystem, a: set<string>, b: set<string>)
    requires a <= b
    ensures |fs.Keys - b| <= |fs.Keys - a|
    decreases |fs.Keys - a|
  {
    if fs.Keys - b != fs.Keys - a {
      var p :| p in fs.Keys - a && p !in fs.Keys - b;
      LoadableShrinks(fs, a, p);
      LoadableMonotone(fs, a + {p}, b);
    }
  }

  /** Every path `st'` marks loaded beyond `st` is absolute. */
  predicate NewKeysAbsolute(st: LoadState, st': LoadState)
  {
    forall q :: q in st'.loaded && q !in st.loaded ==> IsAbs(q)
  }

  /** load(path): skip a path already loaded; otherwise mark it loaded, read
      it (a missing file is fatal) and process its lines in order. */
  function Load(fs: FileSystem, compiles: Compiler, paths: PathOps, path: string, st: LoadState)
    : (r: Result<LoadState, LoadError>)
    ensures path in st.loaded ==> r == Ok(st)
    ensures path !in st.loaded && path !in fs ==> r == Err(OpenFailed(path))
    ensures r.Ok? ==> Extends(fs, st, r.value) && path in r.value.loaded
    ensures Sane(paths) && IsAbs(path) && r.Ok? ==> NewKeysAbsolute(st, r.value)
    decreases |fs.Keys - st.loaded|, 0
  {
    if path in st.loaded then
      ExtendsRefl(fs, st);
      Ok(st)
    else if path !in fs then Err(OpenFailed(path))
    else
      LoadableShrinks(fs, st.loaded, path);
      var st1 := LoadState(st.rules, st.loaded + {path}, st.readLog + [path]);
      var r := LoadLines(fs, compiles, paths, path, fs[path], st1);
      if r.Ok? then
        assert Extends(fs, st, st1) by {
          assert st1.readLog[..|st.readLog|] == st.readLog;
          assert st1.readLog[|st.readLog|..] == [path];
        }
        ExtendsTrans(fs, st, st1, r.value);
        r
      else r
  }

  /** A line `load` does not reject by itself: it parses, and the pattern
      it registers, if any, compiles. */
  predicate LineAccepted(compiles: Compiler, path: string, l: string)
  {
    ParseLine(path, l).Ok? && (ParseLine(path, l).value.Add? ==> compiles(ParseLine(path, l).value.value))
  }

  /** Every line of a file is accepted. */
  predicate AllAccepted(compiles: Compiler, path: string, lines: seq<string>)
  {
    forall k :: 0 <= k < |lines| ==> LineAccepted(compiles, path, lines[k])
  }

  /** Accepted lines: the first one, then all the rest. */
  lemma AcceptedCons(compiles: Compiler, path: string, lines: seq<string>)
    requires |lines| > 0 && LineAccepted(compiles, path, lines[0])
    requires AllAccepted(compiles, path, lines[1..])
    ensures AllAccepted(compiles, path, lines)
  {
    forall k | 1 <= k < |lines|
      ensures LineAccepted(compiles, path, lines[k])
    {
      assert lines[k] == lines[1..][k - 1];
    }
  }

  /** The scan loop of `load` over the lines of the file at `path`: the
      first line that does not parse ends the load with its error, and a
      successful scan accepted every line, wherever a bad one would sit. */
  function LoadLines(fs: FileSystem, compiles: Compiler, paths: PathOps, path: string,
                     lines: seq<string>, st: LoadState)
    : (r: Result<LoadState, LoadError>)
    ensures r.Ok? ==> Extends(fs, st, r.value)
    ensures Sane(paths) && r.Ok? ==> NewKeysAbsolute(st, r.value)
    ensures |lines| > 0 && ParseLine(path, lines[0]).Err? ==> r == Err(ParseLine(path, lines[0]).error)
    ensures r.Ok? ==> AllAccepted(compiles, path, lines)
    decreases |fs.Keys - st.loaded|, 1, |lines|
  {
    if |lines| == 0 then
      ExtendsRefl(fs, st);
      Ok(st)
    else
      match ParseLine(path, lines[0])
      case Err(e) => Err(e)
      case Ok(d) =>
        match Apply(fs, compiles, paths, path, d, st)
        case Err(e) => Err(e)
        case Ok(st1) =>
          LoadableMonotone(fs, st.loaded, st1.loaded);
          var r := LoadLines(fs, compiles, paths, path, lines[1..], st1);
          if r.Ok? then
            ExtendsTrans(fs, st, st1, r.value);
            AcceptedCons(compiles, path, lines);
            r
          else r
  }

  /** The switch on the key of one line of the file at `path`
      (main.go:119-139): register a compiled pattern, load an include, or do
      nothing. */
  function Apply(fs: FileSystem, compiles: Compiler, paths: PathOps, path: string,
                 d: Directive, st: LoadState)
    : (r: Result<LoadState, LoadError>)
    ensures r.Ok? ==> Extends(fs, st, r.value)
    ensures Sane(paths) && r.Ok? ==> NewKeysAbsolute(st, r.value)
    ensures d.Add? ==> (r.Ok? <==> compiles(d.value))
    ensures d.Add? && r.Ok? ==>
              && r.value.rules.Get(d.category) == st.rules.Get(d.category) + [Pattern(d.value)]
              && (forall c :: c != d.category ==> r.value.rules.Get(c) == st.rules.Get(c))
              && r.value.loaded == st.loaded
    ensures d.Add? && !compiles(d.value) ==> r == Err(BadPattern(path, d.value))
    ensures d.Include? && Resolve(paths, path, d.target).None? ==> r == Err(NoAbsolutePath(path))
    ensures d.Include? && Resolve(paths, path, d.target).Some? ==>
              var t := Resolve(paths, path, d.target).value;
              && (t in st.loaded ==> r == Ok(st))
              && (t !in st.loaded && t !in fs ==> r == Err(OpenFailed(t)))
              && (r.Ok? ==> t in r.value.loaded)
    ensures (d.Blank? || d.Comment?) ==> r == Ok(st)
    decreases |fs.Keys - st.loaded|, 1, 0
  {
    match d
    case Blank =>
      ExtendsRefl(fs, st);
      Ok(st)
    case Comment(_) =>
      ExtendsRefl(fs, st);
      Ok(st)
    case Add(c, v) =>
      if !compiles(v) then Err(BadPattern(path, v))
      else
        AddExtends(fs, st, c, Pattern(v));
        Ok(st.(rules := st.rules.Add(c, Pattern(v))))
    case Include(v) =>
      match Resolve(paths, path, v)
      case None => Err(NoAbsolutePath(path))
      case Some(target) => Load(fs, compiles, paths, target, st)
  }

  /** The log of reads is duplicate-free and only holds loaded paths. */
  predicate Consistent(st: LoadState)
  {
    Distinct(st.readLog) && forall i :: 0 <= i < |st.readLog| ==> st.readLog[i] in st.loaded
  }

  /** No path string is ever read twice, across any number of loads. */
  lemma NoPathReadTwice(fs: FileSystem, compiles: Compiler, paths: PathOps, path: string, st: LoadState)
    requires Consistent(st)
    requires Load(fs, compiles, paths, path, st).Ok?
    ensures Consistent(Load(fs, compiles, paths, path, st).value)
  {
    var st' := Load(fs, compiles, paths, path, st).value;
    forall i, j | 0 <= i < j < |st'.readLog|
      ensures st'.readLog[i] != st'.readLog[j]
    {
      if i < |st.readLog| {
        assert st'.readLog[i] == st'.readLog[..|st.readLog|][i];
        if j < |st.readLog| {
          assert st'.readLog[j] == st'.readLog[..|st.readLog|][j];
        }
      }
    }
    forall i | 0 <= i < |st'.readLog|
      ensures st'.readLog[i] in st'.loaded
    {
      if i < |st.readLog| {
        assert st'.readLog[i] == st'.readLog[..|st.readLog|][i];
      }
    }
  }

  /** The intended handling of a -c argument: made absolute first, as an
      include value is, so that every key of `loaded` is an absolute path
      and a file reached again by an include is recognised. An argument
      that is already absolute loads as written. */
  function LoadArgument(fs: FileSystem, compiles: Compiler, paths: PathOps, arg: string, st: LoadState)
    : (r: Result<LoadState, LoadError>)
    ensures r.Ok? ==> Extends(fs, st, r.value)
    ensures Sane(paths) && r.Ok? ==> NewKeysAbsolute(st, r.value)
    ensures !IsAbs(arg) && paths.abs(arg).None? ==> r == Err(NoAbsolutePath(arg))
    ensures IsAbs(arg) ==> r == Load(fs, compiles, paths, arg, st)
    ensures !IsAbs(arg) && paths.abs(arg).Some? ==> r == Load(fs, compiles, paths, paths.abs(arg).value, st)
  {
    if IsAbs(arg) then Load(fs, compiles, paths, arg, st)
    else
      match paths.abs(arg)
      case None => Err(NoAbsolutePath(arg))
      case Some(p) => Load(fs, compiles, paths, p, st)
  }

  /** The lines of a file that includes itself by its own name. */
  const SelfIncluding: seq<string> := ["-A x", "-c a.conf"]

  /** Path behaviour of a working directory /d holding a.conf. */
  predicate InDirD(paths: PathOps)
  {
    && paths.abs("a.conf") == Some("/d/a.conf")
    && paths.abs("/d/a.conf") == Some("/d/a.conf")
    && paths.join("/d/a.conf", "a.conf") == "/d/a.conf"
  }

  /** As written: `-c a.conf` on a self-including file reads it twice, once
      under the relative key and once under the absolute one its include
      resolves to, and registers its pattern twice. */
  lemma SelfIncludeRelativeReadTwice(compiles: Compiler, paths: PathOps)
    requires compiles("x") && InDirD(paths)
    ensures var fs := map["a.conf" := SelfIncluding, "/d/a.conf" := SelfIncluding];
            Load(fs, compiles, paths, "a.conf", Initial)
            == Ok(LoadState(NoRules.Add(Must, Pattern("x")).Add(Must, Pattern("x")),
                            {"a.conf", "/d/a.conf"}, ["a.conf", "/d/a.conf"]))
  {
    var fs := map["a.conf" := SelfIncluding, "/d/a.conf" := SelfIncluding];
    var st1 := LoadState(NoRules, {"a.conf"}, ["a.conf"]);
    assert Initial.loaded + {"a.conf"} == st1.loaded;
    assert Initial.readLog + ["a.conf"] == st1.readLog;
    assert st1.loaded + {"/d/a.conf"} == {"a.conf", "/d/a.conf"};
    assert st1.readLog + ["/d/a.conf"] == ["a.conf", "/d/a.conf"];
    LoadFresh(fs, compiles, paths, "a.conf", Initial);
    SelfIncludeUnderOtherKey(fs, compiles, paths, "a.conf", "/d/a.conf", st1);
  }

  /** The self-including file, read under a key whose include resolves to
      another, not yet loaded key: the file is read a second time under
      that key and its pattern registered again. */
  lemma SelfIncludeUnderOtherKey(fs: FileSystem, compiles: Compiler, paths: PathOps,
                                 key: string, other: string, st: LoadState)
    requires compiles("x") && other !in st.loaded && other in fs && fs[other] == SelfIncluding
    requires Resolve(paths, key, "a.conf") == Some(other) && Resolve(paths, other, "a.conf") == Some(other)
    ensures LoadLines(fs, compiles, paths, key, SelfIncluding, st)
            == Ok(LoadState(st.rules.Add(Must, Pattern("x")).Add(Must, Pattern("x")),
                            st.loaded + {other}, st.readLog + [other]))
  {
    assert Format(Add(Must, "x")) == "-A x";
    assert Format(Include("a.conf")) == "-c a.conf";
    assert SelfIncluding == [Format(Add(Must, "x"))] + [Format(Include("a.conf"))];
    PatternLine(fs, compiles, paths, key, Must, "x", [Format(Include("a.conf"))], st);
    IncludeOfFresh(fs, compiles, paths, key, other, st.(rules := st.rules.Add(Must, Pattern("x"))));
  }

  /** The include line of the self-including file, when it resolves to a
      key not yet loaded. */
  lemma IncludeOfFresh(fs: FileSystem, compiles: Compiler, paths: PathOps,
                       key: string, other: string, st: LoadState)
    requires compiles("x") && other !in st.loaded && other in fs && fs[other] == SelfIncluding
    requires Resolve(paths, key, "a.conf") == Some(other) && Resolve(paths, other, "a.conf") == Some(other)
    ensures LoadLines(fs, compiles, paths, key, [Format(Include("a.conf"))], st)
            == Ok(LoadState(st.rules.Add(Must, Pattern("x")), st.loaded + {other}, st.readLog + [other]))
  {
    var st1 := LoadState(st.rules, st.loaded + {other}, st.readLog + [other]);
    IncludeLine(fs, compiles, paths, key, "a.conf", [], st);
    LoadFresh(fs, compiles, paths, other, st);
    SelfIncludeOnceFrom(fs, compiles, paths, other, st1);
  }

  /** Made absolute first, the same argument reads the file once and
      registers its pattern once. */
  lemma SelfIncludeReadOnce(compiles: Compiler, paths: PathOps)
    requires compiles("x") && InDirD(paths)
    ensures var fs := map["a.conf" := SelfIncluding, "/d/a.conf" := SelfIncluding];
            LoadArgument(fs, compiles, paths, "a.conf", Initial)
            == Ok(LoadState(NoRules.Add(Must, Pattern("x")), {"/d/a.conf"}, ["/d/a.conf"]))
  {
    var fs := map["a.conf" := SelfIncluding, "/d/a.conf" := SelfIncluding];
    var st1 := LoadState(NoRules, {"/d/a.conf"}, ["/d/a.conf"]);
    assert Initial.loaded + {"/d/a.conf"} == st1.loaded;
    assert Initial.readLog + ["/d/a.conf"] == st1.readLog;
    LoadFresh(fs, compiles, paths, "/d/a.conf", Initial);
    SelfIncludeOnceFrom(fs, compiles, paths, "/d/a.conf", st1);
  }

  /** The self-including file, read under a key its include resolves back
      to: the include finds the key loaded and the scan ends. */
  lemma SelfIncludeOnceFrom(fs: FileSystem, compiles: Compiler, paths: PathOps, key: string, st: LoadState)
    requires compiles("x") && key in st.loaded && Resolve(paths, key, "a.conf") == Some(key)
    ensures LoadLines(fs, compiles, paths, key, SelfIncluding, st)
            == Ok(st.(rules := st.rules.Add(Must, Pattern("x"))))
  {
    var st2 := st.(rules := st.rules.Add(Must, Pattern("x")));
    assert Format(Add(Must, "x")) == "-A x";
    assert Format(Include("a.conf")) == "-c a.conf";
    assert SelfIncluding == [Format(Add(Must, "x"))] + [Format(Include("a.conf"))];
    PatternLine(fs, compiles, paths, key, Must, "x", [Format(Include("a.conf"))], st);
    IncludeOfLoaded(fs, compiles, paths, key, "a.conf", [], st2);
  }

  /** A bad line anywhere in a file is fatal: a fresh load of it that
      succeeds accepted every one of its lines. */
  lemma LoadAcceptsEveryLine(fs: FileSystem, compiles: Compiler, paths: PathOps, path: string, st: LoadState)
    requires path !in st.loaded && Load(fs, compiles, paths, path, st).Ok?
    ensures path in fs && AllAccepted(compiles, path, fs[path])
  {
  }

  /** Loading a path not loaded yet reads its lines with the path marked. */
  lemma LoadFresh(fs: FileSystem, compiles: Compiler, paths: PathOps, t: string, st: LoadState)
    requires t !in st.loaded && t in fs
    ensures Load(fs, compiles, paths, t, st)
            == LoadLines(fs, compiles, paths, t, fs[t], LoadState(st.rules, st.loaded + {t}, st.readLog + [t]))
  {
  }

  /** An include line loads its target, then the scan goes on, unless the
      load failed. */
  lemma IncludeLine(fs: FileSystem, compiles: Compiler, paths: PathOps, path: string,
                    v: string, rest: seq<string>, st: LoadState)
    requires Resolve(paths, path, v).Some?
    ensures var loaded := Load(fs, compiles, paths, Resolve(paths, path, v).value, st);
            LoadLines(fs, compiles, paths, path, [Format(Include(v))] + rest, st)
            == if loaded.Err? then Err(loaded.error) else LoadLines(fs, compiles, paths, path, rest, loaded.value)
  {
    ParseFormat(path, Include(v));
    assert ([Format(Include(v))] + rest)[1..] == rest;
  }

  /** An include of a file of pattern lines not loaded yet registers its
      patterns, marks and reads it once, and the scan goes on. */
  lemma IncludePatternFile(fs: FileSystem, compiles: Compiler, paths: PathOps, path: string,
                           v: string, rest: seq<string>, entries: seq<(Category, string)>, st: LoadState)
    requires Resolve(paths, path, v).Some?
    requires var t := Resolve(paths, path, v).value;
             t !in st.loaded && t in fs && fs[t] == PatternLines(entries)
    requires AllCompile(compiles, entries)
    ensures var t := Resolve(paths, path, v).value;
            LoadLines(fs, compiles, paths, path, [Format(Include(v))] + rest, st)
            == LoadLines(fs, compiles, paths, path, rest,
                         LoadState(AddAll(st.rules, entries), st.loaded + {t}, st.readLog + [t]))
  {
    var t := Resolve(paths, path, v).value;
    var st1 := LoadState(st.rules, st.loaded + {t}, st.readLog + [t]);
    IncludeLine(fs, compiles, paths, path, v, rest, st);
    LoadFresh(fs, compiles, paths, t, st);
    PatternLinesThen(fs, compiles, paths, t, entries, [], st1);
    assert PatternLines(entries) + [] == PatternLines(entries);
  }

  /** A line that does not parse, after any run of pattern lines, makes the
      whole load fail with its error, whatever follows. */
  lemma LineErrorAborts(fs: FileSystem, compiles: Compiler, paths: PathOps, path: string,
                        entries: seq<(Category, string)>, l: string, rest: seq<string>, st: LoadState)
    requires ParseLine(path, l).Err? && AllCompile(compiles, entries)
    ensures LoadLines(fs, compiles, paths, path, PatternLines(entries) + ([l] + rest), st)
            == Err(ParseLine(path, l).error)
  {
    PatternLinesThen(fs, compiles, paths, path, entries, [l] + rest, st);
  }

  /** A pattern that does not compile, after any run of pattern lines, makes
      the whole load fail, whatever follows. */
  lemma BadPatternAborts(fs: FileSystem, compiles: Compiler, paths: PathOps, path: string,
                         entries: seq<(Category, string)>, c: Category, v: string, rest: seq<string>,
                         st: LoadState)
    requires !compiles(v) && AllCompile(compiles, entries)
    ensures LoadLines(fs, compiles, paths, path, PatternLines(entries) + ([Format(Add(c, v))] + rest), st)
            == Err(BadPattern(path, v))
  {
    PatternLinesThen(fs, compiles, paths, path, entries, [Format(Add(c, v))] + rest, st);
    ParseFormat(path, Add(c, v));
  }

  /** A pattern line registers its pattern and the scan goes on. */
  lemma PatternLine(fs: FileSystem, compiles: Compiler, paths: PathOps, path: string,
                    c: Category, v: string, rest: seq<string>, st: LoadState)
    requires compiles(v)
    ensures LoadLines(fs, compiles, paths, path, [Format(Add(c, v))] + rest, st)
            == LoadLines(fs, compiles, paths, path, rest, st.(rules := st.rules.Add(c, Pattern(v))))
  {
    ParseFormat(path, Add(c, v));
    assert ([Format(Add(c, v))] + rest)[1..] == rest;
  }

  /** An include of a path already loaded changes nothing, so a cycle of
      includes ends. */
  lemma IncludeOfLoaded(fs: FileSystem, compiles: Compiler, paths: PathOps, path: string,
                        v: string, rest: seq<string>, st: LoadState)
    requires Resolve(paths, path, v).Some? && Resolve(paths, path, v).value in st.loaded
    ensures LoadLines(fs, compiles, paths, path, [Format(Include(v))] + rest, st)
            == LoadLines(fs, compiles, paths, path, rest, st)
  {
    ParseFormat(path, Include(v));
    assert ([Format(Include(v))] + rest)[1..] == rest;
  }

  /** Every pattern source in the list compiles. */
  predicate AllCompile(compiles: Compiler, entries: seq<(Category, string)>)
  {
    forall k :: 0 <= k < |entries| ==> compiles(entries[k].1)
  }

  lemma AllCompileTail(compiles: Compiler, entries: seq<(Category, string)>)
    requires AllCompile(compiles, entries) && |entries| > 0
    ensures compiles(entries[0].1) && AllCompile(compiles, entries[1..])
  {
    forall k | 0 <= k < |entries[1..]| ensures compiles(entries[1..][k].1) {
      assert entries[1..][k] == entries[k + 1];
    }
  }

  lemma AllCompileAppend(compiles: Compiler, a: seq<(Category, string)>, b: seq<(Category, string)>)
    requires AllCompile(compiles, a) && AllCompile(compiles, b)
    ensures AllCompile(compiles, a + b)
  {
    forall k | 0 <= k < |a + b|
      ensures compiles((a + b)[k].1)
    {
      if k >= |a| {
        assert (a + b)[k] == b[k - |a|];
      }
    }
  }

  /** The config lines spelling a list of patterns. */
  function PatternLines(entries: seq<(Category, string)>): (lines: seq<string>)
    ensures |lines| == |entries|
    ensures forall k :: 0 <= k < |entries| ==> lines[k] == Format(Add(entries[k].0, entries[k].1))
  {
    if |entries| == 0 then []
    else
      var rest := PatternLines(entries[1..]);
      var first := Format(Add(entries[0].0, entries[0].1));
      var lines := [first] + rest;
      forall k | 0 <= k < |entries|
        ensures lines[k] == Format(Add(entries[k].0, entries[k].1))
      {
        if k > 0 {
          assert lines[k] == rest[k - 1];
          assert entries[1..][k - 1] == entries[k];
        }
      }
      lines
  }

  /** A run of pattern lines registers its patterns in order, loads
      nothing, and the scan goes on after it. */
  lemma {:induction false} PatternLinesThen(fs: FileSystem, compiles: Compiler, paths: PathOps, path: string,
                                             entries: seq<(Category, string)>, tail: seq<string>, st: LoadState)
    requires AllCompile(compiles, entries)
    ensures LoadLines(fs, compiles, paths, path, PatternLines(entries) + tail, st)
            == LoadLines(fs, compiles, paths, path, tail, st.(rules := AddAll(st.rules, entries)))
    decreases |entries|
  {
    if |entries| == 0 {
      assert PatternLines(entries) + tail == tail;
    } else {
      AllCompileTail(compiles, entries);
      var c, v := entries[0].0, entries[0].1;
      var more := PatternLines(entries[1..]);
      assert PatternLines(entries) == [Format(Add(c, v))] + more;
      AppendAssoc([Format(Add(c, v))], more, tail);
      PatternLine(fs, compiles, paths, path, c, v, more + tail, st);
      PatternLinesThen(fs, compiles, paths, path, entries[1..], tail, st.(rules := st.rules.Add(c, Pattern(v))));
    }
  }

  /** Loading a file of pattern lines from the start registers its patterns
      in file order and reads that file alone. */
  lemma LoadPatternFile(fs: FileSystem, compiles: Compiler, paths: PathOps,
                        path: string, entries: seq<(Category, string)>)
    requires path in fs && fs[path] == PatternLines(entries) && AllCompile(compiles, entries)
    ensures Load(fs, compiles, paths, path, Initial) == Ok(LoadState(AddAll(NoRules, entries), {path}, [path]))
  {
    var st1 := LoadState(NoRules, {path}, [path]);
    LoadFresh(fs, compiles, paths, path, Initial);
    PatternLinesThen(fs, compiles, paths, path, entries, [], st1);
    assert PatternLines(entries) + [] == PatternLines(entries);
    assert Initial.loaded + {path} == st1.loaded;
    assert Initial.readLog + [path] == st1.readLog;
  }
}
