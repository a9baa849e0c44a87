/** The six pattern lists held in `patterns` (main.go:57) and the admission
    predicate `match` (main.go:59-90). Regular expressions are opaque here: a
    compiled pattern is known by its source text, and whether it matches a
    line is decided by a `Matcher` supplied by the caller. */
module Rules {
  import opened Wrappers
  import opened Bytes

  /** A compiled regular expression, known by its source text. */
  datatype Pattern = Pattern(source: string)

  /** Whether a pattern matches a line's content (regexp.MatchString). */
  type Matcher = (Pattern, seq<byte>) -> bool

  /** The stream a line was read from. */
  datatype Stream = Stdout | Stderr

  /** The six categories, named after their keys A, a, O, o, E, e. */
  datatype Category =
    | Must        // A: every pattern must match
    | MustNot     // a: no pattern may match
    | OutMust     // O: as A, stdout lines only
    | OutMustNot  // o: as a, stdout lines only
    | ErrMust     // E: as A, stderr lines only
    | ErrMustNot  // e: as a, stderr lines only

  /** The one-letter key of a category, as used on the command line and in
      config files. */
  function KeyOf(c: Category): string
  {
    match c
    case Must => "A"
    case MustNot => "a"
    case OutMust => "O"
    case OutMustNot => "o"
    case ErrMust => "E"
    case ErrMustNot => "e"
  }

  /** The category a key names, if any (the cases "o", "e", "a", "O", "E",
      "A" of main.go:120 and main.go:150). */
  function CategoryOfKey(key: string): (c: Option<Category>)
    ensures c.Some? ==> |key| == 1
  {
    if key == "A" then Some(Must)
    else if key == "a" then Some(MustNot)
    else if key == "O" then Some(OutMust)
    else if key == "o" then Some(OutMustNot)
    else if key == "E" then Some(ErrMust)
    else if key == "e" then Some(ErrMustNot)
    else None
  }

  /** Keys and categories correspond one to one. */
  lemma KeyRoundTrip(key: string, c: Category)
    ensures CategoryOfKey(key) == Some(c) <==> key == KeyOf(c)
  {
  }

  /** The registry of compiled patterns, one ordered list per category. */
  datatype RuleSet = RuleSet(
    must: seq<Pattern>,
    mustNot: seq<Pattern>,
    outMust: seq<Pattern>,
    outMustNot: seq<Pattern>,
    errMust: seq<Pattern>,
    errMustNot: seq<Pattern>)
  {
    /** The list of one category, the `patterns` map entry of its key. */
    function Get(c: Category): seq<Pattern>
    {
      match c
      case Must => must
      case MustNot => mustNot
      case OutMust => outMust
      case OutMustNot => outMustNot
      case ErrMust => errMust
      case ErrMustNot => errMustNot
    }

    /** The registry with `p` appended to the list of category `c`. */
    function Add(c: Category, p: Pattern): (r: RuleSet)
      ensures r.Get(c) == Get(c) + [p]
      ensures forall d :: d != c ==> r.Get(d) == Get(d)
    {
      match c
      case Must => this.(must := must + [p])
      case MustNot => this.(mustNot := mustNot + [p])
      case OutMust => this.(outMust := outMust + [p])
      case OutMustNot => this.(outMustNot := outMustNot + [p])
      case ErrMust => this.(errMust := errMust + [p])
      case ErrMustNot => this.(errMustNot := errMustNot + [p])
    }

    /** Every list of `this` is a prefix of the same list of `other`. */
    predicate GrowsTo(other: RuleSet)
    {
      forall c :: Get(c) <= other.Get(c)
    }
  }

  const NoRules := RuleSet([], [], [], [], [], [])

  /** The registry after adding a list of (category, pattern source) pairs
      in order, as a run of flags or of config lines does. */
  function AddAll(rules: RuleSet, entries: seq<(Category, string)>): RuleSet
    decreases |entries|
  {
    if |entries| == 0 then rules
    else AddAll(rules.Add(entries[0].0, Pattern(entries[0].1)), entries[1..])
  }

  /** Adding two lists of entries one after the other is adding their
      concatenation. */
  lemma {:induction false} AddAllAppend(rules: RuleSet, a: seq<(Category, string)>, b: seq<(Category, string)>)
    ensures AddAll(AddAll(rules, a), b) == AddAll(rules, a + b)
    decreases |a|
  {
    if |a| == 0 {
      assert a + b == b;
    } else {
      assert (a + b)[0] == a[0];
      assert (a + b)[1..] == a[1..] + b;
      AddAllAppend(rules.Add(a[0].0, Pattern(a[0].1)), a[1..], b);
    }
  }

  /** The must category that applies to a stream besides A. */
  function StreamMust(stream: Stream): Category
  {
    if stream == Stderr then ErrMust else OutMust
  }

  /** The mustNot category that applies to a stream besides a. */
  function StreamMustNot(stream: Stream): Category
  {
    if stream == Stderr then ErrMustNot else OutMustNot
  }

  predicate AllMatch(m: Matcher, ps: seq<Pattern>, s: seq<byte>)
  {
    forall i :: 0 <= i < |ps| ==> m(ps[i], s)
  }

  predicate NoneMatch(m: Matcher, ps: seq<Pattern>, s: seq<byte>)
  {
    forall i :: 0 <= i < |ps| ==> !m(ps[i], s)
  }

  /** The admission rule: all of A and of the stream's must list match,
      none of a and of the stream's mustNot list matches. */
  predicate Admits(rules: RuleSet, m: Matcher, s: seq<byte>, stream: Stream)
  {
    && AllMatch(m, rules.must, s)
    && NoneMatch(m, rules.mustNot, s)
    && AllMatch(m, rules.Get(StreamMust(stream)), s)
    && NoneMatch(m, rules.Get(StreamMustNot(stream)), s)
  }

  /** One of match's must loops: false at the first pattern that does not
      match. */
  method AllMatchLoop(m: Matcher, ps: seq<Pattern>, line: seq<byte>) returns (ok: bool)
    ensures ok <==> AllMatch(m, ps, line)
  {
    var i := 0;
    while i < |ps|
      invariant 0 <= i <= |ps|
      invariant AllMatch(m, ps[..i], line)
    {
      if !m(ps[i], line) {
        return false;
      }
      i := i + 1;
    }
    assert ps[..i] == ps;
    return true;
  }

  /** One of match's mustNot loops: false at the first pattern that
      matches. */
  method NoneMatchLoop(m: Matcher, ps: seq<Pattern>, line: seq<byte>) returns (ok: bool)
    ensures ok <==> NoneMatch(m, ps, line)
  {
    var i := 0;
    while i < |ps|
      invariant 0 <= i <= |ps|
      invariant NoneMatch(m, ps[..i], line)
    {
      if m(ps[i], line) {
        return false;
      }
      i := i + 1;
    }
    assert ps[..i] == ps;
    return true;
  }

  /** match: the four short-circuiting loops of the source, global lists
      first, then the lists of the line's stream. */
  method Match(rules: RuleSet, m: Matcher, line: seq<byte>, stream: Stream) returns (ok: bool)
    ensures ok <==> Admits(rules, m, line, stream)
  {
    ok := AllMatchLoop(m, rules.must, line);
    if !ok {
      return;
    }
    ok := NoneMatchLoop(m, rules.mustNot, line);
    if !ok {
      return;
    }
    var streamMust, streamMustNot;
    if stream == Stderr {
      streamMust, streamMustNot := rules.errMust, rules.errMustNot;
    } else {
      streamMust, streamMustNot := rules.outMust, rules.outMustNot;
    }
    ok := AllMatchLoop(m, streamMust, line);
    if !ok {
      return;
    }
    ok := NoneMatchLoop(m, streamMustNot, line);
  }

  /** With all six lists empty every line is admitted. */
  lemma NoRulesAdmitAll(m: Matcher, s: seq<byte>, stream: Stream)
    ensures Admits(NoRules, m, s, stream)
  {
  }

  /** A line is rejected iff some must-match pattern (global or of its stream)
      does not match it, or some must-not-match pattern does. */
  lemma RejectionIff(rules: RuleSet, m: Matcher, s: seq<byte>, stream: Stream)
    ensures !Admits(rules, m, s, stream) <==>
              (exists p :: p in rules.must + rules.Get(StreamMust(stream)) && !m(p, s))
              || (exists p :: p in rules.mustNot + rules.Get(StreamMustNot(stream)) && m(p, s))
  {
    var inc := rules.must + rules.Get(StreamMust(stream));
    var exc := rules.mustNot + rules.Get(StreamMustNot(stream));
    if !AllMatch(m, rules.must, s) {
      var i :| 0 <= i < |rules.must| && !m(rules.must[i], s);
      assert rules.must[i] in inc;
    } else if !NoneMatch(m, rules.mustNot, s) {
      var i :| 0 <= i < |rules.mustNot| && m(rules.mustNot[i], s);
      assert rules.mustNot[i] in exc;
    } else if !AllMatch(m, rules.Get(StreamMust(stream)), s) {
      var ps := rules.Get(StreamMust(stream));
      var i :| 0 <= i < |ps| && !m(ps[i], s);
      assert ps[i] in inc;
    } else if !NoneMatch(m, rules.Get(StreamMustNot(stream)), s) {
      var ps := rules.Get(StreamMustNot(stream));
      var i :| 0 <= i < |ps| && m(ps[i], s);
      assert ps[i] in exc;
    }
  }

  /** Stdout lines never consult E or e, stderr lines never consult O or o. */
  lemma OtherStreamIgnored(rules: RuleSet, m: Matcher, s: seq<byte>, x: seq<Pattern>, y: seq<Pattern>)
    ensures Admits(rules, m, s, Stdout) <==> Admits(rules.(errMust := x, errMustNot := y), m, s, Stdout)
    ensures Admits(rules, m, s, Stderr) <==> Admits(rules.(outMust := x, outMustNot := y), m, s, Stderr)
  {
  }

  /** Registering one more pattern narrows admission by exactly that pattern's
      own condition, when its category applies to the stream. */
  lemma AddNarrows(rules: RuleSet, c: Category, p: Pattern, m: Matcher, s: seq<byte>, stream: Stream)
    ensures Admits(rules.Add(c, p), m, s, stream) <==>
              && Admits(rules, m, s, stream)
              && (c == Must || c == StreamMust(stream) ==> m(p, s))
              && (c == MustNot || c == StreamMustNot(stream) ==> !m(p, s))
  {
    var r := rules.Add(c, p);
    forall d | d == c
      ensures AllMatch(m, r.Get(d), s) <==> AllMatch(m, rules.Get(d), s) && m(p, s)
      ensures NoneMatch(m, r.Get(d), s) <==> NoneMatch(m, rules.Get(d), s) && !m(p, s)
    {
      var ps := rules.Get(d);
      assert r.Get(d)[|ps|] == p;
      assert forall i :: 0 <= i < |ps| ==> r.Get(d)[i] == ps[i];
    }
  }

  /** Only which patterns a list holds matters, not their order or repetition. */
  lemma OrderIrrelevant(r1: RuleSet, r2: RuleSet, m: Matcher, s: seq<byte>, stream: Stream)
    requires forall c :: (forall p :: p in r1.Get(c) <==> p in r2.Get(c))
    ensures Admits(r1, m, s, stream) <==> Admits(r2, m, s, stream)
  {
    forall c, ps1, ps2 | ps1 == r1.Get(c) && ps2 == r2.Get(c)
      ensures AllMatch(m, ps1, s) <==> AllMatch(m, ps2, s)
      ensures NoneMatch(m, ps1, s) <==> NoneMatch(m, ps2, s)
    {
      SameElements(m, ps1, ps2, s);
    }
    assert r1.must == r1.Get(Must) && r2.must == r2.Get(Must);
    assert r1.mustNot == r1.Get(MustNot) && r2.mustNot == r2.Get(MustNot);
  }

  lemma SameElements(m: Matcher, ps1: seq<Pattern>, ps2: seq<Pattern>, s: seq<byte>)
    requires forall p :: p in ps1 <==> p in ps2
    ensures AllMatch(m, ps1, s) <==> AllMatch(m, ps2, s)
    ensures NoneMatch(m, ps1, s) <==> NoneMatch(m, ps2, s)
  {
    if AllMatch(m, ps1, s) {
      forall i | 0 <= i < |ps2| ensures m(ps2[i], s) {
        assert ps2[i] in ps1;
      }
    }
    if AllMatch(m, ps2, s) {
      forall i | 0 <= i < |ps1| ensures m(ps1[i], s) {
        assert ps1[i] in ps2;
      }
    }
    if NoneMatch(m, ps1, s) {
      forall i | 0 <= i < |ps2| ensures !m(ps2[i], s) {
        assert ps2[i] in ps1;
      }
    }
    if NoneMatch(m, ps2, s) {
      forall i | 0 <= i < |ps1| ensures !m(ps1[i], s) {
        assert ps1[i] in ps2;
      }
    }
  }
}
