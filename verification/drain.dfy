/** The body of the `scanner` closure (main.go:197-222): each line the
    segmenter cuts is stripped of its terminator, checked with `match`, and
    forwarded unchanged, terminator included, when admitted. A drain is
    modelled on its own, as a function of one stream's bytes. */
module Drain {
  import opened Seqs
  import opened Bytes
  import opened Segmenter
  import opened Rules

  /** The matchable content of a line (main.go:201-212): the line without one
      trailing CR, LF or CR LF. */
  function Strip(line: seq<byte>): (content: seq<byte>)
    ensures content <= line
    ensures IsEnding(line[|content|..])
    ensures |line| > 0 && IsBreak(line[|line| - 1]) ==> |content| < |line|
    ensures |line| >= 2 && line[|line| - 2] == CR && line[|line| - 1] == LF ==> |content| == |line| - 2
  {
    var i := |line|;
    if |line| >= 1 then
      if line[|line| - 1] == CR then line[..i - 1]
      else if line[|line| - 1] == LF then
        if |line| >= 2 && line[|line| - 2] == CR then line[..i - 2] else line[..i - 1]
      else line
    else line
  }

  /** Stripping undoes appending a terminator to break-free content: the
      content matched is the same whichever terminator ends the line. */
  lemma StripEnding(content: seq<byte>, ending: seq<byte>)
    requires NoBreak(content)
    requires IsEnding(ending)
    ensures Strip(content + ending) == content
  {
    var line := content + ending;
    if |ending| == 0 {
      assert line == content;
      if |content| > 0 {
        assert !IsBreak(content[|content| - 1]);
      }
    } else if |ending| == 1 {
      assert line[..|line| - 1] == content;
    } else {
      assert line[..|line| - 2] == content;
    }
  }

  /** Terminator invariance: CR, LF and CR LF endings strip alike. */
  lemma TerminatorInvariance(content: seq<byte>)
    requires NoBreak(content)
    ensures Strip(content + [CR]) == content
    ensures Strip(content + [LF]) == content
    ensures Strip(content + [CR, LF]) == content
  {
    StripEnding(content, [CR]);
    StripEnding(content, [LF]);
    StripEnding(content, [CR, LF]);
  }

  /** On a segmented line, stripping leaves exactly the text before the first
      break. */
  lemma StripLine(t: seq<byte>)
    requires IsLine(t)
    ensures Strip(t) == t[..FirstBreak(t)]
  {
    var c := FirstBreak(t);
    forall j | 0 <= j < |t[..c]|
      ensures !IsBreak(t[..c][j])
    {
    }
    assert t == t[..c] + t[c..];
    StripEnding(t[..c], t[c..]);
  }

  /** Whether the closure forwards a line read from `stream`. */
  predicate Forwarded(rules: RuleSet, m: Matcher, stream: Stream, line: seq<byte>)
  {
    Admits(rules, m, Strip(line), stream)
  }

  /** What the closure writes for a sequence of lines, in order: the
      forwarded lines, each unchanged, and never more than the input. */
  function DrainLines(rules: RuleSet, m: Matcher, stream: Stream, lines: seq<seq<byte>>): (out: seq<byte>)
    ensures out == Concat(Kept(rules, m, stream, lines))
    ensures |out| <= |Concat(lines)|
  {
    if |lines| == 0 then []
    else
      var rest := DrainLines(rules, m, stream, lines[1..]);
      assert lines == [lines[0]] + lines[1..];
      ConcatCons(lines[0], lines[1..]);
      if Forwarded(rules, m, stream, lines[0]) then
        ConcatCons(lines[0], Kept(rules, m, stream, lines[1..]));
        lines[0] + rest
      else
        assert Kept(rules, m, stream, lines) == Kept(rules, m, stream, lines[1..]);
        rest
  }

  /** What the closure writes for a whole stream: its admitted lines, in
      order, and never more bytes than the stream holds. */
  function DrainStream(rules: RuleSet, m: Matcher, stream: Stream, data: seq<byte>): (out: seq<byte>)
    ensures out == Concat(Kept(rules, m, stream, SplitAll(data)))
    ensures |out| <= |data|
  {
    SplitAllConcat(data);
    DrainLines(rules, m, stream, SplitAll(data))
  }

  /** The lines forwarded, in their original order. */
  function Kept(rules: RuleSet, m: Matcher, stream: Stream, lines: seq<seq<byte>>): seq<seq<byte>>
  {
    if |lines| == 0 then []
    else (if Forwarded(rules, m, stream, lines[0]) then [lines[0]] else []) + Kept(rules, m, stream, lines[1..])
  }

  /** Draining distributes over the line sequence: lines are emitted in order
      and each independently of the others. */
  lemma {:induction false} DrainAppend(rules: RuleSet, m: Matcher, stream: Stream, a: seq<seq<byte>>, b: seq<seq<byte>>)
    ensures DrainLines(rules, m, stream, a + b) == DrainLines(rules, m, stream, a) + DrainLines(rules, m, stream, b)
  {
    if |a| == 0 {
      assert a + b == b;
    } else {
      assert (a + b)[1..] == a[1..] + b;
      DrainAppend(rules, m, stream, a[1..], b);
      var first := if Forwarded(rules, m, stream, a[0]) then a[0] else [];
      AppendAssoc(first, DrainLines(rules, m, stream, a[1..]), DrainLines(rules, m, stream, b));
    }
  }

  /** The forwarded lines are exactly the lines whose content is admitted. */
  lemma {:induction false} KeptMembers(rules: RuleSet, m: Matcher, stream: Stream, lines: seq<seq<byte>>)
    ensures forall t :: t in Kept(rules, m, stream, lines) <==> t in lines && Forwarded(rules, m, stream, t)
  {
    if |lines| > 0 {
      KeptMembers(rules, m, stream, lines[1..]);
      assert lines == [lines[0]] + lines[1..];
    }
  }

  /** When every line is forwarded the output is the input. */
  lemma {:induction false} DrainForwardAll(rules: RuleSet, m: Matcher, stream: Stream, lines: seq<seq<byte>>)
    requires forall i :: 0 <= i < |lines| ==> Forwarded(rules, m, stream, lines[i])
    ensures DrainLines(rules, m, stream, lines) == Concat(lines)
  {
    if |lines| > 0 {
      DrainForwardAll(rules, m, stream, lines[1..]);
    }
  }

  /** With no patterns the drain reproduces the child's stream byte for byte,
      terminators included. */
  lemma DrainWithoutRules(m: Matcher, stream: Stream, data: seq<byte>)
    ensures DrainStream(NoRules, m, stream, data) == data
  {
    var lines := SplitAll(data);
    forall i | 0 <= i < |lines|
      ensures Forwarded(NoRules, m, stream, lines[i])
    {
      NoRulesAdmitAll(m, Strip(lines[i]), stream);
    }
    DrainForwardAll(NoRules, m, stream, lines);
    SplitAllConcat(data);
  }

  /** One cut line of the scanner contributes itself or nothing. */
  lemma DrainScanCut(rules: RuleSet, m: Matcher, stream: Stream, buf: seq<byte>, chunks: seq<seq<byte>>)
    requires ScanLines(buf, |chunks| == 0).token.Some?
    ensures var r := ScanLines(buf, |chunks| == 0);
            DrainLines(rules, m, stream, Scan(buf, chunks))
            == DrainLines(rules, m, stream, [r.token.value]) + DrainLines(rules, m, stream, Scan(buf[r.advance..], chunks))
  {
    var r := ScanLines(buf, |chunks| == 0);
    ScanUnfoldCut(buf, chunks);
    DrainAppend(rules, m, stream, [r.token.value], Scan(buf[r.advance..], chunks));
  }

  /** A read changes nothing the drain will write. */
  lemma DrainScanRead(rules: RuleSet, m: Matcher, stream: Stream, buf: seq<byte>, chunks: seq<seq<byte>>, k: nat)
    requires k < |chunks| && ScanLines(buf, false).token.None?
    ensures DrainLines(rules, m, stream, Scan(buf, chunks[k..]))
            == DrainLines(rules, m, stream, Scan(buf + chunks[k], chunks[k + 1..]))
  {
    ScanUnfoldRead(buf, chunks[k..]);
    assert chunks[k..][1..] == chunks[k + 1..];
  }

  /** The loop body of the closure for one line: strip, match, and write the
      line unchanged when admitted. */
  method Forward(rules: RuleSet, m: Matcher, stream: Stream, line: seq<byte>) returns (written: seq<byte>)
    ensures written == DrainLines(rules, m, stream, [line])
    ensures written == [] || written == line
  {
    var ok := Match(rules, m, Strip(line), stream);
    if ok {
      written := line;
    } else {
      written := [];
    }
    assert [line][1..] == [];
  }

  /** The scanner closure: bufio.Scanner with scanLines over a stream that
      arrives in `chunks`, each admitted line written out as read. Whatever
      the chunking, it writes the drain of the whole stream. */
  method RunScanner(rules: RuleSet, m: Matcher, stream: Stream, chunks: seq<seq<byte>>) returns (out: seq<byte>)
    ensures out == DrainStream(rules, m, stream, Concat(chunks))
  {
    var buf: seq<byte> := [];
    var k := 0;
    out := [];
    while true
      invariant 0 <= k <= |chunks|
      invariant out + DrainLines(rules, m, stream, Scan(buf, chunks[k..])) == DrainLines(rules, m, stream, Scan([], chunks))
      decreases |chunks| - k, |buf|
    {
      var r := ScanLines(buf, k == |chunks|);
      if r.token.Some? {
        var line := r.token.value;
        var rest := DrainLines(rules, m, stream, Scan(buf[r.advance..], chunks[k..]));
        DrainScanCut(rules, m, stream, buf, chunks[k..]);
        var written := Forward(rules, m, stream, line);
        AppendAssoc(out, written, rest);
        out := out + written;
        buf := buf[r.advance..];
      } else if k == |chunks| {
        break;
      } else {
        DrainScanRead(rules, m, stream, buf, chunks, k);
        buf := buf + chunks[k];
        k := k + 1;
      }
    }
    ScanEnd(buf);
    assert chunks[k..] == [];
    ScanLinesOfStream(chunks);
  }
}
