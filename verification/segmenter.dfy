/** The split function `scanLines` (main.go:22-55) and the bufio.Scanner loop
    that drives it: a byte stream is cut into lines at CR, LF or CR LF, each
    line keeping its terminator. */
module Segmenter {
  import opened Wrappers
  import opened Seqs
  import opened Bytes

  /** What a split function returns: how many bytes to consume, and the token
      if one was cut. (The split function never returns an error.) */
  datatype Split = Split(advance: nat, token: Option<seq<byte>>)

  /** Reference definition of one segmentation step, written from the first
      break alone: the length of the first line of `data`, terminator
      included, or 0 when no line can be cut yet. */
  function LineEnd(data: seq<byte>, atEOF: bool): nat
  {
    var c := FirstBreak(data);
    if c == |data| then
      if atEOF then |data| else 0
    else if data[c] == LF then c + 1
    else if c + 1 < |data| then
      if data[c + 1] == LF then c + 2 else c + 1
    else if atEOF then c + 1
    else 0
  }

  /** scanLines: cut the first line, terminator included, off `data`; (0, nil)
      asks for more bytes (or, at EOF on an empty buffer, ends the scan). */
  function ScanLines(data: seq<byte>, atEOF: bool): (r: Split)
    ensures atEOF && |data| == 0 ==> r == Split(0, None)
    ensures r.token.None? ==> r.advance == 0
    ensures r.token.Some? ==> 0 < r.advance <= |data| && r.token.value == data[..r.advance]
  {
    if atEOF && |data| == 0 then Split(0, None)
    else
      var n := IndexOf(data, LF);
      var r := if n == -1 then IndexOf(data, CR) else IndexOf(data[..n], CR);
      if r != -1 then
        if r == |data| - 1 then
          if atEOF then Split(|data|, Some(data))
          else Split(0, None) // the next byte may be the LF of a CR LF
        else
          var r' := if data[r + 1] == LF then r + 1 else r;
          Split(r' + 1, Some(data[..r' + 1]))
      else if n != -1 then Split(n + 1, Some(data[..n + 1]))
      else if atEOF then Split(|data|, Some(data))
      else Split(0, None)
  }

  /** The two-scan search of scanLines (first LF, then the first CR before it)
      finds exactly the first break, so scanLines agrees with LineEnd. */
  lemma ScanLinesCutsFirstLine(data: seq<byte>, atEOF: bool)
    ensures ScanLines(data, atEOF).advance == LineEnd(data, atEOF)
  {
    if atEOF && |data| == 0 {
      return;
    }
    var n := IndexOf(data, LF);
    var r := if n == -1 then IndexOf(data, CR) else IndexOf(data[..n], CR);
    if r != -1 {
      forall j | 0 <= j < r
        ensures !IsBreak(data[j])
      {
        if n != -1 {
          assert data[j] == data[..n][..r][j];
        }
        assert data[j] == data[..r][j];
      }
      FirstBreakUnique(data, r);
    } else if n != -1 {
      forall j | 0 <= j < n
        ensures !IsBreak(data[j])
      {
        assert data[j] == data[..n][j];
      }
      FirstBreakUnique(data, n);
    } else {
      FirstBreakUnique(data, |data|);
    }
  }

  /** The declarative reading of one step: a cut line is the break-free
      content before the first break followed by one CR, LF or CR LF. */
  lemma LineShape(data: seq<byte>, atEOF: bool)
    requires LineEnd(data, atEOF) > 0
    ensures FirstBreak(data) <= LineEnd(data, atEOF) <= |data|
    ensures IsEnding(data[FirstBreak(data)..LineEnd(data, atEOF)])
  {
  }

  /** The ending cut is the longest one available: only a line cut at EOF may
      lack one, and a lone CR is never the first half of a CR LF. */
  lemma LineEndingMaximal(data: seq<byte>, atEOF: bool)
    requires LineEnd(data, atEOF) > 0
    ensures FirstBreak(data) == LineEnd(data, atEOF) ==> atEOF && LineEnd(data, atEOF) == |data|
    ensures FirstBreak(data) < LineEnd(data, atEOF) == |data| && data[|data| - 1] == CR ==> atEOF
    ensures FirstBreak(data) < LineEnd(data, atEOF) < |data| && data[LineEnd(data, atEOF) - 1] == CR ==>
              data[LineEnd(data, atEOF)] != LF
  {
    var c := FirstBreak(data);
    if c < |data| {
      assert IsBreak(data[c]);
    }
  }

  /** Before EOF nothing is cut exactly when no break is buffered yet, or the
      first break is a CR in the last buffered byte. */
  lemma NeedMoreWhen(data: seq<byte>)
    ensures LineEnd(data, false) == 0 <==>
              FirstBreak(data) == |data| || (FirstBreak(data) == |data| - 1 && data[|data| - 1] == CR)
  {
  }

  /** A line cut from a partial buffer is the line that would be cut once more
      bytes arrive, whether or not the input then ends. */
  lemma ScanLinesStable(data: seq<byte>, more: seq<byte>, atEOF: bool)
    requires ScanLines(data, false).token.Some?
    ensures ScanLines(data + more, atEOF) == ScanLines(data, false)
  {
    ScanLinesCutsFirstLine(data, false);
    ScanLinesCutsFirstLine(data + more, atEOF);
    FirstBreakAppend(data, more);
    var k := LineEnd(data, false);
    assert (data + more)[..k] == data[..k];
  }

  /** Repeated splitting of a complete stream at EOF: the lines of `s`. */
  function SplitAll(s: seq<byte>): seq<seq<byte>>
    decreases |s|
  {
    var r := ScanLines(s, true);
    if r.token.None? then [] else [r.token.value] + SplitAll(s[r.advance..])
  }

  /** Segmentation loses, adds and reorders no byte. */
  lemma {:induction false} SplitAllConcat(s: seq<byte>)
    ensures Concat(SplitAll(s)) == s
    decreases |s|
  {
    var r := ScanLines(s, true);
    if r.token.Some? {
      var rest := s[r.advance..];
      SplitAllConcat(rest);
      ConcatCons(r.token.value, SplitAll(rest));
      TakeDrop(s, r.advance);
    }
  }

  /** A segmented line: non-empty, break-free content, then one ending. */
  predicate IsLine(t: seq<byte>)
  {
    |t| > 0 && IsEnding(t[FirstBreak(t)..])
  }

  /** Every line of a stream is well formed, and every line but the last ends
      in a terminator. */
  lemma {:induction false} SplitAllLines(s: seq<byte>)
    ensures forall i :: 0 <= i < |SplitAll(s)| ==> IsLine(SplitAll(s)[i])
    ensures forall i :: 0 <= i < |SplitAll(s)| - 1 ==>
              FirstBreak(SplitAll(s)[i]) < |SplitAll(s)[i]|
    decreases |s|
  {
    var r := ScanLines(s, true);
    if r.token.Some? {
      var t := r.token.value;
      var rest := s[r.advance..];
      SplitAllLines(rest);
      ScanLinesCutsFirstLine(s, true);
      LineShape(s, true);
      var c := FirstBreak(s);
      assert t[..c] == s[..c];
      if c < |t| {
        FirstBreakUnique(t, c);
      } else {
        FirstBreakUnique(t, |t|);
      }
      assert t[FirstBreak(t)..] == s[c..r.advance];
      assert SplitAll(s) == [t] + SplitAll(rest);
    }
  }

  /** bufio.Scanner with this split function: `buf` holds the bytes read but
      not yet consumed, `chunks` the reads still to come. A read may deliver
      any number of bytes; EOF is reached when no chunk is left. No byte is
      lost or added: the tokens, concatenated, are the buffer followed by
      every chunk. */
  function Scan(buf: seq<byte>, chunks: seq<seq<byte>>): (lines: seq<seq<byte>>)
    ensures Concat(lines) == buf + Concat(chunks)
    decreases |chunks|, |buf|
  {
    var r := ScanLines(buf, |chunks| == 0);
    if r.token.Some? then
      var rest := Scan(buf[r.advance..], chunks);
      ConcatCons(r.token.value, rest);
      AppendAssoc(buf[..r.advance], buf[r.advance..], Concat(chunks));
      assert buf[..r.advance] + buf[r.advance..] == buf;
      [r.token.value] + rest
    else if |chunks| == 0 then
      assert buf == [];
      []
    else
      ReadChunk(buf, chunks);
      Scan(buf + chunks[0], chunks[1..])
  }

  /** Once EOF is reached the scanner is repeated splitting at EOF. */
  lemma {:induction false} ScanAtEOF(buf: seq<byte>)
    ensures Scan(buf, []) == SplitAll(buf)
    decreases |buf|
  {
    var r := ScanLines(buf, true);
    if r.token.Some? {
      ScanAtEOF(buf[r.advance..]);
    }
  }

  /** Unfolding the scanner one step when a line is cut. */
  lemma ScanUnfoldCut(buf: seq<byte>, chunks: seq<seq<byte>>)
    requires ScanLines(buf, |chunks| == 0).token.Some?
    ensures Scan(buf, chunks) == [ScanLines(buf, |chunks| == 0).token.value]
                                 + Scan(buf[ScanLines(buf, |chunks| == 0).advance..], chunks)
  {
  }

  /** Unfolding the scanner one step when a chunk is read. */
  lemma ScanUnfoldRead(buf: seq<byte>, chunks: seq<seq<byte>>)
    requires |chunks| > 0 && ScanLines(buf, false).token.None?
    ensures Scan(buf, chunks) == Scan(buf + chunks[0], chunks[1..])
  {
  }

  /** The scanner stops when nothing is left at EOF. */
  lemma ScanEnd(buf: seq<byte>)
    requires ScanLines(buf, true).token.None?
    ensures Scan(buf, []) == []
  {
  }

  /** Unfolding repeated splitting one step. */
  lemma SplitAllUnfold(s: seq<byte>)
    requires ScanLines(s, true).token.Some?
    ensures SplitAll(s) == [ScanLines(s, true).token.value] + SplitAll(s[ScanLines(s, true).advance..])
  {
  }

  /** A line cut before EOF is the first line of the whole remaining stream. */
  lemma ScanCutStep(buf: seq<byte>, chunks: seq<seq<byte>>)
    requires |chunks| > 0 && ScanLines(buf, false).token.Some?
    requires Scan(buf[ScanLines(buf, false).advance..], chunks)
             == SplitAll(buf[ScanLines(buf, false).advance..] + Concat(chunks))
    ensures Scan(buf, chunks) == SplitAll(buf + Concat(chunks))
  {
    ScanUnfoldCut(buf, chunks);
    ScanLinesStable(buf, Concat(chunks), true);
    SplitAllUnfold(buf + Concat(chunks));
    DropAppend(buf, Concat(chunks), ScanLines(buf, false).advance);
  }

  /** Reading a chunk into the buffer does not change the remaining stream. */
  lemma ReadChunk(buf: seq<byte>, chunks: seq<seq<byte>>)
    requires |chunks| > 0
    ensures buf + chunks[0] + Concat(chunks[1..]) == buf + Concat(chunks)
  {
    assert Concat(chunks) == chunks[0] + Concat(chunks[1..]);
    AppendAssoc(buf, chunks[0], Concat(chunks[1..]));
  }

  /** However the child's output is broken into reads, the scanner yields the
      lines of the whole stream. */
  lemma {:induction false} ScanChunkingInvariant(buf: seq<byte>, chunks: seq<seq<byte>>)
    ensures Scan(buf, chunks) == SplitAll(buf + Concat(chunks))
    decreases |chunks|, |buf|
  {
    if |chunks| == 0 {
      ScanAtEOF(buf);
      assert buf + Concat(chunks) == buf;
    } else {
      var r := ScanLines(buf, false);
      if r.token.Some? {
        ScanChunkingInvariant(buf[r.advance..], chunks);
        ScanCutStep(buf, chunks);
      } else {
        ScanChunkingInvariant(buf + chunks[0], chunks[1..]);
        ScanUnfoldRead(buf, chunks);
        ReadChunk(buf, chunks);
      }
    }
  }

  /** The scanner over a stream delivered in chunks, from an empty buffer. */
  lemma ScanLinesOfStream(chunks: seq<seq<byte>>)
    ensures Scan([], chunks) == SplitAll(Concat(chunks))
  {
    ScanChunkingInvariant([], chunks);
    assert [] + Concat(chunks) == Concat(chunks);
  }
}
