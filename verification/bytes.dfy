/** Bytes of a child's output stream and the two line-break bytes. */
module Bytes {

  newtype byte = x: int | 0 <= x < 256

  /** '\r' */
  const CR: byte := 13
  /** '\n' */
  const LF: byte := 10

  predicate IsBreak(b: byte)
  {
    b == CR || b == LF
  }

  predicate NoBreak(s: seq<byte>)
  {
    forall i :: 0 <= i < |s| ==> !IsBreak(s[i])
  }

  /** The endings a line may carry: CR, LF or CR LF; the empty ending is that
      of an unterminated final line. */
  predicate IsEnding(e: seq<byte>)
  {
    && |e| <= 2
    && (|e| == 1 ==> IsBreak(e[0]))
    && (|e| == 2 ==> e[0] == CR && e[1] == LF)
  }

  /** The position of the first CR or LF in `s`, or |s| when there is none.
      This is the reference notion of "where the first line stops". */
  function FirstBreak(s: seq<byte>): (c: nat)
    ensures c <= |s|
    ensures forall j :: 0 <= j < c ==> !IsBreak(s[j])
    ensures c < |s| ==> IsBreak(s[c])
  {
    FirstBreakFrom(s, 0)
  }

  function FirstBreakFrom(s: seq<byte>, i: nat): (c: nat)
    requires i <= |s|
    requires forall j :: 0 <= j < i ==> !IsBreak(s[j])
    ensures i <= c <= |s|
    ensures forall j :: 0 <= j < c ==> !IsBreak(s[j])
    ensures c < |s| ==> IsBreak(s[c])
    decreases |s| - i
  {
    if i == |s| || IsBreak(s[i]) then i else FirstBreakFrom(s, i + 1)
  }

  /** Any position satisfying FirstBreak's contract is the one it returns. */
  lemma FirstBreakUnique(s: seq<byte>, k: nat)
    requires k <= |s|
    requires forall j :: 0 <= j < k ==> !IsBreak(s[j])
    requires k < |s| ==> IsBreak(s[k])
    ensures FirstBreak(s) == k
  {
  }

  /** Appending bytes after a break does not move the first break. */
  lemma FirstBreakAppend(s: seq<byte>, more: seq<byte>)
    requires FirstBreak(s) < |s|
    ensures FirstBreak(s + more) == FirstBreak(s)
  {
    FirstBreakUnique(s + more, FirstBreak(s));
  }
}
