/** Generic sequence helpers shared by the segmenter and the parsers. */
module Seqs {

  /** The position of the first occurrence of `x` in `s`, or -1 when there is
      none; this is Go's bytes.IndexByte and, on ASCII text, strings.IndexRune. */
  function IndexOf<T(==)>(s: seq<T>, x: T): (k: int)
    ensures -1 <= k < |s|
    ensures k == -1 <==> x !in s
    ensures 0 <= k ==> s[k] == x && x !in s[..k]
  {
    IndexFrom(s, x, 0)
  }

  function IndexFrom<T(==)>(s: seq<T>, x: T, i: nat): (k: int)
    requires i <= |s| && x !in s[..i]
    ensures -1 <= k < |s|
    ensures k == -1 <==> x !in s
    ensures 0 <= k ==> s[k] == x && x !in s[..k]
    decreases |s| - i
  {
    if i == |s| then
      assert s[..i] == s;
      -1
    else if s[i] == x then i
    else
      assert s[..i + 1] == s[..i] + [s[i]];
      IndexFrom(s, x, i + 1)
  }

  /** The concatenation of a sequence of sequences, in order. */
  function Concat<T>(ss: seq<seq<T>>): seq<T>
  {
    if |ss| == 0 then [] else ss[0] + Concat(ss[1..])
  }

  lemma ConcatCons<T>(x: seq<T>, ys: seq<seq<T>>)
    ensures Concat([x] + ys) == x + Concat(ys)
  {
    assert ([x] + ys)[1..] == ys;
  }

  lemma {:induction false} ConcatAppend<T>(a: seq<seq<T>>, b: seq<seq<T>>)
    ensures Concat(a + b) == Concat(a) + Concat(b)
  {
    if |a| == 0 {
      assert a + b == b;
    } else {
      assert (a + b)[1..] == a[1..] + b;
      ConcatAppend(a[1..], b);
    }
  }

  lemma TakeDrop<T>(s: seq<T>, k: nat)
    requires k <= |s|
    ensures s[..k] + s[k..] == s
  {
  }

  lemma AppendAssoc<T>(a: seq<T>, b: seq<T>, c: seq<T>)
    ensures a + b + c == a + (b + c)
  {
  }

  lemma DropAppend<T>(a: seq<T>, b: seq<T>, k: nat)
    requires k <= |a|
    ensures (a + b)[k..] == a[k..] + b
  {
  }

  /** Reading a known prefix `p` off `s` from position `i`. */
  lemma DropPrefix<T>(s: seq<T>, i: nat, p: seq<T>, rest: seq<T>)
    requires i <= |s| && s[i..] == p + rest
    ensures i + |p| <= |s| && s[i + |p|..] == rest
    ensures forall k :: 0 <= k < |p| ==> s[i + k] == p[k]
  {
    assert forall k :: 0 <= k < |p| ==> s[i + k] == s[i..][k];
    assert s[i + |p|..] == s[i..][|p|..];
  }

  /** The pieces of `[p] + a + [x] + rest` after dropping the head, and
      after dropping `a` as well. */
  lemma DropHead<T>(p: T, a: seq<T>, x: T, rest: seq<T>)
    ensures ([p] + a + [x] + rest)[1..] == a + ([x] + rest)
    ensures ([p] + a + [x] + rest)[|a| + 1..] == [x] + rest
  {
    var s := [p] + a + [x] + rest;
    assert s == [p] + (a + ([x] + rest));
  }

  /** Dropping the head of `[p] + a + b + c` leaves `a + (b + c)`. */
  lemma DropFirst<T>(p: T, a: seq<T>, b: seq<T>, c: seq<T>)
    ensures ([p] + a + b + c)[1..] == a + (b + c)
  {
    assert [p] + a + b + c == [p] + (a + (b + c));
  }

  /** `s` has no element twice. */
  predicate Distinct<T(==)>(s: seq<T>)
  {
    forall i, j :: 0 <= i < j < |s| ==> s[i] != s[j]
  }
}
