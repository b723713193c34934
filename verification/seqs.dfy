/** Sequence helpers shared by the tokenizer and the key/value parser: the byte type,
    substring search (Go's `bytes.Index`), element counting and joining (Go's `Join`). */
module Seqs {

  /** Go's `byte`. */
  newtype byte = b: int | 0 <= b < 256

  /** True when `pat` occurs in `s` starting at offset `i`. */
  predicate OccursAt<T(==)>(s: seq<T>, pat: seq<T>, i: int) {
    0 <= i && i + |pat| <= |s| && s[i..i + |pat|] == pat
  }

  predicate Contains<T(==)>(s: seq<T>, pat: seq<T>) {
    exists i :: 0 <= i <= |s| && OccursAt(s, pat, i)
  }

  /** `i` is the leftmost offset at which `pat` occurs in `s`. */
  predicate FirstOccurrence<T(==)>(s: seq<T>, pat: seq<T>, i: int) {
    OccursAt(s, pat, i) && forall j :: 0 <= j < i ==> !OccursAt(s, pat, j)
  }

  /** Go's `bytes.Index`: the leftmost offset of `pat` in `s`, or -1 when there is none.
      An empty pattern occurs at offset 0. */
  function Index<T(==)>(s: seq<T>, pat: seq<T>): (r: int)
    ensures r == -1 <==> !Contains(s, pat)
    ensures r != -1 ==> FirstOccurrence(s, pat, r)
  {
    IndexFrom(s, pat, 0)
  }

  /** Search from offset `k`, knowing that `pat` does not occur before `k`. */
  function IndexFrom<T(==)>(s: seq<T>, pat: seq<T>, k: nat): (r: int)
    requires forall j :: 0 <= j < k ==> !OccursAt(s, pat, j)
    ensures r == -1 <==> !Contains(s, pat)
    ensures r != -1 ==> k <= r && FirstOccurrence(s, pat, r)
    decreases |s| - k
  {
    if k + |pat| > |s| then -1
    else if s[k..k + |pat|] == pat then assert OccursAt(s, pat, k); k
    else IndexFrom(s, pat, k + 1)
  }

  /** Two leftmost occurrences are the same occurrence. */
  lemma FirstOccurrenceUnique<T>(s: seq<T>, pat: seq<T>, i: int, j: int)
    requires FirstOccurrence(s, pat, i) && FirstOccurrence(s, pat, j)
    ensures i == j
  {
  }

  /** Number of elements of `s` equal to `x`. */
  function Count<T(==)>(s: seq<T>, x: T): (n: nat)
    ensures n <= |s|
    ensures n == 0 <==> x !in s
  {
    if |s| == 0 then 0 else (if s[0] == x then 1 else 0) + Count(s[1..], x)
  }

  /** Go's `Join`: the parts with `sep` between consecutive ones. */
  function JoinWith<T>(parts: seq<seq<T>>, sep: seq<T>): seq<T>
  {
    if |parts| == 0 then []
    else if |parts| == 1 then parts[0]
    else parts[0] + sep + JoinWith(parts[1..], sep)
  }

  /** Joining one more part in front of a non-empty list of parts. */
  lemma JoinCons<T>(t: seq<T>, tail: seq<seq<T>>, sep: seq<T>)
    requires |tail| > 0
    ensures JoinWith([t] + tail, sep) == t + sep + JoinWith(tail, sep)
  {
    assert ([t] + tail)[1..] == tail;
  }

  /** Growing the first part grows the join at its front. */
  lemma JoinExtendFirst<T>(x: T, parts: seq<seq<T>>, sep: seq<T>)
    requires |parts| > 0
    ensures JoinWith([[x] + parts[0]] + parts[1..], sep) == [x] + JoinWith(parts, sep)
  {
    if |parts| == 1 {
      assert [[x] + parts[0]] + parts[1..] == [[x] + parts[0]];
    } else {
      assert parts == [parts[0]] + parts[1..];
      JoinCons(parts[0], parts[1..], sep);
      JoinCons([x] + parts[0], parts[1..], sep);
    }
  }

  /** The concatenation of all parts. */
  function Flatten<T>(parts: seq<seq<T>>): seq<T>
  {
    if |parts| == 0 then [] else parts[0] + Flatten(parts[1..])
  }

  /** Dropping from the front of `a + b` no more than `a` holds. */
  lemma DropFromAppend<T>(a: seq<T>, b: seq<T>, k: nat)
    requires k <= |a|
    ensures (a + b)[k..] == a[k..] + b
  {
  }
}
