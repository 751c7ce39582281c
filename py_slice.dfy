/**
  Python's slice `s[start:stop]` on sequences: a negative bound counts from
  the end, and every bound is then clamped into [0, len(s)], so a slice never
  fails, it only comes out shorter (or empty). `s[start:]` is the slice that
  stops at len(s).
 */
module PySlice {

  function Min(a: int, b: int): int { if a <= b then a else b }

  function Max(a: int, b: int): int { if a <= b then b else a }

  /** The position a slice bound `i` denotes in a sequence of length `n`. */
  function Bound(i: int, n: nat): (k: nat)
    ensures k <= n
  {
    if i < 0 then Max(0, n + i) else Min(i, n)
  }

  /** `s[start:stop]` */
  function Slice<T>(s: seq<T>, start: int, stop: int): (r: seq<T>)
    ensures |r| <= |s|
  {
    var lo, hi := Bound(start, |s|), Bound(stop, |s|);
    if lo < hi then s[lo..hi] else []
  }

  /** `s[start:]` */
  function SliceFrom<T>(s: seq<T>, start: int): (r: seq<T>)
    ensures |r| <= |s|
  {
    Slice(s, start, |s|)
  }

  /** `s[0:k]` is the first min(k, len(s)) elements. */
  lemma PrefixSlice<T>(s: seq<T>, k: nat)
    ensures Slice(s, 0, k) == s[..Min(k, |s|)]
  {
  }

  /** `s[0:-k]` drops the last k elements, and is empty when there are no more than k. */
  lemma DropLastSlice<T>(s: seq<T>, k: int)
    requires 0 < k
    ensures Slice(s, 0, -k) == s[..Max(0, |s| - k)]
  {
  }

  /** `s[-k:]` is the last min(k, len(s)) elements. */
  lemma LastSlice<T>(s: seq<T>, k: int)
    requires 0 < k
    ensures SliceFrom(s, -k) == s[|s| - Min(k, |s|)..]
  {
  }

  /** `s[0:-k] + s[-k:]` puts the sequence back together, whatever its length. */
  lemma SplitAtEnd<T>(s: seq<T>, k: int)
    requires 0 < k
    ensures Slice(s, 0, -k) + SliceFrom(s, -k) == s
  {
    DropLastSlice(s, k);
    LastSlice(s, k);
    assert s[..|s| - Min(k, |s|)] + s[|s| - Min(k, |s|)..] == s;
  }
}
