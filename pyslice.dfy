/**
 * Python's slice `s[i:j]` on a list, with its treatment of out-of-range and
 * negative bounds: a negative bound counts from the end of the list, and
 * every bound is then clipped to `0..len(s)`. A slice whose clipped start is
 * not before its clipped end is empty, never an error.
 */
module PySlice {

  /** Where the bound `i` of a slice lands in a list of length `n`. */
  function Bound(i: int, n: nat): (b: nat)
    ensures b <= n
  {
    if i < 0 then
      if i + n < 0 then 0 else i + n
    else if i < n then i else n
  }

  /** `s[i:j]` as Python evaluates it. */
  function Slice<T>(s: seq<T>, i: int, j: int): (r: seq<T>)
    ensures |r| <= |s|
  {
    var lo, hi := Bound(i, |s|), Bound(j, |s|);
    if lo < hi then s[lo..hi] else []
  }

  /** With a start that is not negative and an end that is not before it,
      the slice holds the elements at positions `i`, `i+1`, ... up to `j`
      or to the end of `s`, whichever comes first. */
  lemma SliceWindow<T>(s: seq<T>, i: int, j: int)
    requires 0 <= i <= j
    ensures |Slice(s, i, j)| == if |s| <= i then 0 else if j <= |s| then j - i else |s| - i
    ensures forall k :: 0 <= k < |Slice(s, i, j)| ==> Slice(s, i, j)[k] == s[i + k]
  {
  }

  /** Adjacent slices with non-negative bounds join into one slice. */
  lemma SliceSplit<T>(s: seq<T>, i: int, j: int, k: int)
    requires 0 <= i <= j <= k
    ensures Slice(s, i, j) + Slice(s, j, k) == Slice(s, i, k)
  {
    var a, b, c := Bound(i, |s|), Bound(j, |s|), Bound(k, |s|);
    if a < b && b < c {
      assert s[a..b] + s[b..c] == s[a..c];
    }
  }
}
