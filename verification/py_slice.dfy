/** The parts of Python's sequence semantics the read tagger relies on:
    slicing with optional, possibly negative or out-of-range bounds, and
    the truthiness of optional strings. */
module PySlice {
  import opened Optional

  /** Normalises one slice bound against a sequence of length `n`:
      a negative bound counts from the end, then the bound is clamped into `[0, n]`. */
  function Bound(k: int, n: nat): (b: nat)
    ensures b <= n
    ensures 0 <= k <= n ==> b == k
  {
    if k < 0 then (if k + n < 0 then 0 else k + n)
    else if k > n then n
    else k
  }

  /** `s[lo:hi]`, where a missing bound is Python's `None`. */
  function Slice<T>(s: seq<T>, lo: Option<int>, hi: Option<int>): (r: seq<T>)
    ensures |r| <= |s|
  {
    var i := if lo.None? then 0 else Bound(lo.value, |s|);
    var j := if hi.None? then |s| else Bound(hi.value, |s|);
    if i <= j then s[i..j] else []
  }

  /** Within range, a Python slice is the Dafny subsequence. */
  lemma SliceInRange<T>(s: seq<T>, lo: int, hi: int)
    requires 0 <= lo <= hi <= |s|
    ensures Slice(s, Some(lo), Some(hi)) == s[lo..hi]
    ensures Slice(s, None, Some(lo)) == s[..lo]
  {
  }

  /** `s[lo:hi] + s[hi:] == s[lo:]` for in-range `lo <= hi`, whatever `hi`'s excess over `|s|`. */
  lemma SliceSplit<T>(s: seq<T>, lo: int, hi: int)
    requires 0 <= lo <= hi
    requires lo <= |s|
    ensures Slice(s, Some(lo), Some(hi)) + Slice(s, Some(hi), None) == s[lo..]
    ensures |Slice(s, Some(lo), Some(hi))| <= hi - lo
    ensures hi <= |s| ==> |Slice(s, Some(lo), Some(hi))| == hi - lo
  {
    if hi <= |s| {
      assert s[lo..hi] + s[hi..] == s[lo..];
    }
  }

  /** Python truthiness of an optional string: present and non-empty. */
  predicate Truthy(s: Option<string>)
  {
    s.Some? && s.value != ""
  }

  /** `s or ""`: the string, or the empty string in its absence. */
  function OrEmpty(s: Option<string>): string
  {
    s.ValueOr("")
  }
}
