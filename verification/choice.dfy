/**
 * Python's `max(xs, key=...)`, `min(xs)` and `xs.index(v)`: each scans left
 * to right and settles ties in favour of the earliest element.
 */
module Choice {

  /** Position `i` holds a maximal score and no earlier position does. */
  ghost predicate IsFirstMax(s: seq<real>, i: int)
  {
    0 <= i < |s|
    && (forall k :: 0 <= k < |s| ==> s[k] <= s[i])
    && (forall k :: 0 <= k < i ==> s[k] < s[i])
  }

  /** The position `max` settles on: the first one with the largest score. */
  function FirstMax(s: seq<real>): (i: nat)
    requires |s| > 0
    ensures IsFirstMax(s, i)
  {
    FirstMaxFrom(s, 1, 0)
  }

  /** The scan of `max`: `best` is the first maximum of `s[..k]`, replaced only by a strictly larger score. */
  function FirstMaxFrom(s: seq<real>, k: nat, best: nat): (i: nat)
    requires best < k <= |s|
    requires forall j :: 0 <= j < k ==> s[j] <= s[best]
    requires forall j :: 0 <= j < best ==> s[j] < s[best]
    ensures IsFirstMax(s, i)
    decreases |s| - k
  {
    if k == |s| then best
    else FirstMaxFrom(s, k + 1, if s[k] > s[best] then k else best)
  }

  /** Only one position is the first maximum. */
  lemma FirstMaxUnique(s: seq<real>, i: int, j: int)
    requires IsFirstMax(s, i) && IsFirstMax(s, j)
    ensures i == j
  {
    var si, sj := s[i], s[j];
    assert si <= sj && sj <= si;
  }

  /** `min(s)`. */
  function Min(s: seq<int>): (m: int)
    requires |s| > 0
    ensures m in s
    ensures forall k :: 0 <= k < |s| ==> m <= s[k]
  {
    if |s| == 1 then s[0]
    else
      var rest := Min(s[1..]);
      assert forall k :: 1 <= k < |s| ==> s[1..][k - 1] == s[k];
      if s[0] <= rest then s[0] else rest
  }

  /** `s.index(v)`: the first position holding `v`. */
  function IndexOf(s: seq<int>, v: int): (i: nat)
    requires v in s
    ensures i < |s| && s[i] == v
    ensures forall k :: 0 <= k < i ==> s[k] != v
  {
    if s[0] == v then 0
    else
      assert forall k :: 1 <= k < |s| ==> s[1..][k - 1] == s[k];
      1 + IndexOf(s[1..], v)
  }
}
