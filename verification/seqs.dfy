/** Sequence vocabulary used throughout the model. */
module Seqs {

  /** No element occurs twice. */
  predicate Distinct<T(==)>(s: seq<T>)
  {
    forall i, j :: 0 <= i < j < |s| ==> s[i] != s[j]
  }

  /** In a distinct sequence, an element found among the first `n` sits at a position below `n`. */
  lemma DistinctPrefixPosition<T>(s: seq<T>, n: nat, p: nat)
    requires Distinct(s) && n <= |s| && p < |s| && s[p] in s[..n]
    ensures p < n
  {
    var q :| 0 <= q < n && s[..n][q] == s[p];
    assert s[q] == s[p];
  }

  /** Appending keeps a sequence distinct exactly when the new element is fresh. */
  lemma DistinctSnoc<T>(s: seq<T>, x: T)
    ensures Distinct(s + [x]) <==> Distinct(s) && x !in s
  {
    if Distinct(s + [x]) {
      assert forall i, j :: 0 <= i < j < |s| ==> (s + [x])[i] == s[i] && (s + [x])[j] == s[j];
      assert forall i :: 0 <= i < |s| ==> (s + [x])[i] == s[i] && (s + [x])[|s|] == x;
    }
  }

  /** Prepending keeps a sequence distinct exactly when the new element is fresh. */
  lemma DistinctCons<T>(x: T, s: seq<T>)
    ensures Distinct([x] + s) <==> Distinct(s) && x !in s
  {
    if Distinct([x] + s) {
      assert forall i, j :: 0 <= i < j < |s| ==> ([x] + s)[i + 1] == s[i] && ([x] + s)[j + 1] == s[j];
      assert forall i :: 0 <= i < |s| ==> ([x] + s)[i + 1] == s[i] && ([x] + s)[0] == x;
    }
  }

  /** Two distinct sequences with no element in common concatenate to a distinct one. */
  lemma DistinctConcat<T>(a: seq<T>, b: seq<T>)
    requires Distinct(a) && Distinct(b)
    requires forall x :: x in a ==> x !in b
    ensures Distinct(a + b)
  {
    forall i, j | 0 <= i < j < |a + b|
      ensures (a + b)[i] != (a + b)[j]
    {
      if j < |a| {
      } else if i >= |a| {
        assert (a + b)[i] == b[i - |a|] && (a + b)[j] == b[j - |a|];
      } else {
        assert (a + b)[i] in a && (a + b)[j] in b;
      }
    }
  }

  /** `r` is obtained from `s` by deleting elements, keeping the order of the rest. */
  predicate IsSubsequence<T(==)>(r: seq<T>, s: seq<T>)
    decreases |s|
  {
    if |s| == 0 then |r| == 0
    else (|r| > 0 && r[0] == s[0] && IsSubsequence(r[1..], s[1..])) || IsSubsequence(r, s[1..])
  }

  /** A subsequence never holds an element more often than the sequence it came from. */
  lemma {:induction false} SubsequenceMultiset<T>(r: seq<T>, s: seq<T>)
    requires IsSubsequence(r, s)
    ensures multiset(r) <= multiset(s)
    decreases |s|
  {
    if |s| == 0 {
    } else if |r| > 0 && r[0] == s[0] && IsSubsequence(r[1..], s[1..]) {
      SubsequenceMultiset(r[1..], s[1..]);
      assert r == [r[0]] + r[1..];
      assert s == [s[0]] + s[1..];
    } else {
      SubsequenceMultiset(r, s[1..]);
      assert s == [s[0]] + s[1..];
    }
  }

  /** The number of elements over all the lists. */
  function TotalLength<T>(ss: seq<seq<T>>): nat
  {
    if |ss| == 0 then 0 else |ss[0]| + TotalLength(ss[1..])
  }

  /** Where list `i` starts once the lists are concatenated: the length of all the earlier lists. */
  function Offset<T>(ss: seq<seq<T>>, i: nat): nat
    requires i <= |ss|
  {
    if i == 0 then 0 else |ss[0]| + Offset(ss[1..], i - 1)
  }

  /** Element `j` of list `i` sits in `r` at `Offset(ss, i) + j`. */
  ghost predicate ListedAt<T>(ss: seq<seq<T>>, r: seq<T>, i: int, j: int)
    requires 0 <= i < |ss| && 0 <= j < |ss[i]|
  {
    Offset(ss, i) + j < |r| && r[Offset(ss, i) + j] == ss[i][j]
  }

  /**
   * `r` lists the elements of the lists `ss` one list after the other: list `i`
   * occupies the positions from `Offset(ss, i)` on.
   */
  ghost predicate Concatenates<T>(ss: seq<seq<T>>, r: seq<T>)
  {
    && |r| == TotalLength(ss)
    && forall i, j :: 0 <= i < |ss| && 0 <= j < |ss[i]| ==> ListedAt(ss, r, i, j)
  }

  /** The concatenation of a sequence of lists, in order (Python's nested append loop). */
  function Flatten<T(!new)>(ss: seq<seq<T>>): (r: seq<T>)
    ensures Concatenates(ss, r)
    ensures forall x :: x in r <==> exists i :: 0 <= i < |ss| && x in ss[i]
  {
    if |ss| == 0 then []
    else
      var rest := Flatten(ss[1..]);
      ConsConcatenates(ss, rest);
      ConsMembers(ss, rest);
      ss[0] + rest
  }

  /** Putting the first list in front of a concatenation of the others concatenates them all. */
  lemma ConsConcatenates<T>(ss: seq<seq<T>>, rest: seq<T>)
    requires |ss| > 0
    requires Concatenates(ss[1..], rest)
    ensures Concatenates(ss, ss[0] + rest)
  {
    forall i, j | 0 <= i < |ss| && 0 <= j < |ss[i]|
      ensures ListedAt(ss, ss[0] + rest, i, j)
    {
      if i > 0 {
        assert ss[1..][i - 1] == ss[i];
        assert ListedAt(ss[1..], rest, i - 1, j);
      }
    }
  }

  /** The elements in front of a concatenation of the later lists are those of some list. */
  lemma ConsMembers<T>(ss: seq<seq<T>>, rest: seq<T>)
    requires |ss| > 0
    requires forall x :: x in rest <==> exists i :: 0 <= i < |ss[1..]| && x in ss[1..][i]
    ensures forall x :: x in ss[0] + rest <==> exists i :: 0 <= i < |ss| && x in ss[i]
  {
    var r := ss[0] + rest;
    forall x | x in r
      ensures exists i :: 0 <= i < |ss| && x in ss[i]
    {
      if x !in ss[0] {
        var i :| 0 <= i < |ss[1..]| && x in ss[1..][i];
        assert x in ss[i + 1];
      }
    }
    forall x | exists i :: 0 <= i < |ss| && x in ss[i]
      ensures x in r
    {
      var i :| 0 <= i < |ss| && x in ss[i];
      if i > 0 {
        assert x in ss[1..][i - 1];
      }
    }
  }

  /** Sum of a sequence of integers. */
  function Sum(s: seq<int>): int
  {
    if |s| == 0 then 0 else Sum(s[..|s| - 1]) + s[|s| - 1]
  }

  /** The sum of a prefix extended by one element. */
  lemma SumPrefix(s: seq<int>, k: nat)
    requires k < |s|
    ensures Sum(s[..k + 1]) == Sum(s[..k]) + s[k]
  {
    assert s[..k + 1][..k] == s[..k];
  }

  /** Keeps the first occurrence of every element, in order (the key order of a Python dict). */
  function Dedup<T(==,!new)>(s: seq<T>): (r: seq<T>)
    ensures Distinct(r)
    ensures forall x :: x in r <==> x in s
  {
    if |s| == 0 then []
    else
      var d := Dedup(s[..|s| - 1]);
      var last := s[|s| - 1];
      assert forall x :: x in s <==> x in s[..|s| - 1] || x == last;
      if last in d then d else d + [last]
  }
}
