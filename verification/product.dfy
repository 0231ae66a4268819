/**
 * `itertools.product(*lists)`: every way of choosing one element from each
 * list, in lexicographic order, the first list varying slowest.
 */
module Product {
  import opened Seqs

  /** The number of combinations: the product of the list lengths. */
  function Size<T>(ls: seq<seq<T>>): nat
  {
    if |ls| == 0 then 1 else |ls[0]| * Size(ls[1..])
  }

  /** There is at least one combination when no list is empty. */
  lemma {:induction false} SizePositive<T>(ls: seq<seq<T>>)
    requires forall i :: 0 <= i < |ls| ==> |ls[i]| > 0
    ensures Size(ls) > 0
    decreases |ls|
  {
    if |ls| > 0 {
      assert forall i :: 0 <= i < |ls| - 1 ==> ls[1..][i] == ls[i + 1];
      SizePositive(ls[1..]);
      MulFar(Size(ls[1..]), |ls[0]|);
    }
  }

  /** `p` picks one element from each list, in order. */
  ghost predicate Picks<T>(p: seq<T>, ls: seq<seq<T>>)
  {
    |p| == |ls| && forall i :: 0 <= i < |ls| ==> p[i] in ls[i]
  }

  /** Every tail of `ps`, headed by each element of `xs` in turn. */
  function Prepend<T(!new)>(xs: seq<T>, ps: seq<seq<T>>): (r: seq<seq<T>>)
    ensures |r| == |xs| * |ps|
    ensures forall q :: q in r <==> exists x, p :: x in xs && p in ps && q == [x] + p
  {
    if |xs| == 0 then []
    else
      var block := seq(|ps|, i requires 0 <= i < |ps| => [xs[0]] + ps[i]);
      var rest := Prepend(xs[1..], ps);
      assert forall x :: x in xs <==> x == xs[0] || x in xs[1..];
      assert forall q :: q in block <==> exists p :: p in ps && q == [xs[0]] + p by {
        forall q | q in block
          ensures exists p :: p in ps && q == [xs[0]] + p
        {
          var i :| 0 <= i < |ps| && block[i] == q;
          assert ps[i] in ps;
        }
        forall q | exists p :: p in ps && q == [xs[0]] + p
          ensures q in block
        {
          var p :| p in ps && q == [xs[0]] + p;
          var i :| 0 <= i < |ps| && ps[i] == p;
          assert block[i] == q;
        }
      }
      block + rest
  }

  /** The combinations: each has one element per list, taken from that list, and there are Size(ls) of them. */
  function Product<T(!new)>(ls: seq<seq<T>>): (r: seq<seq<T>>)
    ensures |r| == Size(ls)
    ensures forall p :: p in r ==> Picks(p, ls)
  {
    if |ls| == 0 then [[]]
    else
      var tails := Product(ls[1..]);
      var r := Prepend(ls[0], tails);
      assert forall p :: p in r ==> Picks(p, ls) by {
        forall p | p in r
          ensures Picks(p, ls)
        {
          var x, t :| x in ls[0] && t in tails && p == [x] + t;
          assert forall i :: 1 <= i < |ls| ==> p[i] == t[i - 1] && ls[i] == ls[1..][i - 1];
        }
      }
      r
  }

  /** Nothing is missing: every way of picking one element per list is a combination. */
  lemma {:induction false} ProductComplete<T(!new)>(ls: seq<seq<T>>, p: seq<T>)
    requires Picks(p, ls)
    ensures p in Product(ls)
    decreases |ls|
  {
    if |ls| > 0 {
      var t := p[1..];
      assert Picks(t, ls[1..]) by {
        assert forall i :: 0 <= i < |t| ==> t[i] == p[i + 1] && ls[1..][i] == ls[i + 1];
      }
      ProductComplete(ls[1..], t);
      assert p == [p[0]] + t;
    }
  }

  /** The combinations in order: entry `k` heads with element `k / |ps|` of `xs`, followed by tail `k % |ps|`. */
  lemma {:induction false} PrependAt<T(!new)>(xs: seq<T>, ps: seq<seq<T>>, k: nat)
    requires |ps| > 0 && k < |xs| * |ps|
    ensures k / |ps| < |xs|
    ensures Prepend(xs, ps)[k] == [xs[k / |ps|]] + ps[k % |ps|]
    decreases |xs|
  {
    var n := |ps|;
    var block := seq(n, i requires 0 <= i < n => [xs[0]] + ps[i]);
    var rest := Prepend(xs[1..], ps);
    assert Prepend(xs, ps) == block + rest;
    MulSucc(|xs| - 1, n);
    if k < n {
      DivModUnique(k, n, 0, k);
    } else {
      PrependAt(xs[1..], ps, k - n);
      DivModShift(k, n);
      assert Prepend(xs, ps)[k] == rest[k - n];
    }
  }

  /** `(m + 1) * n == m * n + n`. */
  lemma MulSucc(m: int, n: int)
    ensures (m + 1) * n == m * n + n
  {
  }

  /** Removing one divisor's worth lowers the quotient by one and keeps the remainder. */
  lemma DivModShift(k: int, n: int)
    requires 0 < n <= k
    ensures (k - n) / n == k / n - 1 && (k - n) % n == k % n
  {
    var q, r := (k - n) / n, (k - n) % n;
    assert k - n == q * n + r;
    MulSucc(q, n);
    DivModUnique(k, n, q + 1, r);
  }

  /** The quotient and remainder are the only such pair. */
  lemma DivModUnique(k: int, n: int, q: int, r: int)
    requires 0 < n && 0 <= r < n && k == q * n + r
    ensures k / n == q && k % n == r
  {
    var q', r' := k / n, k % n;
    assert k == q' * n + r';
    var d := q - q';
    assert d * n == q * n - q' * n;
    assert d * n == r' - r;
    MulFar(d, n);
  }

  /** A non-zero multiple of `n` is at least `n` away from zero. */
  lemma MulFar(d: int, n: int)
    requires 0 < n
    ensures d >= 1 ==> d * n >= n
    ensures d <= -1 ==> d * n <= -n
  {
  }

  /**
   * Lexicographic order: entry `k` of the enumeration takes element
   * `k / Size(rest)` of the first list, followed by entry `k % Size(rest)` of
   * the enumeration of the remaining lists.
   */
  lemma ProductOrder<T(!new)>(ls: seq<seq<T>>, k: nat)
    requires |ls| > 0 && Size(ls[1..]) > 0 && k < Size(ls)
    ensures k / Size(ls[1..]) < |ls[0]|
    ensures Product(ls)[k] == [ls[0][k / Size(ls[1..])]] + Product(ls[1..])[k % Size(ls[1..])]
  {
    PrependAt(ls[0], Product(ls[1..]), k);
  }

  /** Each combination appears once when no list repeats an element. */
  lemma {:induction false} ProductDistinct<T(!new)>(ls: seq<seq<T>>)
    requires forall i :: 0 <= i < |ls| ==> Distinct(ls[i])
    ensures Distinct(Product(ls))
    decreases |ls|
  {
    if |ls| > 0 {
      assert forall i :: 0 <= i < |ls| - 1 ==> ls[1..][i] == ls[i + 1];
      ProductDistinct(ls[1..]);
      PrependDistinct(ls[0], Product(ls[1..]));
    }
  }

  lemma {:induction false} PrependDistinct<T(!new)>(xs: seq<T>, ps: seq<seq<T>>)
    requires Distinct(xs) && Distinct(ps)
    ensures Distinct(Prepend(xs, ps))
    decreases |xs|
  {
    if |xs| > 0 {
      var block := seq(|ps|, i requires 0 <= i < |ps| => [xs[0]] + ps[i]);
      var rest := Prepend(xs[1..], ps);
      assert Distinct(block) by {
        forall i, j | 0 <= i < j < |ps|
          ensures block[i] != block[j]
        {
          assert block[i][1..] == ps[i] && block[j][1..] == ps[j];
        }
      }
      assert Distinct(xs[1..]);
      PrependDistinct(xs[1..], ps);
      forall q | q in block
        ensures q !in rest
      {
        assert q[0] == xs[0];
        assert xs[0] !in xs[1..];
      }
      DistinctConcat(block, rest);
    }
  }
}
