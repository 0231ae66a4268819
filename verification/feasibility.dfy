/**
 * Candidate and feasible destinations of one agent (objective.py
 * getActions / getFeasibleActions): an agent may stay, or move to an
 * adjacent block whose congestion from its own block is below a threshold.
 */
module Feasibility {
  import opened Seqs
  import opened Fleet

  /** The default congestion threshold of both strategy modules. */
  const DefaultThreshold: nat := 2

  /** The agent's own block followed by `neighbors.get(block, [])`. */
  function Actions(current: Block, nbrs: Neighbors): (r: seq<Block>)
    ensures |r| == 1 + |NeighborsOf(nbrs, current)|
    ensures r[0] == current && r[1..] == NeighborsOf(nbrs, current)
    ensures current !in nbrs ==> r == [current]
  {
    [current] + NeighborsOf(nbrs, current)
  }

  /** The filter's test: staying, or a move whose congestion (0 when unknown) is below the threshold. */
  predicate Passes(current: Block, a: Block, cong: Congestion, threshold: int)
  {
    a == current || CongestionOf(cong, current, a) < threshold
  }

  /**
   * The actions that pass, in their original order. Every passing action is
   * kept as often as it occurs and every failing one is dropped, so staying
   * put survives whenever it was a candidate.
   */
  function FeasibleActions(current: Block, actions: seq<Block>, cong: Congestion, threshold: int): (r: seq<Block>)
    ensures IsSubsequence(r, actions)
    ensures forall a :: multiset(r)[a] == if Passes(current, a, cong, threshold) then multiset(actions)[a] else 0
    ensures forall a :: a in r <==> a in actions && Passes(current, a, cong, threshold)
    ensures current in actions ==> current in r
  {
    if |actions| == 0 then []
    else
      var a := actions[0];
      var rest := FeasibleActions(current, actions[1..], cong, threshold);
      assert actions == [a] + actions[1..];
      if a == current || CongestionOf(cong, current, a) < threshold then
        assert ([a] + rest)[1..] == rest;
        [a] + rest
      else
        rest
  }

  /** Staying put is always feasible, so an agent's feasible list starts with its own block. */
  lemma StayIsFeasible(current: Block, nbrs: Neighbors, cong: Congestion, threshold: int)
    ensures var r := FeasibleActions(current, Actions(current, nbrs), cong, threshold);
      |r| > 0 && r[0] == current
  {
    var acts := Actions(current, nbrs);
    assert acts == [current] + acts[1..];
  }

  /**
   * The filter is the only order-preserving sub-list that keeps exactly the
   * passing actions: any such list equals FeasibleActions.
   */
  lemma {:induction false} FeasibleActionsUnique(current: Block, actions: seq<Block>, cong: Congestion, threshold: int, r: seq<Block>)
    requires IsSubsequence(r, actions)
    requires forall a :: multiset(r)[a] == if Passes(current, a, cong, threshold) then multiset(actions)[a] else 0
    ensures r == FeasibleActions(current, actions, cong, threshold)
    decreases |actions|
  {
    if |actions| == 0 {
    } else {
      var a := actions[0];
      var tail := actions[1..];
      assert actions == [a] + tail;
      if |r| > 0 && r[0] == a && IsSubsequence(r[1..], tail) {
        assert r == [a] + r[1..];
        if Passes(current, a, cong, threshold) {
          FeasibleActionsUnique(current, tail, cong, threshold, r[1..]);
        } else {
          assert false;
        }
      } else {
        assert IsSubsequence(r, tail);
        SubsequenceMultiset(r, tail);
        if Passes(current, a, cong, threshold) {
          assert false;
        } else {
          assert forall b :: multiset(r)[b] == if Passes(current, b, cong, threshold) then multiset(tail)[b] else 0;
          FeasibleActionsUnique(current, tail, cong, threshold, r);
        }
      }
    }
  }
}
