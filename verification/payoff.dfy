/**
 * An agent's self-interested score for a destination (objective.py
 * getTransitionProbability, estimateEVs, payoff): its charge times the
 * forecast demand that the estimated inflow of EVs leaves unmet, discounted
 * by the congestion of the move.
 */
module Payoff {
  import opened Fleet
  import opened Sampling

  /** Every underlying draw of `random.random()` lies in [0, 1). */
  ghost predicate UnitDraws(u: nat -> real)
  {
    forall i :: 0.0 <= u(i) < 1.0
  }

  /**
   * The fraction of an adjacent block's EVs expected to move in: drawn from
   * [0.5, 1) when that block holds more than half of all EVs, from [0, 0.5)
   * otherwise.
   */
  function TransitionProbability(evsInBlock: nat, totalEvs: nat, u: real): (p: real)
    ensures 0.0 <= u < 1.0 && 2 * evsInBlock > totalEvs ==> 0.5 <= p < 1.0
    ensures 0.0 <= u < 1.0 && 2 * evsInBlock <= totalEvs ==> 0.0 <= p < 0.5
  {
    if evsInBlock as real > 0.5 * totalEvs as real then Uniform(0.5, 1.0, u) else Uniform(0.0, 0.5, u)
  }

  /** The EVs currently in the blocks of `adj`, counted once per listing. */
  function AdjacentEVs(adj: seq<Block>, agents: seq<Agent>): nat
  {
    if |adj| == 0 then 0 else AgentsIn(agents, adj[0]) + AdjacentEVs(adj[1..], agents)
  }

  /** `int(evsInAdj * prob)`: the EVs expected from one adjacent block. */
  function Contribution(evs: nat, total: nat, u: real): (c: int)
    ensures 0.0 <= u < 1.0 ==> 0 <= c <= evs
  {
    var p := TransitionProbability(evs, total, u);
    if 0.0 <= u < 1.0 then
      TruncFraction(evs, p);
      Trunc(evs as real * p)
    else
      Trunc(evs as real * p)
  }

  /** Truncating a fraction in [0, 1] of `n` gives a whole number between 0 and `n`. */
  lemma TruncFraction(n: nat, p: real)
    requires 0.0 <= p <= 1.0
    ensures 0 <= Trunc(n as real * p) <= n
  {
    var x := n as real * p;
    ProductNonNegative(n as real, p);
    ProductNonNegative(n as real, 1.0 - p);
    assert n as real * (1.0 - p) == n as real - x;
    var c := Trunc(x);
    assert c as real <= n as real;
  }

  /**
   * The inflow accumulated over the adjacent blocks `adj[k..]`, the i-th of
   * them sampled with draw `u(i)`: at least nothing and at most every EV there.
   */
  function Incoming(adj: seq<Block>, agents: seq<Agent>, u: nat -> real, k: nat): (r: int)
    requires k <= |adj|
    ensures UnitDraws(u) ==> 0 <= r <= AdjacentEVs(adj[k..], agents)
    decreases |adj| - k
  {
    if k == |adj| then 0
    else
      var evs := AgentsIn(agents, adj[k]);
      assert adj[k..][1..] == adj[k + 1..];
      Contribution(evs, |agents|, u(k)) + Incoming(adj, agents, u, k + 1)
  }

  /**
   * estimateEVs(block, agents): the EVs already in `target` plus the sampled
   * inflow from the blocks listed as `target`'s own neighbours. It lies
   * between the EVs present and the EVs present plus all EVs next door.
   */
  function EstimateEVs(target: Block, agents: seq<Agent>, nbrs: Neighbors, u: nat -> real): (r: int)
    ensures UnitDraws(u) ==>
      AgentsIn(agents, target) <= r <= AgentsIn(agents, target) + AdjacentEVs(NeighborsOf(nbrs, target), agents)
  {
    var adj := NeighborsOf(nbrs, target);
    assert adj[0..] == adj;
    AgentsIn(agents, target) + Incoming(adj, agents, u, 0)
  }

  /**
   * `soc * max(forecast - estimated, 0) / (tau + 1)`: never negative for a
   * non-negative charge, and zero once the estimate covers the forecast.
   */
  function PayoffValue(soc: real, forecast: nat, estimated: int, tau: nat): (p: real)
    ensures 0.0 <= soc ==> 0.0 <= p
    ensures estimated >= forecast ==> p == 0.0
  {
    var unmet := forecast - estimated;
    var demand := if unmet > 0 then unmet else 0;
    assert 0.0 <= soc ==> 0.0 <= soc * demand as real;
    soc * demand as real / (tau + 1) as real
  }

  /** More congestion on the move never raises the payoff. */
  lemma PayoffFallsWithCongestion(soc: real, forecast: nat, estimated: int, tau1: nat, tau2: nat)
    requires 0.0 <= soc && tau1 <= tau2
    ensures PayoffValue(soc, forecast, estimated, tau2) <= PayoffValue(soc, forecast, estimated, tau1)
  {
    var unmet := forecast - estimated;
    var m := (if unmet > 0 then unmet else 0) as real;
    ProductNonNegative(soc, m);
    LargerDivisor(soc * m, (tau1 + 1) as real, (tau2 + 1) as real);
  }

  /** A fuller battery never lowers the payoff. */
  lemma PayoffRisesWithCharge(soc1: real, soc2: real, forecast: nat, estimated: int, tau: nat)
    requires soc1 <= soc2
    ensures PayoffValue(soc1, forecast, estimated, tau) <= PayoffValue(soc2, forecast, estimated, tau)
  {
    var unmet := forecast - estimated;
    var m := (if unmet > 0 then unmet else 0) as real;
    ProductNonNegative(soc2 - soc1, m);
    assert (soc2 - soc1) * m == soc2 * m - soc1 * m;
    SameDivisor(soc1 * m, soc2 * m, (tau + 1) as real);
  }

  /** The product of two non-negative reals is non-negative. */
  lemma ProductNonNegative(x: real, y: real)
    requires 0.0 <= x && 0.0 <= y
    ensures 0.0 <= x * y
  {
  }

  /** Dividing a non-negative amount by a larger divisor gives no more. */
  lemma LargerDivisor(x: real, d1: real, d2: real)
    requires 0.0 <= x && 0.0 < d1 <= d2
    ensures x / d2 <= x / d1
  {
    var q1, q2 := x / d1, x / d2;
    assert q1 * d1 == x && q2 * d2 == x;
    assert 0.0 <= q1;
    ProductNonNegative(q1, d2 - d1);
    assert q1 * (d2 - d1) == q1 * d2 - q1 * d1;
    if q1 < q2 {
      ProductNonNegative(q2 - q1, d2);
      assert false;
    }
  }

  /** Dividing by the same positive divisor keeps the order. */
  lemma SameDivisor(a: real, b: real, d: real)
    requires a <= b && 0.0 < d
    ensures a / d <= b / d
  {
    var qa, qb := a / d, b / d;
    assert qa * d == a && qb * d == b;
    if qb < qa {
      ProductNonNegative(qa - qb, d);
      assert false;
    }
  }

  /**
   * payoff(agent, action, agents, congestion) with the Gaussian draw of the
   * request forecast and the uniform draws of the inflow estimate given.
   */
  function Payoff(agent: Agent, action: Block, agents: seq<Agent>, cong: Congestion, nbrs: Neighbors,
                  scaleRequest: int, gauss: real, u: nat -> real): (p: real)
    ensures 0.0 <= agent.soc ==> 0.0 <= p
    ensures EstimateEVs(action, agents, nbrs, u) >= SampledCount(gauss, scaleRequest) ==> p == 0.0
  {
    var forecast := SampledCount(gauss, scaleRequest);
    var estimated := EstimateEVs(action, agents, nbrs, u);
    var tau := CongestionOf(cong, agent.block, action);
    PayoffValue(agent.soc, forecast, estimated, tau)
  }
}
