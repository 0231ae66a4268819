/**
 * The global objective of objective.py (objectiveFunction): count the agents
 * arriving in each block and report the worst unmet demand, the largest
 * `max(requests[b] - arrivals[b], 0)` over blocks 1..noOfBlocks. Lower is better.
 */
module Objective {
  import opened Wrappers
  import opened Dict
  import opened Fleet

  /** Why objectiveFunction raises. */
  datatype Error =
    | UnknownBlock(block: Block)  // KeyError: a destination outside Block 1..noOfBlocks
    | EmptySequence               // ValueError: max() or min() of an empty sequence

  /** The number of chosen destinations equal to `b` (the `newEvCount[action] += 1` loop). */
  function Arrivals(dests: seq<Block>, b: Block): (c: nat)
    ensures c == multiset(dests)[b]
  {
    if |dests| == 0 then 0
    else
      var init := dests[..|dests| - 1];
      assert dests == init + [dests[|dests| - 1]];
      Arrivals(init, b) + (if dests[|dests| - 1] == b then 1 else 0)
  }

  /** Unmet demand left in block `b`; a block without a request entry has none. */
  function Residual(req: Requests, dests: seq<Block>, b: Block): nat
  {
    var gap := RequestOf(req, b) - Arrivals(dests, b);
    if gap > 0 then gap else 0
  }

  /** The worst residual over Block 1..k: it bounds every block's residual and is attained by one. */
  function MaxResidual(req: Requests, dests: seq<Block>, k: int): (r: nat)
    requires k >= 1
    ensures forall b :: 1 <= b <= k ==> Residual(req, dests, b) <= r
    ensures exists b :: 1 <= b <= k && r == Residual(req, dests, b)
  {
    if k == 1 then Residual(req, dests, 1)
    else
      var prev := MaxResidual(req, dests, k - 1);
      var here := Residual(req, dests, k);
      if here > prev then here else prev
  }

  /** The first destination outside Block 1..n, where the counting loop raises KeyError. */
  function FirstUnknown(n: int, dests: seq<Block>): (r: Option<Block>)
    ensures r.None? <==> forall i :: 0 <= i < |dests| ==> 1 <= dests[i] <= n
    ensures r.Some? ==> r.value in dests && !(1 <= r.value <= n)
    ensures n < 1 ==> (r.None? <==> |dests| == 0)
    ensures r.Some? ==> exists i :: (0 <= i < |dests| && dests[i] == r.value
      && forall j :: 0 <= j < i ==> 1 <= dests[j] <= n)
  {
    if |dests| == 0 then None
    else if !(1 <= dests[0] <= n) then Some(dests[0])
    else
      var r := FirstUnknown(n, dests[1..]);
      assert forall i :: 1 <= i < |dests| ==> dests[1..][i - 1] == dests[i];
      r
  }

  /** `requests` after the loop that stores 0 for every block it lacks. */
  function FillMissing(req: Requests, n: int): (r: Requests)
    ensures forall b :: b in r <==> b in req || 1 <= b <= n
    ensures forall b :: b in req ==> b in r && r[b] == req[b]
    ensures forall b :: RequestOf(r, b) == RequestOf(req, b)
  {
    req + map b | 1 <= b <= n && b !in req :: 0
  }

  /** What a call to objectiveFunction returns, and the requests dict it leaves behind. */
  datatype Evaluation = Evaluation(value: Result<nat, Error>, requests: Requests)

  /**
   * objectiveFunction(profile, requests): raises KeyError on the first
   * destination that is not a block, ValueError when there are no blocks, and
   * otherwise returns the worst residual; requests are left filled with 0
   * for missing blocks unless the call raised while counting.
   */
  function ObjectiveFunction(n: int, profile: Dict<AgentId, Block>, req: Requests): (e: Evaluation)
    ensures e.value.Success? <==> n >= 1 && forall d :: d in Values(profile) ==> 1 <= d <= n
    ensures e.value == Failure(EmptySequence) ==> n < 1 && |profile| == 0
    ensures e.requests == req || e.requests == FillMissing(req, n)
  {
    var dests := Values(profile);
    match FirstUnknown(n, dests)
    case Some(b) => Evaluation(Failure(UnknownBlock(b)), req)
    case None =>
      var filled := FillMissing(req, n);
      if n < 1 then
        Evaluation(Failure(EmptySequence), filled)
      else
        Evaluation(Success(MaxResidual(filled, dests, n)), filled)
  }

  /**
   * A successful objective is the worst residual against the requests as
   * passed in: no block's residual exceeds it, and some block's equals it.
   */
  lemma ObjectiveIsWorstResidual(n: int, profile: Dict<AgentId, Block>, req: Requests)
    ensures var e := ObjectiveFunction(n, profile, req);
      e.value.Success? ==>
        (forall b :: 1 <= b <= n ==> Residual(req, Values(profile), b) <= e.value.value)
        && exists b :: 1 <= b <= n && e.value.value == Residual(req, Values(profile), b)
  {
    if n >= 1 && FirstUnknown(n, Values(profile)).None? {
      ResidualFromRequestOf(FillMissing(req, n), req, Values(profile), n);
    }
  }

  /** The worst residual reads requests only through `requests.get(b, 0)`. */
  lemma {:induction false} ResidualFromRequestOf(r1: Requests, r2: Requests, dests: seq<Block>, k: int)
    requires k >= 1
    requires forall b :: RequestOf(r1, b) == RequestOf(r2, b)
    ensures MaxResidual(r1, dests, k) == MaxResidual(r2, dests, k)
    ensures forall b :: Residual(r1, dests, b) == Residual(r2, dests, b)
    decreases k
  {
    if k > 1 {
      ResidualFromRequestOf(r1, r2, dests, k - 1);
    }
  }

  /**
   * Filling in missing requests is invisible to later calls: any profile
   * evaluated against the filled dict gets the value it would have got
   * against the original one, and filling twice changes nothing more.
   */
  lemma FillIsUnobservable(n: int, q: Dict<AgentId, Block>, req: Requests)
    ensures ObjectiveFunction(n, q, FillMissing(req, n)).value == ObjectiveFunction(n, q, req).value
    ensures FillMissing(FillMissing(req, n), n) == FillMissing(req, n)
  {
    FillTwice(req, n);
    if n >= 1 && FirstUnknown(n, Values(q)).None? {
      ResidualFromRequestOf(FillMissing(FillMissing(req, n), n), FillMissing(req, n), Values(q), n);
    }
  }

  /** Filling a dict that is already filled adds nothing. */
  lemma FillTwice(req: Requests, n: int)
    ensures FillMissing(FillMissing(req, n), n) == FillMissing(req, n)
  {
    var once := FillMissing(req, n);
    assert (map b | 1 <= b <= n && b !in once :: 0) == map[];
  }

  /** A second call on the same inputs returns the same value and leaves requests as the first left them. */
  lemma SecondCallSameResult(n: int, p: Dict<AgentId, Block>, req: Requests)
    ensures var e := ObjectiveFunction(n, p, req); ObjectiveFunction(n, p, e.requests) == e
  {
    FillIsUnobservable(n, p, req);
  }

  /** The worst residual depends only on the multiset of chosen destinations. */
  lemma {:induction false} DestinationsOnly(req: Requests, d1: seq<Block>, d2: seq<Block>, k: int)
    requires k >= 1
    requires multiset(d1) == multiset(d2)
    ensures MaxResidual(req, d1, k) == MaxResidual(req, d2, k)
    decreases k
  {
    assert Residual(req, d1, k) == Residual(req, d2, k);
    if k > 1 {
      DestinationsOnly(req, d1, d2, k - 1);
    }
  }

  /**
   * Relabelling agents, or listing them in another order, does not change
   * the objective: two profiles that send the same multiset of agents to the
   * same blocks succeed or fail together and score the same.
   */
  lemma SameArrivalsSameObjective(n: int, p: Dict<AgentId, Block>, q: Dict<AgentId, Block>, req: Requests)
    requires multiset(Values(p)) == multiset(Values(q))
    ensures ObjectiveFunction(n, p, req).value.Success? == ObjectiveFunction(n, q, req).value.Success?
    ensures ObjectiveFunction(n, p, req).value.Success? ==>
      ObjectiveFunction(n, p, req).value.value == ObjectiveFunction(n, q, req).value.value
  {
    var dp, dq := Values(p), Values(q);
    SameMembers(dp, dq);
    if n >= 1 {
      DestinationsOnly(FillMissing(req, n), dp, dq, n);
    }
  }

  /** Sequences with the same multiset have the same members. */
  lemma SameMembers(dp: seq<Block>, dq: seq<Block>)
    requires multiset(dp) == multiset(dq)
    ensures forall d :: d in dp <==> d in dq
  {
    forall d | true
      ensures d in dp <==> d in dq
    {
      assert d in dp <==> d in multiset(dp);
      assert d in dq <==> d in multiset(dq);
    }
  }

  /** One more arriving agent never makes the worst residual larger. */
  lemma {:induction false} ArrivalNeverHurts(req: Requests, dests: seq<Block>, x: Block, k: int)
    requires k >= 1
    ensures MaxResidual(req, dests + [x], k) <= MaxResidual(req, dests, k)
    decreases k
  {
    ArrivalsSnoc(dests, x, k);
    if k > 1 {
      ArrivalNeverHurts(req, dests, x, k - 1);
    }
  }

  /** One more destination adds one arrival to its own block and none elsewhere. */
  lemma ArrivalsSnoc(dests: seq<Block>, x: Block, b: Block)
    ensures Arrivals(dests + [x], b) == Arrivals(dests, b) + if x == b then 1 else 0
  {
    assert (dests + [x])[..|dests|] == dests;
  }

  /** The worst residual never exceeds the largest request among the blocks. */
  lemma AtMostLargestRequest(req: Requests, dests: seq<Block>, k: int, bound: int)
    requires k >= 1
    requires forall b :: 1 <= b <= k ==> RequestOf(req, b) <= bound
    ensures 0 <= MaxResidual(req, dests, k) <= if bound > 0 then bound else 0
  {
  }
}
