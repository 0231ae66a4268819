/**
 * The Strategy class of objective.py: for one timestamp, build every agent's
 * feasible destinations, score every joint profile with the objective, let
 * each agent pick its best-paying destination on its own, and compare the
 * decentralised profile's objective with the best objective over all profiles.
 */
module Strategy {
  import opened Wrappers
  import opened Seqs
  import opened Dict
  import opened Fleet
  import opened Feasibility
  import opened Objective
  import opened Payoff
  import opened Choice
  import opened Product

  /** What the constructor keeps: noOfBlocks, neighbors and scaleRequest. */
  datatype Config = Config(noOfBlocks: int, neighbors: Neighbors, scaleRequest: int)

  /**
   * The random draws payoff consumes when agent `i` scores its `j`-th
   * feasible action: the forecast's Gaussian draw and the underlying uniform
   * draw for the `k`-th adjacent block of the inflow estimate.
   */
  datatype Sampler = Sampler(gauss: (nat, nat) -> real, uniform: (nat, nat, nat) -> real)

  /** The pair of objective values reported per timestamp, and where the best profile sits. */
  datatype Comparison = Comparison(payoffObjective: nat, bestObjective: nat, bestIndex: nat)

  /**
   * getAvailableAgents: every agent listed under any block, block by block in the
   * dictionary's order and each block's list in its own order.
   */
  function AvailableAgents(evDistribution: Dict<Block, seq<Agent>>): (r: seq<Agent>)
    ensures |r| == TotalLength(Values(evDistribution))
    ensures forall i, j :: 0 <= i < |evDistribution| && 0 <= j < |evDistribution[i].1| ==>
      ListedAt(Values(evDistribution), r, i, j)
    ensures forall a :: a in r <==> exists i :: 0 <= i < |evDistribution| && a in evDistribution[i].1
  {
    var lists := Values(evDistribution);
    assert forall i :: 0 <= i < |evDistribution| ==> lists[i] == evDistribution[i].1;
    Flatten(lists)
  }

  /** The assignments of the ActionSet loop: each agent's id with its candidate actions. */
  function ActionPairs(agents: seq<Agent>, nbrs: Neighbors): (ps: seq<(AgentId, seq<Block>)>)
    ensures Keys(ps) == Ids(agents)
  {
    seq(|agents|, i requires 0 <= i < |agents| => (agents[i].id, Actions(agents[i].block, nbrs)))
  }

  /**
   * `ActionSet[agent['id']] = getActions(agent)` for every agent: one key per
   * distinct id, in first-listing order, holding getActions of the id's last
   * listing.
   */
  function ActionSet(agents: seq<Agent>, nbrs: Neighbors): (d: Dict<AgentId, seq<Block>>)
    ensures Keyed(d) && Keys(d) == Dedup(Ids(agents))
    ensures forall i :: 0 <= i < |agents| ==> agents[i].id in Keys(d)
    ensures forall i :: 0 <= i < |agents| && LastListed(agents, i) ==>
      Get(d, agents[i].id) == Some(Actions(agents[i].block, nbrs))
  {
    var ps := ActionPairs(agents, nbrs);
    var d := FromPairs(ps);
    ListedIdsKept(agents, Keys(d));
    LastListingKept(agents, ps);
    d
  }

  /** Deduplicating the listed ids keeps every listed agent's id. */
  lemma ListedIdsKept(agents: seq<Agent>, keys: seq<AgentId>)
    requires keys == Dedup(Ids(agents))
    ensures forall i :: 0 <= i < |agents| ==> agents[i].id in keys
  {
    forall i | 0 <= i < |agents|
      ensures agents[i].id in keys
    {
      assert Ids(agents)[i] == agents[i].id;
    }
  }

  /** The assignments of the feasibleActionSet loop. */
  function FeasiblePairs(agents: seq<Agent>, actionSet: Dict<AgentId, seq<Block>>, cong: Congestion)
    : (ps: seq<(AgentId, seq<Block>)>)
    requires forall i :: 0 <= i < |agents| ==> agents[i].id in Keys(actionSet)
    ensures Keys(ps) == Ids(agents)
  {
    seq(|agents|, i requires 0 <= i < |agents| =>
      (agents[i].id, FeasibleActions(agents[i].block, Lookup(actionSet, agents[i].id), cong, DefaultThreshold)))
  }

  /**
   * `feasibleActionSet[agent['id']] = getFeasibleActions(agent, ActionSet[agent['id']], congestion)`
   * for every agent: one key per distinct id, in first-listing order, holding
   * the filter applied, from the block of the id's last listing, to the
   * id's action list.
   */
  function FeasibleActionSet(agents: seq<Agent>, actionSet: Dict<AgentId, seq<Block>>, cong: Congestion)
    : (d: Dict<AgentId, seq<Block>>)
    requires forall i :: 0 <= i < |agents| ==> agents[i].id in Keys(actionSet)
    ensures Keyed(d) && Keys(d) == Dedup(Ids(agents))
    ensures forall i :: 0 <= i < |agents| && LastListed(agents, i) ==>
      Get(d, agents[i].id) == Some(FeasibleActions(agents[i].block, Lookup(actionSet, agents[i].id), cong, DefaultThreshold))
  {
    var ps := FeasiblePairs(agents, actionSet, cong);
    LastListingKept(agents, ps);
    FromPairs(ps)
  }

  /**
   * Every agent ends up with a non-empty feasible list, even when several
   * agents share an id: the list kept for an id is the last such agent's,
   * computed from that agent's own block, which is always feasible.
   */
  lemma {:induction false} FeasibleListsNonEmpty(agents: seq<Agent>, nbrs: Neighbors, cong: Congestion)
    ensures var fas := FeasibleActionSet(agents, ActionSet(agents, nbrs), cong);
      forall i :: 0 <= i < |agents| ==> agents[i].id in Keys(fas) && |Lookup(fas, agents[i].id)| > 0
  {
    var actionSet := ActionSet(agents, nbrs);
    var fas := FeasibleActionSet(agents, actionSet, cong);
    forall i | 0 <= i < |agents|
      ensures agents[i].id in Keys(fas) && |Lookup(fas, agents[i].id)| > 0
    {
      var j := LastListing(agents, i);
      StayIsFeasible(agents[j].block, nbrs, cong, DefaultThreshold);
    }
  }

  /** The payoff of each of `actions` for agent `i`, drawn in the order `max` evaluates its key. */
  function Scores(cfg: Config, agents: seq<Agent>, i: nat, actions: seq<Block>, cong: Congestion, sampler: Sampler)
    : (s: seq<real>)
    requires i < |agents|
    ensures |s| == |actions|
    ensures 0.0 <= agents[i].soc ==> forall j :: 0 <= j < |s| ==> 0.0 <= s[j]
  {
    seq(|actions|, j requires 0 <= j < |actions| => Score(cfg, agents, i, actions[j], j, cong, sampler))
  }

  /** The payoff of the `j`-th feasible action for agent `i`, with that action's own draws. */
  function Score(cfg: Config, agents: seq<Agent>, i: nat, action: Block, j: nat, cong: Congestion, sampler: Sampler)
    : (p: real)
    requires i < |agents|
    ensures 0.0 <= agents[i].soc ==> 0.0 <= p
  {
    Payoff.Payoff(agents[i], action, agents, cong, cfg.neighbors, cfg.scaleRequest,
                  sampler.gauss(i, j), (k: nat) => sampler.uniform(i, j, k))
  }

  /** `max(actions, key=payoff)`: the first action whose payoff is maximal. */
  function BestAction(cfg: Config, agents: seq<Agent>, i: nat, actions: seq<Block>, cong: Congestion, sampler: Sampler)
    : (a: Block)
    requires i < |agents| && |actions| > 0
    ensures a in actions
    ensures exists j :: 0 <= j < |actions| && a == actions[j] && IsFirstMax(Scores(cfg, agents, i, actions, cong, sampler), j)
  {
    var j := FirstMax(Scores(cfg, agents, i, actions, cong, sampler));
    actions[j]
  }

  /** The assignments of the payoffStrategy loop. */
  function PayoffPairs(cfg: Config, agents: seq<Agent>, fas: Dict<AgentId, seq<Block>>, cong: Congestion, sampler: Sampler)
    : (ps: seq<(AgentId, Block)>)
    requires forall i :: 0 <= i < |agents| ==> agents[i].id in Keys(fas) && |Lookup(fas, agents[i].id)| > 0
    ensures Keys(ps) == Ids(agents)
    ensures forall i :: 0 <= i < |agents| ==> ps[i].1 in Lookup(fas, agents[i].id)
    ensures forall i :: 0 <= i < |agents| ==> ps[i].1 == BestAction(cfg, agents, i, Lookup(fas, agents[i].id), cong, sampler)
  {
    seq(|agents|, i requires 0 <= i < |agents| =>
      (agents[i].id, BestAction(cfg, agents, i, Lookup(fas, agents[i].id), cong, sampler)))
  }

  /**
   * payoffStrategy: each agent, on its own, picks the first of its feasible
   * actions with the highest payoff. The profile has one entry per distinct
   * id, each one of that id's feasible actions; an id listed several times
   * keeps the best action of its last listing.
   */
  function PayoffStrategy(cfg: Config, agents: seq<Agent>, fas: Dict<AgentId, seq<Block>>, cong: Congestion, sampler: Sampler)
    : (p: Dict<AgentId, Block>)
    requires forall i :: 0 <= i < |agents| ==> agents[i].id in Keys(fas) && |Lookup(fas, agents[i].id)| > 0
    ensures Keyed(p) && Keys(p) == Dedup(Ids(agents))
    ensures forall i :: 0 <= i < |agents| ==>
      agents[i].id in Keys(p) && Lookup(p, agents[i].id) in Lookup(fas, agents[i].id)
    ensures forall i :: 0 <= i < |agents| && LastListed(agents, i) ==>
      Get(p, agents[i].id) == Some(BestAction(cfg, agents, i, Lookup(fas, agents[i].id), cong, sampler))
  {
    var ps := PayoffPairs(cfg, agents, fas, cong, sampler);
    ChoicesKept(agents, fas, ps);
    FromPairs(ps)
  }

  /**
   * Filling a dict with one feasible choice per listed agent leaves every
   * agent mapped to a feasible choice: the one of its last listing.
   */
  lemma ChoicesKept(agents: seq<Agent>, fas: Dict<AgentId, seq<Block>>, ps: seq<(AgentId, Block)>)
    requires forall i :: 0 <= i < |agents| ==> agents[i].id in Keys(fas)
    requires Keys(ps) == Ids(agents)
    requires forall i :: 0 <= i < |agents| ==> ps[i].1 in Lookup(fas, agents[i].id)
    ensures forall i :: 0 <= i < |agents| ==>
      agents[i].id in Keys(FromPairs(ps)) && Lookup(FromPairs(ps), agents[i].id) in Lookup(fas, agents[i].id)
    ensures forall i :: 0 <= i < |agents| && LastListed(agents, i) ==> Get(FromPairs(ps), agents[i].id) == Some(ps[i].1)
  {
    LastListingKept(agents, ps);
    var p := FromPairs(ps);
    forall i | 0 <= i < |agents|
      ensures agents[i].id in Keys(p) && Lookup(p, agents[i].id) in Lookup(fas, agents[i].id)
    {
      assert Keys(ps)[i] == agents[i].id;
      var j := LastOccurrence(ps, i);
      assert Keys(ps)[j] == agents[j].id;
    }
  }

  /**
   * The enumeration of getAllStrategies: one profile per element of the
   * Cartesian product of the feasible lists, keyed like feasibleActionSet.
   * There are as many as the product of the list lengths, and each maps
   * every key to one of its feasible actions.
   */
  function AllStrategies(fas: Dict<AgentId, seq<Block>>): (r: seq<Dict<AgentId, Block>>)
    ensures |r| == Size(Values(fas))
    ensures forall m :: 0 <= m < |r| ==>
      (Keys(r[m]) == Keys(fas) && forall i :: 0 <= i < |fas| ==> r[m][i].1 in fas[i].1)
  {
    var combos := Product.Product(Values(fas));
    assert forall m :: 0 <= m < |combos| ==> Picks(combos[m], Values(fas));
    seq(|combos|, m requires 0 <= m < |combos| => Zip(Keys(fas), combos[m]))
  }

  /**
   * The scoring loop of getAllStrategies: each profile's objective in turn,
   * with `requests` passed along as each call leaves it, stopping at the
   * first profile whose objective raises.
   */
  function EvaluateAll(n: int, profiles: seq<Dict<AgentId, Block>>, req: Requests)
    : (out: (Result<seq<nat>, Error>, Requests))
    ensures out.0.Success? ==> |out.0.value| == |profiles|
    ensures out.1 == req || out.1 == FillMissing(req, n)
  {
    if |profiles| == 0 then (Success([]), req)
    else
      var e := ObjectiveFunction(n, profiles[0], req);
      match e.value
      case Failure(err) => (Failure(err), e.requests)
      case Success(v) =>
        var rest := EvaluateAll(n, profiles[1..], e.requests);
        FillIsUnobservable(n, profiles[0], req);
        match rest.0
        case Failure(err) => (Failure(err), rest.1)
        case Success(vs) => (Success([v] + vs), rest.1)
  }

  /**
   * Passing the mutated `requests` along is unobservable: the loop fails
   * exactly when some profile's objective raises, and otherwise each value
   * is that profile's objective against the original requests.
   */
  lemma EvaluateAllMatches(n: int, profiles: seq<Dict<AgentId, Block>>, req: Requests)
    ensures var out := EvaluateAll(n, profiles, req);
      (out.0.Success? <==> forall m :: 0 <= m < |profiles| ==> ObjectiveFunction(n, profiles[m], req).value.Success?)
      && (out.0.Success? ==>
            forall m :: 0 <= m < |profiles| ==> ObjectiveFunction(n, profiles[m], req).value == Success(out.0.value[m]))
  {
    var out := EvaluateAll(n, profiles, req);
    if out.0.Success? {
      forall m | 0 <= m < |profiles|
        ensures ObjectiveFunction(n, profiles[m], req).value == Success(out.0.value[m])
      {
        EvaluatedAt(n, profiles, req, m);
      }
    } else {
      var m := FirstRaising(n, profiles, req);
    }
  }

  /** A successful loop's value at position `m` is profile `m`'s objective against the original requests. */
  lemma {:induction false} EvaluatedAt(n: int, profiles: seq<Dict<AgentId, Block>>, req: Requests, m: nat)
    requires m < |profiles| && EvaluateAll(n, profiles, req).0.Success?
    ensures ObjectiveFunction(n, profiles[m], req).value == Success(EvaluateAll(n, profiles, req).0.value[m])
  {
    var e := ObjectiveFunction(n, profiles[0], req);
    if m > 0 {
      var tail := profiles[1..];
      EvaluatedAt(n, tail, e.requests, m - 1);
      assert tail[m - 1] == profiles[m];
      FillIsUnobservable(n, profiles[m], req);
    }
  }

  /** A failed loop failed on some profile whose objective raises against the original requests. */
  lemma FirstRaising(n: int, profiles: seq<Dict<AgentId, Block>>, req: Requests) returns (m: nat)
    requires EvaluateAll(n, profiles, req).0.Failure?
    ensures m < |profiles| && ObjectiveFunction(n, profiles[m], req).value.Failure?
  {
    var i, r := 0, req;
    assert profiles[i..] == profiles;
    FailedNonEmpty(n, profiles[i..], r);
    while ObjectiveFunction(n, profiles[i], r).value.Success?
      invariant i < |profiles|
      invariant r == req || r == FillMissing(req, n)
      invariant EvaluateAll(n, profiles[i..], r).0.Failure?
      decreases |profiles| - i
    {
      FailedInTail(n, profiles[i..], r);
      assert profiles[i..][1..] == profiles[i + 1..];
      FillTwice(req, n);
      i, r := i + 1, ObjectiveFunction(n, profiles[i], r).requests;
      FailedNonEmpty(n, profiles[i..], r);
    }
    RaisesAgainstEither(n, profiles[i], req, r);
    m := i;
  }

  /** A failed loop had at least one profile to score. */
  lemma FailedNonEmpty(n: int, profiles: seq<Dict<AgentId, Block>>, req: Requests)
    requires EvaluateAll(n, profiles, req).0.Failure?
    ensures |profiles| > 0
  {
  }

  /** A loop that fails after a successful first profile fails on the rest. */
  lemma FailedInTail(n: int, profiles: seq<Dict<AgentId, Block>>, req: Requests)
    requires EvaluateAll(n, profiles, req).0.Failure?
    requires ObjectiveFunction(n, profiles[0], req).value.Success?
    ensures EvaluateAll(n, profiles[1..], ObjectiveFunction(n, profiles[0], req).requests).0.Failure?
  {
  }

  /** An objective that raises against the filled requests raises against the original ones too. */
  lemma RaisesAgainstEither(n: int, q: Dict<AgentId, Block>, req: Requests, req': Requests)
    requires req' == req || req' == FillMissing(req, n)
    requires ObjectiveFunction(n, q, req').value.Failure?
    ensures ObjectiveFunction(n, q, req).value.Failure?
  {
    FillIsUnobservable(n, q, req);
  }

  /** The agents, their feasible lists and the enumerated profiles of a snapshot. */
  function AgentsOf(snapshot: Snapshot): seq<Agent>
  {
    AvailableAgents(snapshot.evDistribution)
  }

  function FeasibleOf(cfg: Config, snapshot: Snapshot): (fas: Dict<AgentId, seq<Block>>)
    ensures forall i :: 0 <= i < |AgentsOf(snapshot)| ==>
      AgentsOf(snapshot)[i].id in Keys(fas) && |Lookup(fas, AgentsOf(snapshot)[i].id)| > 0
  {
    var agents := AgentsOf(snapshot);
    FeasibleListsNonEmpty(agents, cfg.neighbors, snapshot.congestion);
    FeasibleActionSet(agents, ActionSet(agents, cfg.neighbors), snapshot.congestion)
  }

  function ProfilesOf(cfg: Config, snapshot: Snapshot): seq<Dict<AgentId, Block>>
  {
    AllStrategies(FeasibleOf(cfg, snapshot))
  }

  function PayoffProfileOf(cfg: Config, snapshot: Snapshot, sampler: Sampler): Dict<AgentId, Block>
  {
    PayoffStrategy(cfg, AgentsOf(snapshot), FeasibleOf(cfg, snapshot), snapshot.congestion, sampler)
  }

  /** Every feasible list in the table is non-empty, so there is at least one profile. */
  lemma ProfilesNonEmpty(cfg: Config, snapshot: Snapshot)
    ensures |ProfilesOf(cfg, snapshot)| > 0
  {
    var agents := AgentsOf(snapshot);
    var fas := FeasibleOf(cfg, snapshot);
    assert Keys(fas) == Dedup(Ids(agents));
    forall i | 0 <= i < |fas|
      ensures |Values(fas)[i]| > 0
    {
      assert Keys(fas)[i] in Ids(agents);
      var a :| 0 <= a < |agents| && Ids(agents)[a] == Keys(fas)[i];
      GetAt(fas, i);
    }
    SizePositive(Values(fas));
  }

  /**
   * The tail of getAllStrategies once the profiles are enumerated: score them
   * all, passing `requests` along; score the payoff-driven profile with the
   * requests as the loop left them; then take the least value and the first
   * index where it occurs (`min` of no values raises).
   */
  function Compare(n: int, profiles: seq<Dict<AgentId, Block>>, best: Dict<AgentId, Block>, req: Requests)
    : (r: Result<Comparison, Error>)
    ensures r.Success? ==> r.value.bestIndex < |profiles|
  {
    var evaluated := EvaluateAll(n, profiles, req);
    match evaluated.0
    case Failure(err) => Failure(err)
    case Success(values) =>
      var e := ObjectiveFunction(n, best, evaluated.1);
      match e.value
      case Failure(err) => Failure(err)
      case Success(payoffValue) =>
        if |values| == 0 then Failure(EmptySequence)
        else
          var index := IndexOf(values, Min(values));
          Success(Comparison(payoffValue, values[index], index))
  }

  /**
   * Compare succeeds exactly when the payoff-driven profile and every
   * enumerated profile score against the original requests, and there is
   * at least one enumerated profile.
   */
  lemma CompareSucceeds(n: int, profiles: seq<Dict<AgentId, Block>>, best: Dict<AgentId, Block>, req: Requests)
    ensures Compare(n, profiles, best, req).Success? <==>
      (|profiles| > 0 && ObjectiveFunction(n, best, req).value.Success?
       && forall m :: 0 <= m < |profiles| ==> ObjectiveFunction(n, profiles[m], req).value.Success?)
  {
    EvaluateAllMatches(n, profiles, req);
    FillIsUnobservable(n, best, req);
  }

  /**
   * What Compare reports, stated against the original requests: the payoff
   * objective is the payoff-driven profile's score, the best objective is
   * the least score, and its index is the first profile attaining it.
   */
  lemma CompareValues(n: int, profiles: seq<Dict<AgentId, Block>>, best: Dict<AgentId, Block>, req: Requests)
    ensures var r := Compare(n, profiles, best, req);
      r.Success? ==>
        ObjectiveFunction(n, best, req).value == Success(r.value.payoffObjective)
        && ObjectiveFunction(n, profiles[r.value.bestIndex], req).value == Success(r.value.bestObjective)
        && (forall m :: 0 <= m < |profiles| ==>
              ObjectiveFunction(n, profiles[m], req).value.Success?
              && r.value.bestObjective <= ObjectiveFunction(n, profiles[m], req).value.value)
        && (forall m :: 0 <= m < r.value.bestIndex ==>
              r.value.bestObjective < ObjectiveFunction(n, profiles[m], req).value.value)
  {
    var r := Compare(n, profiles, best, req);
    if r.Success? {
      var evaluated := EvaluateAll(n, profiles, req);
      EvaluateAllMatches(n, profiles, req);
      FillIsUnobservable(n, best, req);
      var values := evaluated.0.value;
      var least := Min(values);
      var index := IndexOf(values, least);
      assert r.value == Comparison(ObjectiveFunction(n, best, evaluated.1).value.value, least, index);
      forall m | 0 <= m < |profiles|
        ensures ObjectiveFunction(n, profiles[m], req).value == Success(values[m])
        ensures least <= values[m]
      {
      }
      forall m | 0 <= m < index
        ensures least < values[m]
      {
        assert values[m] != least && least <= values[m];
      }
    }
  }

  /** When the payoff-driven profile is among those enumerated, the best objective never exceeds its objective. */
  lemma CompareOptimum(n: int, profiles: seq<Dict<AgentId, Block>>, best: Dict<AgentId, Block>, req: Requests)
    requires best in profiles
    ensures var r := Compare(n, profiles, best, req);
      r.Success? ==> r.value.bestObjective <= r.value.payoffObjective
  {
    var r := Compare(n, profiles, best, req);
    if r.Success? {
      CompareValues(n, profiles, best, req);
      var m :| 0 <= m < |profiles| && profiles[m] == best;
    }
  }

  /**
   * getAllStrategies(timestamp): the objective of the payoff-driven profile
   * and the least objective over all enumerated profiles, with its first
   * index, or the exception the objective raises on some profile.
   */
  function GetAllStrategies(cfg: Config, snapshot: Snapshot, sampler: Sampler): (r: Result<Comparison, Error>)
    ensures r.Success? ==> r.value.bestIndex < |ProfilesOf(cfg, snapshot)|
  {
    Compare(cfg.noOfBlocks, ProfilesOf(cfg, snapshot), PayoffProfileOf(cfg, snapshot, sampler), snapshot.requests)
  }

  /** Every profile that picks one feasible action per key of the table is enumerated. */
  lemma EnumerationComplete(fas: Dict<AgentId, seq<Block>>, p: Dict<AgentId, Block>)
    requires Keys(p) == Keys(fas)
    requires forall i :: 0 <= i < |p| ==> p[i].1 in fas[i].1
    ensures p in AllStrategies(fas)
  {
    var vs := Values(p);
    assert Picks(vs, Values(fas));
    ProductComplete(Values(fas), vs);
    var combos := Product.Product(Values(fas));
    var m :| 0 <= m < |combos| && combos[m] == vs;
    ZipKeysValues(p);
    assert AllStrategies(fas)[m] == p;
  }

  /** A profile built per agent from the agents' table picks, position by position, from that table. */
  lemma PicksFromTable(agents: seq<Agent>, fas: Dict<AgentId, seq<Block>>, p: Dict<AgentId, Block>)
    requires Keyed(fas) && Keyed(p) && Keys(fas) == Dedup(Ids(agents)) && Keys(p) == Keys(fas)
    requires forall i :: 0 <= i < |agents| ==>
      agents[i].id in Keys(fas) && agents[i].id in Keys(p) && Lookup(p, agents[i].id) in Lookup(fas, agents[i].id)
    ensures forall i :: 0 <= i < |p| ==> p[i].1 in fas[i].1
  {
    forall i | 0 <= i < |p|
      ensures p[i].1 in fas[i].1
    {
      assert Keys(fas)[i] in Ids(agents);
      var a :| 0 <= a < |agents| && Ids(agents)[a] == Keys(fas)[i];
      GetAt(fas, i);
      GetAt(p, i);
      assert Keys(p)[i] == Keys(fas)[i];
    }
  }

  /** The decentralised profile is one of the enumerated profiles. */
  lemma PayoffProfileEnumerated(cfg: Config, snapshot: Snapshot, sampler: Sampler)
    ensures PayoffProfileOf(cfg, snapshot, sampler) in ProfilesOf(cfg, snapshot)
  {
    var agents := AgentsOf(snapshot);
    var fas := FeasibleOf(cfg, snapshot);
    var p := PayoffStrategy(cfg, agents, fas, snapshot.congestion, sampler);
    PicksFromTable(agents, fas, p);
    EnumerationComplete(fas, p);
  }

  /**
   * getAllStrategies never reports a best objective above the payoff
   * objective, and it fails exactly when the objective raises on some
   * enumerated profile: the decentralised profile is one of them and there
   * is always at least one.
   */
  lemma OptimumNeverWorseThanPayoff(cfg: Config, snapshot: Snapshot, sampler: Sampler)
    ensures var r := GetAllStrategies(cfg, snapshot, sampler);
      r.Success? ==> r.value.bestObjective <= r.value.payoffObjective
    ensures var r := GetAllStrategies(cfg, snapshot, sampler);
      var profiles := ProfilesOf(cfg, snapshot);
      r.Success? <==> forall m :: 0 <= m < |profiles| ==>
        ObjectiveFunction(cfg.noOfBlocks, profiles[m], snapshot.requests).value.Success?
  {
    var profiles := ProfilesOf(cfg, snapshot);
    var best := PayoffProfileOf(cfg, snapshot, sampler);
    PayoffProfileEnumerated(cfg, snapshot, sampler);
    ProfilesNonEmpty(cfg, snapshot);
    CompareSucceeds(cfg.noOfBlocks, profiles, best, snapshot.requests);
    CompareOptimum(cfg.noOfBlocks, profiles, best, snapshot.requests);
    var m :| 0 <= m < |profiles| && profiles[m] == best;
  }
}
