/**
 * generate_strategy.py: the stand-alone variant of the strategy pipeline,
 * on an id -> {block, soc, isIdle} table, where an agent's payoff for a
 * destination is its charge minus the requests pending there.
 */
module GenerateStrategy {
  import opened Wrappers
  import opened Seqs
  import opened Dict
  import opened Fleet
  import opened Feasibility
  import opened Choice
  import opened Product
  import Strategy

  /** The record get_agents keeps for an id. */
  datatype Info = Info(block: Block, soc: real, isIdle: bool)

  /** The table of agents by id, in first-insertion order. */
  type Agents = Dict<AgentId, Info>

  /** A strategy profile: id -> chosen destination. */
  type Profile = Dict<AgentId, Block>

  function InfoOf(a: Agent): Info
  {
    Info(a.block, a.soc, a.isIdle)
  }

  /** The assignments of get_agents' loop, one per listed agent. */
  function AgentPairs(flat: seq<Agent>): (ps: seq<(AgentId, Info)>)
    ensures Keys(ps) == Ids(flat)
  {
    seq(|flat|, i requires 0 <= i < |flat| => (flat[i].id, InfoOf(flat[i])))
  }

  /**
   * get_agents: every agent listed under any block, keyed by id. An id
   * appears once, at its first listing, and carries the record of its last
   * listing: a later duplicate id overwrites an earlier one.
   */
  function GetAgents(evDistribution: Dict<Block, seq<Agent>>): (agents: Agents)
    ensures var flat := Strategy.AvailableAgents(evDistribution);
      Keyed(agents) && Keys(agents) == Dedup(Ids(flat))
      && forall i :: 0 <= i < |flat| && LastListed(flat, i) ==>
           Get(agents, flat[i].id) == Some(InfoOf(flat[i]))
  {
    var flat := Strategy.AvailableAgents(evDistribution);
    FromAgentPairs(flat);
    FromPairs(AgentPairs(flat))
  }

  /** Filling the table from the listings keeps each id's last listing. */
  lemma FromAgentPairs(flat: seq<Agent>)
    ensures var agents := FromPairs(AgentPairs(flat));
      Keyed(agents) && Keys(agents) == Dedup(Ids(flat))
      && forall i :: 0 <= i < |flat| && LastListed(flat, i) ==>
           Get(agents, flat[i].id) == Some(InfoOf(flat[i]))
  {
    var ps := AgentPairs(flat);
    forall i | 0 <= i < |flat| && LastListed(flat, i)
      ensures Get(FromPairs(ps), flat[i].id) == Some(InfoOf(flat[i]))
    {
      assert LastWithKey(ps, i);
    }
  }

  /**
   * get_action_set: every agent's own block followed by that block's
   * neighbours, keyed like the agent table; the same list getActions of
   * objective.py gives.
   */
  function GetActionSet(agents: Agents, nbrs: Neighbors): (s: Dict<AgentId, seq<Block>>)
    requires Keyed(agents)
    ensures Keyed(s) && Keys(s) == Keys(agents)
    ensures forall i :: 0 <= i < |agents| ==> s[i].1 == Actions(agents[i].1.block, nbrs)
  {
    var s := seq(|agents|, i requires 0 <= i < |agents| =>
      (agents[i].0, [agents[i].1.block] + NeighborsOf(nbrs, agents[i].1.block)));
    assert Keys(s) == Keys(agents);
    s
  }

  /** The loop of feasible_actions: keep the current block, and any other action below the threshold. */
  function KeepFeasible(current: Block, actions: seq<Block>, cong: Congestion, threshold: int): (r: seq<Block>)
    ensures |r| <= |actions|
    ensures IsSubsequence(r, actions)
    ensures forall a :: a in r <==> a in actions && Passes(current, a, cong, threshold)
  {
    if |actions| == 0 then []
    else
      var a := actions[0];
      var rest := KeepFeasible(current, actions[1..], cong, threshold);
      if a == current then [a] + rest
      else if CongestionOf(cong, current, a) < threshold then [a] + rest
      else rest
  }

  /** The two copies of the filter agree: feasible_actions is getFeasibleActions of objective.py. */
  lemma {:induction false} FeasibleMatchesObjective(current: Block, actions: seq<Block>, cong: Congestion, threshold: int)
    ensures KeepFeasible(current, actions, cong, threshold) == FeasibleActions(current, actions, cong, threshold)
    decreases |actions|
  {
    if |actions| > 0 {
      FeasibleMatchesObjective(current, actions[1..], cong, threshold);
    }
  }

  /**
   * feasible_actions(agent, ...): the agent's candidates that pass the
   * filter from its own block. Both lookups are dictionary indexing, so the
   * id must be in both tables.
   */
  function FeasibleFor(agent: AgentId, agents: Agents, actionSet: Dict<AgentId, seq<Block>>, cong: Congestion, threshold: int)
    : (r: seq<Block>)
    requires agent in Keys(agents) && agent in Keys(actionSet)
    ensures IsSubsequence(r, Lookup(actionSet, agent))
    ensures forall a :: a in r <==> a in Lookup(actionSet, agent) && Passes(Lookup(agents, agent).block, a, cong, threshold)
  {
    var current := Lookup(agents, agent).block;
    FeasibleMatchesObjective(current, Lookup(actionSet, agent), cong, threshold);
    KeepFeasible(current, Lookup(actionSet, agent), cong, threshold)
  }

  /** payoff: the agent's charge less the requests pending at the destination (none when unknown). */
  function Payoff(info: Info, action: Block, req: Requests): (p: real)
    ensures p <= info.soc
    ensures p == info.soc <==> action !in req || req[action] == 0
  {
    info.soc - RequestOf(req, action) as real
  }

  /** The payoffs of `actions`, in order. */
  function Payoffs(info: Info, actions: seq<Block>, req: Requests): (s: seq<real>)
    ensures |s| == |actions|
    ensures forall j :: 0 <= j < |s| ==> s[j] == Payoff(info, actions[j], req)
  {
    seq(|actions|, j requires 0 <= j < |actions| => Payoff(info, actions[j], req))
  }

  /** `max(actions, key=payoff)`: the first action with the largest payoff. */
  function BestAction(info: Info, actions: seq<Block>, req: Requests): (a: Block)
    requires |actions| > 0
    ensures a in actions
    ensures exists j :: 0 <= j < |actions| && a == actions[j] && IsFirstMax(Payoffs(info, actions, req), j)
  {
    var j := FirstMax(Payoffs(info, actions, req));
    actions[j]
  }

  /** `j` is the first of `actions` with the fewest pending requests. */
  ghost predicate IsFirstFewest(actions: seq<Block>, req: Requests, j: int)
  {
    0 <= j < |actions|
    && (forall k :: 0 <= k < |actions| ==> RequestOf(req, actions[j]) <= RequestOf(req, actions[k]))
    && (forall k :: 0 <= k < j ==> RequestOf(req, actions[j]) < RequestOf(req, actions[k]))
  }

  /** `a` is the first of `actions` with the fewest pending requests. */
  ghost predicate IsFewest(actions: seq<Block>, req: Requests, a: Block)
  {
    exists j :: IsFirstFewest(actions, req, j) && a == actions[j]
  }

  /**
   * The payoff ranks destinations by pending requests alone: the first
   * largest payoff is the first destination with the fewest requests,
   * whatever the agent's charge.
   */
  lemma FirstMaxIsFirstFewest(info: Info, actions: seq<Block>, req: Requests, j: int)
    ensures IsFirstMax(Payoffs(info, actions, req), j) <==> IsFirstFewest(actions, req, j)
  {
  }

  /**
   * The agent's charge plays no part: the best action is the first one with
   * the fewest requests, and two agents with the same candidates choose alike.
   */
  lemma PicksFewestRequests(info: Info, other: Info, actions: seq<Block>, req: Requests)
    requires |actions| > 0
    ensures IsFewest(actions, req, BestAction(info, actions, req))
    ensures BestAction(info, actions, req) == BestAction(other, actions, req)
  {
    var i := FirstMax(Payoffs(info, actions, req));
    var o := FirstMax(Payoffs(other, actions, req));
    FirstMaxIsFirstFewest(info, actions, req, i);
    FirstMaxIsFirstFewest(other, actions, req, o);
    FirstFewestUnique(actions, req, i, o);
  }

  /** Only one position is the first with the fewest requests. */
  lemma FirstFewestUnique(actions: seq<Block>, req: Requests, i: int, j: int)
    requires IsFirstFewest(actions, req, i) && IsFirstFewest(actions, req, j)
    ensures i == j
  {
    var ri, rj := RequestOf(req, actions[i]), RequestOf(req, actions[j]);
    assert ri <= rj && rj <= ri;
  }

  /** Every agent's id has an action list. */
  ghost predicate Covers(agents: Agents, actionSet: Dict<AgentId, seq<Block>>)
  {
    forall i :: 0 <= i < |agents| ==> agents[i].0 in Keys(actionSet)
  }

  /** The feasible list of the `i`-th agent of the table. */
  function FeasibleAt(agents: Agents, actionSet: Dict<AgentId, seq<Block>>, cong: Congestion, i: int): seq<Block>
    requires Keyed(agents) && Covers(agents, actionSet) && 0 <= i < |agents|
  {
    assert Keys(agents)[i] == agents[i].0;
    FeasibleFor(agents[i].0, agents, actionSet, cong, DefaultThreshold)
  }

  /**
   * strategy_profile: every agent mapped, in table order, to its best
   * feasible action; None when some agent has no feasible action, where
   * `max` of nothing raises.
   */
  function StrategyProfile(agents: Agents, actionSet: Dict<AgentId, seq<Block>>, cong: Congestion, req: Requests)
    : (r: Option<Profile>)
    requires Keyed(agents) && Covers(agents, actionSet)
    ensures r.Some? <==> forall i :: 0 <= i < |agents| ==> |FeasibleAt(agents, actionSet, cong, i)| > 0
    ensures r.Some? ==>
      (Keys(r.value) == Keys(agents)
       && forall i :: 0 <= i < |agents| ==> r.value[i].1 in FeasibleAt(agents, actionSet, cong, i))
  {
    if forall i :: 0 <= i < |agents| ==> |FeasibleAt(agents, actionSet, cong, i)| > 0 then
      var p := seq(|agents|, i requires 0 <= i < |agents| =>
        (agents[i].0, BestAction(agents[i].1, FeasibleAt(agents, actionSet, cong, i), req)));
      assert Keys(p) == Keys(agents);
      Some(p)
    else
      None
  }

  /**
   * Each agent of the profile gets the first of its feasible actions with
   * the fewest pending requests, so the charges never matter: two tables
   * that differ only in charge and idle flags give the same profile.
   */
  lemma StrategyProfileFewest(agents: Agents, actionSet: Dict<AgentId, seq<Block>>, cong: Congestion, req: Requests)
    requires Keyed(agents) && Covers(agents, actionSet)
    ensures var r := StrategyProfile(agents, actionSet, cong, req);
      r.Some? ==> forall i :: 0 <= i < |agents| ==> IsFewest(FeasibleAt(agents, actionSet, cong, i), req, r.value[i].1)
  {
    var r := StrategyProfile(agents, actionSet, cong, req);
    if r.Some? {
      forall i | 0 <= i < |agents|
        ensures IsFewest(FeasibleAt(agents, actionSet, cong, i), req, r.value[i].1)
      {
        assert r.value[i].1 == BestAction(agents[i].1, FeasibleAt(agents, actionSet, cong, i), req);
        PicksFewestRequests(agents[i].1, agents[i].1, FeasibleAt(agents, actionSet, cong, i), req);
      }
    }
  }

  /** The action set get_action_set builds covers every agent, and every feasible list then holds the agent's own block. */
  lemma ActionSetCovers(agents: Agents, nbrs: Neighbors, cong: Congestion)
    requires Keyed(agents)
    ensures Covers(agents, GetActionSet(agents, nbrs))
    ensures forall i :: 0 <= i < |agents| ==>
      agents[i].1.block in FeasibleAt(agents, GetActionSet(agents, nbrs), cong, i)
  {
    var s := GetActionSet(agents, nbrs);
    forall i | 0 <= i < |agents|
      ensures agents[i].0 in Keys(s)
    {
      assert Keys(s)[i] == Keys(agents)[i] == agents[i].0;
    }
    forall i | 0 <= i < |agents|
      ensures agents[i].1.block in FeasibleAt(agents, s, cong, i)
    {
      assert Keys(s)[i] == Keys(agents)[i] == agents[i].0;
      GetAt(s, i);
      GetAt(agents, i);
      assert agents[i].1.block in Actions(agents[i].1.block, nbrs);
    }
  }

  /** With the action set get_action_set builds, strategy_profile always produces a profile. */
  lemma ProfileExists(agents: Agents, nbrs: Neighbors, cong: Congestion, req: Requests)
    requires Keyed(agents)
    ensures Covers(agents, GetActionSet(agents, nbrs)) && StrategyProfile(agents, GetActionSet(agents, nbrs), cong, req).Some?
  {
    ActionSetCovers(agents, nbrs, cong);
  }

  /** The feasible lists of the agents, in table order. */
  function ActionLists(agents: Agents, actionSet: Dict<AgentId, seq<Block>>, cong: Congestion): (ls: seq<seq<Block>>)
    requires Keyed(agents) && Covers(agents, actionSet)
    ensures |ls| == |agents|
    ensures forall i :: 0 <= i < |agents| ==> ls[i] == FeasibleAt(agents, actionSet, cong, i)
  {
    seq(|agents|, i requires 0 <= i < |agents| => FeasibleAt(agents, actionSet, cong, i))
  }

  /**
   * generate_all_strategy: one profile per element of the Cartesian product
   * of the feasible lists, in the product's lexicographic order; as many as
   * the product of the list lengths, each mapping every agent to one of its
   * feasible actions.
   */
  function GenerateAllStrategy(agents: Agents, actionSet: Dict<AgentId, seq<Block>>, cong: Congestion)
    : (r: seq<Profile>)
    requires Keyed(agents) && Covers(agents, actionSet)
    ensures |r| == Size(ActionLists(agents, actionSet, cong))
    ensures forall m :: 0 <= m < |r| ==>
      (Keys(r[m]) == Keys(agents)
       && forall i :: 0 <= i < |agents| ==> r[m][i].1 in FeasibleAt(agents, actionSet, cong, i))
  {
    var lists := ActionLists(agents, actionSet, cong);
    var combos := Product.Product(lists);
    assert forall m :: 0 <= m < |combos| ==> Picks(combos[m], lists);
    seq(|combos|, m requires 0 <= m < |combos| => Zip(Keys(agents), combos[m]))
  }

  /** The enumeration lists the profiles in the order of the Cartesian product of the feasible lists. */
  lemma EnumerationOrder(agents: Agents, actionSet: Dict<AgentId, seq<Block>>, cong: Congestion, m: nat)
    requires Keyed(agents) && Covers(agents, actionSet)
    requires m < |GenerateAllStrategy(agents, actionSet, cong)|
    ensures Values(GenerateAllStrategy(agents, actionSet, cong)[m]) == Product.Product(ActionLists(agents, actionSet, cong))[m]
  {
  }

  /** When no feasible list repeats an action, every combination appears exactly once. */
  lemma EnumerationDistinct(agents: Agents, actionSet: Dict<AgentId, seq<Block>>, cong: Congestion)
    requires Keyed(agents) && Covers(agents, actionSet)
    requires forall i :: 0 <= i < |agents| ==> Distinct(FeasibleAt(agents, actionSet, cong, i))
    ensures Distinct(GenerateAllStrategy(agents, actionSet, cong))
  {
    var lists := ActionLists(agents, actionSet, cong);
    var combos := Product.Product(lists);
    ProductDistinct(lists);
    var r := GenerateAllStrategy(agents, actionSet, cong);
    forall m, m' | 0 <= m < m' < |r|
      ensures r[m] != r[m']
    {
      assert Values(r[m]) == combos[m] && Values(r[m']) == combos[m'];
    }
  }

  /** Every profile that gives each agent one of its feasible actions is enumerated. */
  lemma EnumerationComplete(agents: Agents, actionSet: Dict<AgentId, seq<Block>>, cong: Congestion, p: Profile)
    requires Keyed(agents) && Covers(agents, actionSet)
    requires Keys(p) == Keys(agents)
    requires forall i :: 0 <= i < |agents| ==> p[i].1 in FeasibleAt(agents, actionSet, cong, i)
    ensures p in GenerateAllStrategy(agents, actionSet, cong)
  {
    var lists := ActionLists(agents, actionSet, cong);
    var vs := Values(p);
    assert Picks(vs, lists);
    ProductComplete(lists, vs);
    var combos := Product.Product(lists);
    var m :| 0 <= m < |combos| && combos[m] == vs;
    ZipKeysValues(p);
    assert GenerateAllStrategy(agents, actionSet, cong)[m] == p;
  }

  /** strategy_profile's result is one of the profiles generate_all_strategy enumerates. */
  lemma ProfileEnumerated(agents: Agents, actionSet: Dict<AgentId, seq<Block>>, cong: Congestion, req: Requests)
    requires Keyed(agents) && Covers(agents, actionSet)
    ensures var r := StrategyProfile(agents, actionSet, cong, req);
      r.Some? ==> r.value in GenerateAllStrategy(agents, actionSet, cong)
  {
    var r := StrategyProfile(agents, actionSet, cong, req);
    if r.Some? {
      EnumerationComplete(agents, actionSet, cong, r.value);
    }
  }
}
