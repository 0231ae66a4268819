# EV rebalancing: a verified model of the strategy core

This project models the core of a small EV-rebalancing simulator, together with proofs about that model. The simulator's grid of blocks holds electric-vehicle agents, pending charging requests and congestion between adjacent blocks.

For one timestamp of a generated test case, the simulator does the following:
- It builds every agent's candidate destinations: its own block followed by that block's neighbours.
- It keeps only the feasible candidates: staying put, or a move whose congestion is below a threshold.
- It lets each agent pick, on its own, the first destination with the highest payoff.
- It enumerates every joint profile as the Cartesian product of the feasible lists.
- It scores each profile with the global objective: the worst unmet demand over all blocks.
- It reports the decentralised profile's objective next to the best objective of the enumeration.

The environment generator and the scenario generator are part of the model too:
- **Environment generator:** builds the grid adjacency, the per-block distribution parameters and the initial fleet.
- **Scenario generator:** draws requests, congestion and EV counts. It rescales the counts to the fleet size and places shuffled agents block by block. It moves each placed agent and drains its charge, and marks every agent left over as busy.

Every random draw is a parameter of the model:
- `random.gauss` values are given reals.
- `random.uniform(lo, hi)` is `lo + (hi - lo) * u` for a given underlying draw `u`.
- `random.shuffle` is a given permutation.

With the draws fixed, every operation is a pure function or a method with a functional contract.

Modules, in dependency order:
- `Wrappers`, `Seqs`, `Dict`: the vocabulary.
  - `Dict` is Python's insertion-ordered dict as a sequence of key/value pairs. Assigning to an existing key replaces its value in place; assigning to a new key appends it. The same structure also models the agent store.
- `Fleet`: blocks (integers: "Block i" is `i`), agents, the snapshot, and the defaulting lookups.
- `Sampling`: `int()` truncation, the `max(0, int(draw * scale))` clamp, and `random.uniform`.
- `Feasibility`, `Payoff`, `Objective`, `Choice`, `Product`: the parts of `objective.py`, plus `max`/`min`/`index` and `itertools.product`.
- `Strategy`: the `Strategy` class of `objective.py` and its driver `getAllStrategies`.
- `GenerateStrategy`: the stand-alone variant in `generate_strategy.py`.
- `Env`: `env.py`.
- `Sampling`, `Placement`, `Assignment`, `Scenario`: `generate_data` of `input.py`.

Behaviours of the code worth knowing, all of which the model keeps:
- **Inflow estimate:** the inflow into a block is summed over the neighbours listed for that block itself (objective.py:60).
- **Request forecast:** the forecast is truncated with `int()` (objective.py:72).
- **Raising, not defaulting:** `objectiveFunction` raises rather than defaulting. `newEvCount[action] += 1` raises KeyError for a destination outside Block 1..noOfBlocks (objective.py:42). `max` of no blocks raises ValueError (objective.py:49). With blocks and no agents, the objective is the largest request, not 0. The model returns these as `Failure` values, and the driver stops at the first one.
- **Requests are mutated:** `objectiveFunction` stores 0 for every block missing from `requests` (objective.py:45-46). The driver passes the mutated dict on, and the model threads it through. `Objective.FillIsUnobservable` and `Strategy.EvaluateAllMatches` prove the mutation is never observable.
- **Charge floor only:** the charge is clamped only below, at 0 (input.py:81). Nothing clamps it above 1.

Properties that expose edge cases of the code, stated as lemmas:
- **Dead idle test:** the idle test of input.py:75 reads the record after input.py:72 set `isIdle` to True. So the charge is drained exactly when the block changes (`Placement.RelocateCharge`).
- **Grid preconditions:** the adjacency of env.py:28-39 is correct only on a grid at least two wide with full rows. `Env.NarrowGridLeavesGrid` and `Env.RaggedGridLeavesGrid` exhibit a non-existent neighbour when either condition fails.
- **Profiles keyed by id:** the driver keys profiles by agent id. Two agents listed with the same id share one entry, which holds the last one's choice (`Strategy.PayoffStrategy`, `GenerateStrategy.GetAgents`).

## Model

| member | source | states |
|---|---|---|
| Fleet.AgentsIn | objective.py:58 | The count of agents in a block is how often the block occurs among the agents' blocks, and at most the fleet size. It equals the fleet size iff every agent is in the block, and it is 0 iff no agent is. |
| Fleet.LastListingKept | objective.py:96-106 | Filling a dict with one value per listed agent, keyed by id, leaves every id with the value assigned for its last listing. |
| Sampling.Trunc | input.py:43 | `int()` truncates toward zero. A non-negative value's result is its whole part, and a negative value's result is within 1 above it and never positive. |
| Sampling.SampledCount | input.py:11 | The clamped count `max(0, int(draw * scale))` is a natural number. It is 0 when `draw * scale < 1`, and otherwise it is the whole part of `draw * scale`, whatever the Gaussian draw. |
| Sampling.Uniform | objective.py:53-55 | `random.uniform(lo, hi)` lands in `[lo, hi)` for an underlying draw in `[0, 1)`. |
| Sampling.RandInt | env.py:13 | `random.randint(lo, hi)` lands in `lo..hi`, both ends included, for an underlying draw in `[0, 1)` and a non-empty range. |
| Feasibility.Actions | objective.py:23-26 | The candidate list is the agent's block followed by `neighbors.get(block, [])`, in order. An unknown block yields the singleton list. |
| Feasibility.FeasibleActions | objective.py:28-34 | The filter is an order-preserving sub-list of the candidates. Every action that is the current block, or whose congestion is below the threshold (0 when missing), is kept exactly as often as it occurs. Every other action is dropped. Staying survives whenever it was a candidate. |
| Feasibility.StayIsFeasible | objective.py:23-34 | The feasible list of a candidate list from getActions is non-empty and starts with the agent's own block. |
| Feasibility.FeasibleActionsUnique | objective.py:28-34 | Any order-preserving sub-list that keeps exactly the passing actions equals the filter's output, so the filter is characterised independently of its loop. |
| Payoff.TransitionProbability | objective.py:51-55 | The fraction lies in [0.5, 1) when the adjacent block holds more than half of all EVs, and in [0, 0.5) otherwise. |
| Payoff.Contribution | objective.py:63-65 | `int(evsInAdj * prob)` lies between 0 and the EVs in the adjacent block. |
| Payoff.Incoming | objective.py:61-65 | The accumulated inflow over the listed adjacent blocks lies between 0 and the sum of the EVs in them. |
| Payoff.EstimateEVs | objective.py:57-66 | The estimate lies between the EVs present in the target and those plus every EV in the target's own listed neighbours. |
| Payoff.PayoffValue | objective.py:76 | `soc * max(forecast - estimated, 0) / (tau + 1)` is non-negative for a non-negative charge, and 0 once the estimate covers the forecast. |
| Payoff.PayoffFallsWithCongestion | objective.py:75-76 | More congestion on the move never raises the payoff. |
| Payoff.PayoffRisesWithCharge | objective.py:69-76 | A fuller battery never lowers the payoff. |
| Payoff.Payoff | objective.py:68-77 | The payoff of an action, given the forecast's Gaussian draw and the inflow draws, is non-negative for a non-negative charge. It is 0 when the estimated EVs reach the clamped forecast. |
| Objective.Arrivals | objective.py:41-42 | The counting loop's count for block `b` is the multiplicity of `b` among the chosen destinations. |
| Objective.MaxResidual | objective.py:44-49 | The worst residual bounds the residual `max(req - count, 0)` of every block 1..k, and some block attains it. |
| Objective.FirstUnknown | objective.py:41-42 | The counting loop raises exactly when some destination is outside Block 1..n. Then it raises on the first such destination in profile order. With no blocks, it raises iff there is a destination at all. |
| Objective.FillMissing | objective.py:44-46 | After the fill loop, the keys are the old keys plus blocks 1..n. Old entries are unchanged. `requests.get(b, 0)` reads the same for every block. |
| Objective.ObjectiveFunction | objective.py:36-49 | objectiveFunction succeeds iff there is at least one block and every destination is a block. ValueError (empty `max`) happens only with no blocks and no agents. The requests dict is left as it was or filled with zeros. |
| Objective.ObjectiveIsWorstResidual | objective.py:36-49 | A successful objective is the worst residual against the requests as passed in: no block's residual exceeds it, and some block's equals it. |
| Objective.ResidualFromRequestOf | objective.py:44-47 | Residuals and the worst residual depend on the requests only through `requests.get(b, 0)`. |
| Objective.FillIsUnobservable | objective.py:44-47 | Evaluating any profile against the filled requests gives the value it gets against the original ones, and filling twice adds nothing. |
| Objective.SecondCallSameResult | objective.py:44-47 | A second call on the same profile, with the requests the first call left, returns the same value and leaves the requests unchanged. |
| Objective.DestinationsOnly | objective.py:41-49 | The worst residual depends only on the multiset of chosen destinations. |
| Objective.SameArrivalsSameObjective | objective.py:41-49 | Relabelling or reordering agents does not change the objective. Profiles with the same multiset of destinations succeed or fail together and score the same. |
| Objective.ArrivalNeverHurts | objective.py:41-49 | One more arriving agent never increases the worst residual. |
| Objective.AtMostLargestRequest | objective.py:44-49 | The worst residual lies between 0 and the largest request among the blocks. |
| Choice.FirstMax | objective.py:83 | `max(xs, key=...)` settles on a position holding a maximal score with no earlier maximal score. |
| Choice.FirstMaxUnique | objective.py:83 | Only one position is the first maximum, so the choice of `max` is determined. |
| Choice.Min | objective.py:130 | `min` returns an element of the list that is at most every element. |
| Choice.IndexOf | objective.py:130 | `index` returns the first position holding the value. |
| Product.Product | objective.py:112 | `itertools.product` yields as many combinations as the product of the list lengths, each picking one element from each list. |
| Product.ProductComplete | objective.py:112 | Every way of picking one element per list is among the combinations. |
| Product.ProductOrder | objective.py:112 | Lexicographic order: combination `k` takes element `k / Size(rest)` of the first list, followed by combination `k % Size(rest)` of the rest. |
| Product.ProductDistinct | generate_strategy.py:60 | When no list repeats an element, no combination repeats. |
| Product.SizePositive | objective.py:112 | With no empty list there is at least one combination. |
| Strategy.AvailableAgents | objective.py:16-21 | The flattened list is as long as all the blocks' lists together. Agent `j` of the `i`-th block's list sits at position `j` plus the lengths of the earlier lists, and the list holds exactly the agents listed under some block. |
| Strategy.ActionSet | objective.py:94-99 | The ActionSet dict has one key per distinct agent id, in first-listing order, and contains every listed agent's id. An id maps to getActions of its last listing's block. |
| Strategy.FeasibleActionSet | objective.py:101-106 | The feasible dict is keyed like ActionSet, by the distinct ids in first-listing order. An id maps to getFeasibleActions of its last listing, applied to ActionSet's entry for the id. |
| Strategy.FeasibleListsNonEmpty | objective.py:94-106 | Every listed agent has a non-empty feasible list, even when several agents share an id: the list kept is the last such agent's, which includes its own block. |
| Strategy.Scores | objective.py:83 | One score per feasible action, each non-negative for a non-negative charge. |
| Strategy.BestAction | objective.py:83 | The chosen action is a feasible one whose score is the first maximum among the scores. |
| Strategy.PayoffPairs | objective.py:81-84 | The loop assigns, for each listed agent in turn, the first-max best action over the feasible list of that agent's id. |
| Strategy.PayoffStrategy | objective.py:79-85 | The payoff profile has one entry per distinct id. Every listed agent's id maps to one of its feasible actions: the first-max best action of the id's last listing. |
| Strategy.ChoicesKept | objective.py:81-84 | Filling the profile dict keeps, for every listed agent, a feasible choice: the one assigned for its id's last listing. |
| Strategy.AllStrategies | objective.py:112-114 | The enumeration has as many profiles as the product of the feasible-list lengths. Each profile has the feasible dict's keys and maps each key to one of its feasible actions. |
| Strategy.EnumerationComplete | objective.py:112-113 | Every profile that picks one feasible action per key is enumerated. |
| Strategy.PicksFromTable | objective.py:79-85 | A profile built per agent from the feasible dict picks, key by key, from that dict's lists. |
| Strategy.EvaluateAll | objective.py:108-120 | The scoring loop yields one value per profile when it succeeds. It leaves the requests as given or filled with zeros. |
| Strategy.EvaluateAllMatches | objective.py:110-120 | Passing the mutated requests along is unobservable. The loop succeeds iff every profile's objective succeeds against the original requests, and each value is that profile's objective. |
| Strategy.FirstRaising | objective.py:112-118 | A failed scoring loop failed on a profile whose objective raises against the original requests. |
| Strategy.ProfilesNonEmpty | objective.py:101-112 | Since every feasible list is non-empty, there is at least one profile to score. |
| Strategy.Compare | objective.py:122-135 | When the comparison succeeds, the reported index is a position of the enumeration. |
| Strategy.CompareSucceeds | objective.py:118-135 | The comparison succeeds iff there is at least one profile and the payoff profile and every enumerated profile score without raising. |
| Strategy.CompareValues | objective.py:126-135 | The payoff objective is the payoff profile's score, and the best objective is the least score of the enumeration. The index is the first profile attaining it, all against the original requests. |
| Strategy.CompareOptimum | objective.py:126-135 | When the payoff profile is among the enumerated ones, the best objective never exceeds the payoff objective. |
| Strategy.GetAllStrategies | objective.py:88-135 | A successful run reports an index into the enumerated profiles. |
| Strategy.PayoffProfileEnumerated | objective.py:79-114 | The decentralised profile is one of the enumerated profiles. |
| Strategy.OptimumNeverWorseThanPayoff | objective.py:88-135 | getAllStrategies never reports a best objective above the payoff objective. It succeeds iff every enumerated profile's objective succeeds. |
| GenerateStrategy.GetAgents | generate_strategy.py:7-17 | The agent table has one key per distinct listed id, in first-listing order. Each id carries the record of its last listing, so a later duplicate id overwrites an earlier one. |
| GenerateStrategy.FromAgentPairs | generate_strategy.py:10-16 | Filling the table from the listings keeps each id's last listing. |
| GenerateStrategy.GetActionSet | generate_strategy.py:19-24 | Every agent of the table gets its block followed by `neighbors.get(block, [])`: the same list as objective.py's getActions. |
| GenerateStrategy.KeepFeasible | generate_strategy.py:30-37 | The filter loop keeps an order-preserving sub-list of the actions, no longer than the list it was given. An action is kept iff it is in the list and is the current block or has congestion below the threshold. |
| GenerateStrategy.FeasibleMatchesObjective | generate_strategy.py:26-37 | feasible_actions' filter loop equals objective.py's getFeasibleActions on all inputs. |
| GenerateStrategy.FeasibleFor | generate_strategy.py:26-37 | The feasible list is an order-preserving sub-list of the agent's actions. It contains exactly the actions that are the current block or have congestion below the threshold. |
| GenerateStrategy.Payoff | generate_strategy.py:39-43 | `soc - requests.get(action, 0)` never exceeds the charge, and equals it iff nothing is pending at the destination. |
| GenerateStrategy.BestAction | generate_strategy.py:50 | `max(actions, key=payoff)` picks a feasible action whose payoff is the first maximum among the payoffs. |
| GenerateStrategy.FirstMaxIsFirstFewest | generate_strategy.py:39-50 | The first largest payoff is the first destination with the fewest pending requests, whatever the charge. |
| GenerateStrategy.PicksFewestRequests | generate_strategy.py:39-50 | The chosen action is the first with the fewest requests, and two agents with the same candidates choose alike. |
| GenerateStrategy.StrategyProfile | generate_strategy.py:45-52 | strategy_profile yields a profile iff every agent has a feasible action; otherwise `max` raises. The profile is keyed like the agent table and maps each agent to one of its feasible actions. |
| GenerateStrategy.StrategyProfileFewest | generate_strategy.py:45-52 | Each agent of the profile gets the first of its feasible actions with the fewest pending requests. |
| GenerateStrategy.ActionSetCovers | generate_strategy.py:19-37 | The action set from get_action_set covers every agent, and every feasible list then holds the agent's own block. |
| GenerateStrategy.ProfileExists | generate_strategy.py:45-52 | With that action set, strategy_profile always produces a profile. |
| GenerateStrategy.ActionLists | generate_strategy.py:57-58 | One feasible list per agent, in table order. |
| GenerateStrategy.GenerateAllStrategy | generate_strategy.py:54-63 | As many profiles as the product of the feasible-list lengths. Each profile is keyed by the agent list and maps every agent to one of its feasible actions. |
| GenerateStrategy.EnumerationOrder | generate_strategy.py:57-62 | Profile `m` lists the `m`-th combination of the Cartesian product of the feasible lists, in agent order. |
| GenerateStrategy.EnumerationDistinct | generate_strategy.py:54-63 | When no feasible list repeats an action, every combination appears exactly once. |
| GenerateStrategy.EnumerationComplete | generate_strategy.py:54-63 | Every profile that gives each agent one of its feasible actions is enumerated. |
| GenerateStrategy.ProfileEnumerated | generate_strategy.py:45-63 | strategy_profile's result is one of the profiles generate_all_strategy enumerates. |
| Env.PyMod | env.py:32 | Python's `%` takes the sign of the divisor: it lies in [0, g) for a positive divisor and in (g, 0] for a negative one. For either sign, it differs from the dividend by a multiple of the divisor. |
| Env.GridNeighbors | env.py:24-39 | A block has at most four neighbours, listed in the order top, right, bottom, left. |
| Env.NeighborSides | env.py:28-39 | `j` is a neighbour of `i` iff it lies on a side whose grid test passes. |
| Env.NeighborsInRange | env.py:28-39 | On a grid at least two wide with full rows, every neighbour is another block of the grid, and none is listed twice. |
| Env.NeighborsDistinct | env.py:28-39 | On a grid at least two wide the four candidate neighbours are pairwise different. |
| Env.NeighborsSymmetric | env.py:28-39 | On a grid at least two wide with full rows, adjacency is symmetric. |
| Env.NarrowGridLeavesGrid | env.py:38-39 | With a grid one block wide, Block 1 lists the non-existent Block 0 as its left neighbour, so the width condition is necessary. |
| Env.RaggedGridLeavesGrid | env.py:32-33 | With a partial last row, the last block lists the non-existent Block n + 1 as its right neighbour, so the full-rows condition is necessary. |
| Env.NeighborTable | env.py:24-40 | The adjacency table has exactly the blocks 1..n as keys, each with its grid neighbours. |
| Env.DrawDist | env.py:47-50 | For draws in [0, 1), the mean lies in [0.1, 0.5) and the std in [0.01, 0.1). |
| Env.CongestionRow | env.py:56-60 | The congestion loop of a block gains exactly its listed neighbours as keys and keeps the keys it had. |
| Env.CongestionRowInRanges | env.py:56-60 | Every entry of a congestion row comes from a fresh pair of draws, so it stays in range. |
| Env.CongestionTable | env.py:45-60 | The congestion table has one row per block 1..n, keyed by exactly that block's neighbours. |
| Env.CongestionTableInRanges | env.py:55-60 | With draws from [0, 1), every congestion distribution is in range. |
| Env.GenerateParameters | env.py:19-62 | generate_parameters raises (ZeroDivisionError at env.py:32) iff there are blocks and the grid size is 0. Otherwise the parameters keep the sizes. The neighbour table is the grid adjacency of blocks 1..n, and the congestion table is built over it. The request and EV maps have exactly blocks 1..n as keys, and the congestion map has exactly each (block, neighbour) pair. |
| Env.ParametersInRanges | env.py:45-60 | With draws from [0, 1), generated parameters have every mean in [0.1, 0.5) and every std in [0.01, 0.1). |
| Env.Decimal | env.py:10 | `str(n)` is a non-empty string of decimal digits, at least two long from 10 on. |
| Env.DecimalInjective | env.py:10 | Different numbers print differently. |
| Env.AgentNameInjective | env.py:10 | Different rounds name their agents differently. |
| Env.GenerateAgents | env.py:4-17 | generate_agents raises iff it must pick a block from an empty range, with agents to create and `nblocks < 1`. Otherwise it keeps the declared count and creates exactly `noAgents` agents, the `i`-th named `Agent_{i+1}`. Each is stored under its own id and idle, with a block in 1..nblocks and a charge in [0.5, 1). |
| Env.AgentIdsDistinct | env.py:8-15 | The ids are all different, so every loop round adds a fresh entry. |
| Scenario.SampleRequests | input.py:6-11 | The requests have exactly blocks 1..n as keys, each the clamped count of its draw. |
| Scenario.CountRow | input.py:17-20 | A block's congestion row gains exactly its listed neighbours and keeps every other entry. A neighbour holds `max(0, int(gauss * scaleCongestion))` of the draw at its last listing. |
| Scenario.SampleCongestion | input.py:13-20 | The congestion has exactly blocks 1..n as keys, each row keyed by exactly that block's neighbours. Each neighbour holds the clamped count `max(0, int(gauss * scaleCongestion))` of the draw at its last listing. |
| Scenario.InitialCounts | input.py:25-32 | One clamped count per block, the whole part of its scaled draw. |
| Scenario.ScaledCount | input.py:43 | `int(c * (N / T))` with `T > N` is between 0 and `c`. It is the whole part of the `N / T` share of `c`: at most that share, and less than one below it. |
| Scenario.SumBelowShare | input.py:38-45 | Counts each within their share of the drawn ones add up to within the share of the drawn total. |
| Scenario.RemainderNonNegative | input.py:36-45 | What the last block receives is never negative. |
| Scenario.Rescale | input.py:34-47 | When more EVs were drawn than there are agents, every block but the last gets its scaled count `int(c * (N / T))`, at most its drawn count. The rescaled counts then add up to exactly noOfAgents, and no count is negative. Otherwise the drawn counts are kept unchanged. |
| Scenario.RescaledMap | input.py:34-47 | Read off the `ev_count` dict of blocks 1..n: when more EVs were drawn than there are agents, its values add up to noOfAgents, and blocks 1..n-1 hold their scaled counts. |
| Scenario.CountListOfMap | input.py:22-47 | Listing the `ev_count` dict in block order gives back the list of counts it was built from. |
| Scenario.Distribution | input.py:58-60 | `ev_distribution` lists blocks 1..n in order, each with its row. |
| Scenario.CountMap | input.py:22-47 | `ev_count` has exactly blocks 1..n as keys, block `b` holding the `(b-1)`-th count. |
| Scenario.PlaceAgents | input.py:53-99 | Each block's row lists agents moved to it and idle, never more than its count. Afterwards an agent is idle iff its record is listed, and then it is its old record relocated by its own draw. An agent not placed keeps its old record, marked busy. The rows list `min(fleet size, sum of counts)` agents, so everyone is placed iff the counts suffice. |
| Scenario.GenerateData | input.py:4-109 | generate_data's snapshot carries the timestamp, the sampled requests and congestion, and non-negative counts over blocks 1..n. They are the drawn counts when those do not exceed noOfAgents. Otherwise blocks 1..n-1 get their scaled counts and all the counts add up to noOfAgents. Each row holds agents moved to its block and idle, no more than its count. Afterwards an agent is idle iff its record is listed. A listed agent at position `p` of the shuffle is its old record relocated with the `p`-th reduction draw. An agent left over keeps its old record, marked busy. Exactly `min(fleet size, drawn total, noOfAgents)` agents are listed. |
| Scenario.RowsTotal | input.py:57-92 | The rows together list the fleet or the counts' sum, whichever is smaller. |
| Scenario.PlacedCount | input.py:57-92 | The agents placed are the fleet or the counts' sum, whichever is smaller. |
| Scenario.AllIdleIffEnough | input.py:57-99 | Everyone ends up idle exactly when the counts leave room for the whole fleet. |
| Scenario.AllIdleIffAllTaken | input.py:94-99 | Everyone ends up idle exactly when the whole shuffled order was taken. |
| Scenario.IdleIffListed | input.py:86-99 | After the placement and the marking, an agent is idle iff it was taken, iff its record is listed in the distribution. An agent not taken keeps its old record, marked busy. |
| Scenario.PlacedRelocated | input.py:63-92 | Every agent idle afterwards was moved to one of the blocks, with its charge drained by the draw at its own position in the order. |
| Scenario.TakenIsListed | input.py:63-90 | A taken agent's final record is idle, lies in a block 1..n, is listed in the distribution, and is its old record relocated. |
| Scenario.DistributionShape | input.py:58-86 | Each block's row holds agents moved to that block and idle, no more than the block's count. |
| Scenario.ListedAreIdle | input.py:72-86 | Every record listed in the distribution is idle. |
| Placement.Relocate | input.py:68-81 | A placed agent keeps its id, is moved to the new block and is idle. |
| Placement.RelocateCharge | input.py:68-81 | The charge is kept when the agent stays. Otherwise it is drained by the drawn fraction, never below 0. With a fraction in [0.05, 0.15] it ends between 0 and where it was. A positive charge falls iff the block changes, because the idle test reads the record already marked idle. |
| Placement.Cap | input.py:64 | Taking stops once the order is used up: the number of agents taken never exceeds the order's length. |
| Placement.PlacedAt | input.py:65-86 | The record placed from a position of the order keeps that agent's id, is in the block being filled and is idle. |
| Placement.ExpectedRow | input.py:63-92 | A block receives the next agents of the order, as many as its count while any remain. |
| Placement.ShuffleMembers | input.py:50-51 | A shuffle of the keys lists exactly the store's keys, as many as there are. |
| Placement.RowSize | input.py:63-64 | A block receives at most its count (none for a negative count), and exactly its count while the order lasts. |
| Placement.StartIsSum | input.py:57-63 | With no negative count, a block's first agent sits after exactly the sum of the counts before it. |
| Placement.MarkUnassigned | input.py:97-99 | The marking keeps every key and every placed agent's record, and marks every other agent busy. |
| Placement.IdleAfterMarking | input.py:97-99 | Only the placed agents can still be idle after the marking. |
| Assignment.FillBlock | input.py:63-92 | The inner loop takes exactly the block's expected agents from the order, in order. It records each under its id and marks it assigned, and no other record changes. |
| Assignment.Take | input.py:65-92 | One round of the inner loop extends the row, the store and the assigned set by the next agent of the order, relocated. |
| Assignment.Assign | input.py:57-92 | The placement loops fill every block with its expected row and take a prefix of the order. They record every placed agent's new record under its id and leave every other record as it was. |

## Left out

- Random number generation is not modelled; every draw is a parameter. The draws are `random.gauss` in objective.py:72 and input.py:11, 20, 30; `random.uniform` in objective.py:53-55, input.py:78 and env.py:11, 48-59; `random.randint` in env.py:13; and `random.shuffle` in input.py:51. The distributions themselves cannot be stated. Where a range matters, the contracts take the underlying draw to lie in [0, 1).
- Draw order: the payoff's draws are indexed by agent, action and adjacent block (`Strategy.Sampler`), and the charge reductions by position in the shuffled order. The model does not follow the exact order in which one global random stream would serve them.
- Floating point: reals are exact. `int(x * scale)` and `soc * (1 - r)` are modelled over Dafny `real` with truncation toward zero. `int(c * (N / T))` uses the exact quotient `N / T`.
- `round(…, 2)` of the initial charge in env.py:11 is not modelled: the drawn charge is kept exactly.
- Block names: blocks are integers ("Block i" is `i`). generate_agents names blocks "Block_k" (env.py:13) while everything else uses "Block k". This mismatch makes the first placement always count as a change of block. It is not modelled.
- Missing distribution entries: a missing entry in the distribution tables raises KeyError in the source (objective.py:70-71, input.py:9-10, 18-19, 28-29). The model reads the draws directly and requires the neighbour table to cover blocks 1..n, as generate_parameters guarantees.
- `agent_info.get("block", None)` (input.py:68): the default is not modelled, because every agent record has a block.
- Python dict aliasing: the agent store is updated functionally. The one observable consequence of aliasing is kept: the idle test of input.py:75 reads the record already marked idle (input.py:72).
- The inner placement loop keeps iterating `range(count)` after the order is used up, doing nothing. The model stops those rounds early, which is equivalent.
- Printing in `getAllStrategies`, the `__main__` blocks, JSON reading and writing (`load_data`, `json.load`, `json.dump`) and the matplotlib plot are left out: they are I/O and presentation.
- The `Strategy` constructor's `totalTimestamps`, `gridSize` and `testcaseData` fields are not modelled; `GetAllStrategies` takes the timestamp's snapshot directly.
- The payoff's sign is stated for agents with a non-negative charge only. Both generators produce such charges; nothing else checks it.
- Strategy.Compare: its own contract only bounds the reported index. The payoff objective, the least objective and its first index are stated by `Strategy.CompareValues`, and when the comparison succeeds by `Strategy.CompareSucceeds`.
- Scenario.GenerateData: it takes `noOfAgents` as a natural number, so a negative agent count is not modelled. generate_agents stores whatever count it is given. With a negative count, input.py:34 always holds. If no EVs were drawn, input.py:35 then raises ZeroDivisionError; otherwise input.py:43-45 produce negative counts, for which input.py:63 places nobody.
- Scenario.Rescale: takes `noOfAgents` as a natural number for the same reason. Its contracts (non-negative counts, a non-negative last count) hold only for a non-negative agent count.
- Strategy.GetAllStrategies: its own contract only bounds the reported index. The full characterisation (value, optimality, failure) is in `Strategy.CompareValues`, `Strategy.CompareSucceeds` and `Strategy.OptimumNeverWorseThanPayoff`.
- Placement.Relocate: its own contract states the id, block and idle flag only. The charge is stated by `Placement.RelocateCharge`.
- Objective.ObjectiveFunction: its own contract states when it succeeds and how it leaves the requests. The value is stated by `Objective.ObjectiveIsWorstResidual`.
