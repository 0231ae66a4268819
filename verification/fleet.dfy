/**
 * The records shared by the simulator's stages: blocks, agents and the
 * per-timestamp scenario snapshot, with the defaulting lookups the source
 * performs on them.
 */
module Fleet {
  import opened Wrappers
  import opened Dict

  /** Block `i` of the grid, which the simulator names "Block i". */
  type Block = int

  type AgentId = string

  /** An EV: where it is, its state of charge and whether it is idle. */
  datatype Agent = Agent(id: AgentId, block: Block, soc: real, isIdle: bool)

  /** Block -> its adjacent blocks, in order. */
  type Neighbors = map<Block, seq<Block>>

  /** From-block -> to-block -> congestion count. */
  type Congestion = map<Block, map<Block, nat>>

  /** Block -> pending charging requests. */
  type Requests = map<Block, nat>

  /** One timestamp of the generated test case. */
  datatype Snapshot = Snapshot(
    timeStamp: int,
    evCount: map<Block, int>,
    evDistribution: Dict<Block, seq<Agent>>,
    requests: Requests,
    congestion: Congestion)

  /** `neighbors.get(b, [])`. */
  function NeighborsOf(nbrs: Neighbors, b: Block): seq<Block>
  {
    if b in nbrs then nbrs[b] else []
  }

  /** `congestion.get(from, {}).get(to, 0)`. */
  function CongestionOf(cong: Congestion, from: Block, to: Block): nat
  {
    if from in cong && to in cong[from] then cong[from][to] else 0
  }

  /** `requests.get(b, 0)`. */
  function RequestOf(req: Requests, b: Block): nat
  {
    if b in req then req[b] else 0
  }

  /** The agents' ids, in order. */
  function Ids(agents: seq<Agent>): (ids: seq<AgentId>)
    ensures |ids| == |agents|
  {
    seq(|agents|, i requires 0 <= i < |agents| => agents[i].id)
  }

  /** No agent after position `i` carries the id of the agent at `i`: its listing is the id's last. */
  predicate LastListed(agents: seq<Agent>, i: int)
    requires 0 <= i < |agents|
  {
    forall k :: i < k < |agents| ==> agents[k].id != agents[i].id
  }

  /** The last listing of the id listed at `i`. */
  lemma LastListing(agents: seq<Agent>, i: int) returns (j: int)
    requires 0 <= i < |agents|
    ensures i <= j < |agents| && agents[j].id == agents[i].id && LastListed(agents, j)
    decreases |agents| - i
  {
    if LastListed(agents, i) {
      j := i;
    } else {
      var k :| i < k < |agents| && agents[k].id == agents[i].id;
      j := LastListing(agents, k);
    }
  }

  /**
   * Assigning one value per listed agent, under the agent's id, leaves each
   * id holding the value assigned at its last listing.
   */
  lemma LastListingKept<V>(agents: seq<Agent>, ps: seq<(AgentId, V)>)
    requires Keys(ps) == Ids(agents)
    ensures forall i :: 0 <= i < |agents| && LastListed(agents, i) ==> Get(FromPairs(ps), agents[i].id) == Some(ps[i].1)
  {
    forall i | 0 <= i < |agents| && LastListed(agents, i)
      ensures Get(FromPairs(ps), agents[i].id) == Some(ps[i].1)
    {
      assert Keys(ps)[i] == agents[i].id;
      assert LastWithKey(ps, i) by {
        forall j | i < j < |ps|
          ensures ps[j].0 != ps[i].0
        {
          assert Keys(ps)[j] == agents[j].id;
        }
      }
    }
  }

  /** The agents' blocks, in order. */
  function Blocks(agents: seq<Agent>): (bs: seq<Block>)
    ensures |bs| == |agents|
    ensures forall i :: 0 <= i < |agents| ==> bs[i] == agents[i].block
  {
    seq(|agents|, i requires 0 <= i < |agents| => agents[i].block)
  }

  /**
   * `sum(1 for agent in agents if agent['block'] == b)`: how often `b` occurs
   * among the agents' blocks. It is the whole fleet exactly when every agent
   * is in `b`, and nothing exactly when none is.
   */
  function AgentsIn(agents: seq<Agent>, b: Block): (c: nat)
    ensures c == multiset(Blocks(agents))[b]
    ensures c <= |agents|
    ensures c == |agents| <==> forall a :: a in agents ==> a.block == b
    ensures c == 0 <==> forall a :: a in agents ==> a.block != b
  {
    if |agents| == 0 then 0
    else
      var rest := agents[1..];
      assert forall a :: a in agents <==> a == agents[0] || a in rest;
      assert Blocks(agents) == [agents[0].block] + Blocks(rest);
      (if agents[0].block == b then 1 else 0) + AgentsIn(rest, b)
  }
}
