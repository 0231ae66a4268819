/**
 * input.py (generate_data): one timestamp of the test case. It draws the
 * requests, congestion and initial EV counts, scales the counts down to the
 * fleet size, places shuffled agents block by block, moving each placed
 * agent (and draining its charge when it changes block), and marks every
 * agent left over as busy.
 */
module Scenario {
  import opened Wrappers
  import opened Seqs
  import opened Dict
  import opened Fleet
  import opened Sampling
  import opened Placement
  import opened Assignment

  /** `requests[Block b] = max(0, int(gauss * scaleRequest))` for blocks 1..n. */
  function SampleRequests(n: int, scale: int, draw: Block -> real): (req: Requests)
    ensures forall b :: b in req <==> 1 <= b <= n
    ensures forall b :: b in req && draw(b) * scale as real < 1.0 ==> req[b] == 0
    ensures forall b :: b in req && 0.0 <= draw(b) * scale as real ==>
      req[b] as real <= draw(b) * scale as real < req[b] as real + 1.0
  {
    map b | 1 <= b <= n :: SampledCount(draw(b), scale)
  }

  /**
   * The congestion row of one block: one clamped count per listed
   * neighbour, drawn in list order, a neighbour listed twice keeping its
   * last draw.
   */
  function CountRow(nbrs: seq<Block>, scale: int, draw: nat -> real, m: nat, row: map<Block, nat>): (r: map<Block, nat>)
    requires m <= |nbrs|
    ensures forall j :: j in r <==> j in row || j in nbrs[m..]
    ensures forall j :: j in row && j !in nbrs[m..] ==> r[j] == row[j]
    ensures forall p :: m <= p < |nbrs| && LastAt(nbrs, p) ==>
      nbrs[p] in r && r[nbrs[p]] == SampledCount(draw(p), scale)
    decreases |nbrs| - m
  {
    if m == |nbrs| then row
    else
      var r := CountRow(nbrs, scale, draw, m + 1, row[nbrs[m] := SampledCount(draw(m), scale)]);
      assert LastAt(nbrs, m) ==> nbrs[m] !in nbrs[m + 1..];
      assert forall p :: m <= p < |nbrs| ==> nbrs[p] in nbrs[m..];
      r
  }

  /** No later position of `s` holds the element at `p`: `p` is its last listing. */
  predicate LastAt(s: seq<Block>, p: int)
    requires 0 <= p < |s|
  {
    forall q :: p < q < |s| ==> s[q] != s[p]
  }

  /** `congestion[Block b][nb] = max(0, int(gauss * scaleCongestion))` for each neighbour `nb` of each block. */
  function SampleCongestion(n: int, nbrs: Neighbors, scale: int, draw: (Block, nat) -> real): (cong: Congestion)
    requires forall b :: 1 <= b <= n ==> b in nbrs
    ensures forall b :: b in cong <==> 1 <= b <= n
    ensures forall b :: b in cong ==> forall j :: j in cong[b] <==> j in nbrs[b]
    ensures forall b, p :: 1 <= b <= n && 0 <= p < |nbrs[b]| && LastAt(nbrs[b], p) ==>
      b in cong && nbrs[b][p] in cong[b] && cong[b][nbrs[b][p]] == SampledCount(draw(b, p), scale)
  {
    map b | 1 <= b <= n :: CountRow(nbrs[b], scale, (m: nat) => draw(b, m), 0, map[])
  }

  /** `initial_counts`: the clamped EV count drawn for each of blocks 1..n, in block order. */
  function InitialCounts(n: int, scale: int, draw: Block -> real): (counts: seq<nat>)
    ensures |counts| == if n < 0 then 0 else n
    ensures forall k :: 0 <= k < |counts| && 0.0 <= draw(k + 1) * scale as real ==>
      counts[k] as real <= draw(k + 1) * scale as real < counts[k] as real + 1.0
  {
    seq(if n < 0 then 0 else n, k requires 0 <= k => InitialCount(k + 1, scale, draw))
  }

  function InitialCount(b: Block, scale: int, draw: Block -> real): nat
  {
    SampledCount(draw(b), scale)
  }

  /** The sum of a sequence of counts is a count. */
  lemma {:induction false} SumNonNegative(s: seq<nat>)
    ensures Sum(s) >= 0
  {
    if |s| > 0 {
      SumNonNegative(s[..|s| - 1]);
    }
  }

  /** `int(c * (n / t))`, the scaled count of a block: the whole part of the `n / t` share of `c`. */
  function ScaledCount(c: nat, n: nat, t: int): (s: int)
    requires t > n
    ensures 0 <= s <= c && WithinShare(s, c, n as real / t as real)
    ensures c as real * (n as real / t as real) < (s + 1) as real
  {
    var factor := n as real / t as real;
    assert 0.0 <= factor < 1.0;
    assert 0.0 <= c as real * factor <= c as real;
    Trunc(c as real * factor)
  }

  /** Adding a block keeps the scaled counts within the scaled total of the drawn ones. */
  lemma ScaledStep(factor: real, sumScaled: int, sumDrawn: int, c: int, scaled: int)
    requires WithinShare(sumScaled, sumDrawn, factor) && WithinShare(scaled, c, factor)
    ensures WithinShare(sumScaled + scaled, sumDrawn + c, factor)
  {
    assert factor * (sumDrawn + c) as real == factor * sumDrawn as real + factor * c as real;
  }

  /** `s` is at most the `factor` share of `c`. */
  ghost predicate WithinShare(s: int, c: int, factor: real)
  {
    s as real <= factor * c as real
  }

  /** Counts each within its share of the drawn ones add up to within the share of the drawn total. */
  lemma {:induction false} SumBelowShare(scaled: seq<int>, drawn: seq<int>, factor: real)
    requires |scaled| == |drawn|
    requires forall j :: 0 <= j < |scaled| ==> WithinShare(scaled[j], drawn[j], factor)
    ensures WithinShare(Sum(scaled), Sum(drawn), factor)
  {
    if |scaled| > 0 {
      var n := |scaled| - 1;
      SumBelowShare(scaled[..n], drawn[..n], factor);
      ScaledStep(factor, Sum(scaled[..n]), Sum(drawn[..n]), drawn[n], scaled[n]);
    }
  }

  /** What the last block receives is never negative. */
  lemma RemainderNonNegative(factor: real, sumScaled: int, sumDrawn: int, total: int, noOfAgents: nat)
    requires total > 0 && factor == noOfAgents as real / total as real
    requires WithinShare(sumScaled, sumDrawn, factor) && sumDrawn <= total
    ensures noOfAgents - sumScaled >= 0
  {
    assert factor >= 0.0;
    assert factor * total as real - factor * sumDrawn as real == factor * (total - sumDrawn) as real;
    assert factor * total as real == noOfAgents as real;
  }

  /**
   * The rescaling of input.py: when more EVs were drawn than there are
   * agents, each block but the last gets its count scaled by
   * noOfAgents / total (truncated), and the last block gets what remains;
   * otherwise the drawn counts are kept. The rescaled counts then add up to
   * exactly the number of agents, never exceed the drawn ones (but for the
   * last block), and never go negative.
   */
  method Rescale(initial: seq<nat>, noOfAgents: nat) returns (evCount: seq<int>)
    ensures |evCount| == |initial|
    ensures Sum(initial) <= noOfAgents ==> evCount == initial
    ensures Sum(initial) > noOfAgents ==> forall k :: 0 <= k < |initial| - 1 ==>
      evCount[k] == ScaledCount(initial[k], noOfAgents, Sum(initial)) && evCount[k] <= initial[k]
    ensures forall k :: 0 <= k < |evCount| ==> 0 <= evCount[k]
    ensures Sum(evCount) == if Sum(initial) <= noOfAgents then Sum(initial) else noOfAgents
  {
    var total := Sum(initial);
    if total <= noOfAgents {
      return initial;
    }
    assert |initial| > 0;
    var n := |initial|;
    var remaining := noOfAgents;
    evCount := [];
    var k := 0;
    while k < n
      invariant k <= n && Rescaling(initial, noOfAgents, k, evCount, remaining)
    {
      if k == n - 1 {
        RescaleLast(initial, noOfAgents, k, evCount, remaining);
        evCount := evCount + [remaining];
      } else {
        var scaled := ScaledCount(initial[k], noOfAgents, total);
        RescaleNext(initial, noOfAgents, k, evCount, remaining);
        evCount := evCount + [scaled];
        remaining := remaining - scaled;
      }
      k := k + 1;
    }
  }

  /**
   * The state of the rescaling loop after `k` blocks: `remaining` agents are
   * left for the blocks to come, no count is negative, and every block but
   * the last got its scaled count, at most its share of the drawn count;
   * once all blocks are done, the counts add up to noOfAgents.
   */
  ghost predicate Rescaling(initial: seq<nat>, noOfAgents: nat, k: nat, evCount: seq<int>, remaining: int)
  {
    Sum(initial) > noOfAgents && |evCount| == k && k <= |initial|
    && (k < |initial| ==> remaining == noOfAgents - Sum(evCount))
    && (k == |initial| ==> Sum(evCount) == noOfAgents)
    && (forall j :: 0 <= j < k ==> 0 <= evCount[j])
    && forall j :: 0 <= j < k && j < |initial| - 1 ==>
      evCount[j] == ScaledCount(initial[j], noOfAgents, Sum(initial))
      && evCount[j] <= initial[j] && WithinShare(evCount[j], initial[j], noOfAgents as real / Sum(initial) as real)
  }

  /** A block before the last gets its scaled count. */
  lemma RescaleNext(initial: seq<nat>, noOfAgents: nat, k: nat, evCount: seq<int>, remaining: int)
    requires Rescaling(initial, noOfAgents, k, evCount, remaining) && k < |initial| - 1
    ensures var scaled := ScaledCount(initial[k], noOfAgents, Sum(initial));
      Rescaling(initial, noOfAgents, k + 1, evCount + [scaled], remaining - scaled)
  {
    var scaled := ScaledCount(initial[k], noOfAgents, Sum(initial));
    SumOfSnoc(evCount, scaled);
    var next := evCount + [scaled];
    assert next[k] == scaled;
    assert forall j :: 0 <= j < k ==> next[j] == evCount[j];
  }

  /** The last block gets what remains, which is not negative. */
  lemma RescaleLast(initial: seq<nat>, noOfAgents: nat, k: nat, evCount: seq<int>, remaining: int)
    requires Rescaling(initial, noOfAgents, k, evCount, remaining) && k == |initial| - 1
    ensures Rescaling(initial, noOfAgents, k + 1, evCount + [remaining], remaining)
  {
    var total := Sum(initial);
    var factor := noOfAgents as real / total as real;
    SumPrefix(initial, k);
    assert initial[..k + 1] == initial;
    SumBelowShare(evCount, initial[..k], factor);
    SumNonNegative([initial[k]]);
    RemainderNonNegative(factor, Sum(evCount), Sum(initial[..k]), total, noOfAgents);
    SumOfSnoc(evCount, remaining);
    var next := evCount + [remaining];
    assert forall j :: 0 <= j < k ==> next[j] == evCount[j];
  }

  /** The sum after appending one element. */
  lemma SumOfSnoc(s: seq<int>, x: int)
    ensures Sum(s + [x]) == Sum(s) + x
  {
    assert (s + [x])[..|s|] == s;
  }

  /** The random choices one call of generate_data makes, in the order it makes them. */
  datatype Randomness = Randomness(
    request: Block -> real,
    congestion: (Block, nat) -> real,
    ev: Block -> real,
    order: seq<AgentId>,
    reduction: nat -> real)

  /** `ev_distribution`: block k + 1 lists the agents of the `k`-th row, blocks in order. */
  function Distribution(placed: seq<seq<Agent>>): (d: Dict<Block, seq<Agent>>)
    ensures |d| == |placed| && Keyed(d)
    ensures forall k :: 0 <= k < |placed| ==> d[k].0 == k + 1 && d[k].1 == placed[k]
  {
    var d := seq(|placed|, k requires 0 <= k < |placed| => (k + 1, placed[k]));
    assert forall i :: 0 <= i < |d| ==> Keys(d)[i] == i + 1;
    d
  }

  /** `ev_count` as a dict over blocks 1..n. */
  function CountMap(counts: seq<int>): (m: map<Block, int>)
    ensures forall b :: b in m <==> 1 <= b <= |counts|
    ensures forall b :: b in m ==> m[b] == counts[b - 1]
  {
    map b | 1 <= b <= |counts| :: CountOf(counts, b)
  }

  /** The counts of blocks 1..len of a count map, in block order. */
  function CountList(m: map<Block, int>, len: nat): (counts: seq<int>)
    requires forall b :: 1 <= b <= len ==> b in m
    ensures |counts| == len && forall k :: 0 <= k < len ==> counts[k] == m[k + 1]
  {
    seq(len, k requires 0 <= k < len => m[k + 1])
  }

  /** Listing a count map in block order gives back the counts it was built from. */
  lemma CountListOfMap(counts: seq<int>)
    ensures CountList(CountMap(counts), |counts|) == counts
  {
    var back := CountList(CountMap(counts), |counts|);
    assert forall k :: 0 <= k < |counts| ==> back[k] == counts[k];
  }

  /** What Rescale promises about the counts, read off the count map of generate_data. */
  lemma RescaledMap(initial: seq<nat>, noOfAgents: nat, counts: seq<int>)
    requires |counts| == |initial|
    requires Sum(initial) > noOfAgents ==> forall k :: 0 <= k < |initial| - 1 ==>
      counts[k] == ScaledCount(initial[k], noOfAgents, Sum(initial))
    requires Sum(counts) == if Sum(initial) <= noOfAgents then Sum(initial) else noOfAgents
    ensures Sum(initial) > noOfAgents ==>
      && Sum(CountList(CountMap(counts), |initial|)) == noOfAgents
      && forall b :: 1 <= b < |initial| ==> CountMap(counts)[b] == ScaledCount(initial[b - 1], noOfAgents, Sum(initial))
  {
    CountListOfMap(counts);
  }

  /** The count of block `b`, the (b-1)-th of the list. */
  function CountOf(counts: seq<int>, b: Block): int
    requires 1 <= b <= |counts|
  {
    counts[b - 1]
  }

  /** The record `a` is listed under some block of the distribution. */
  ghost predicate Listed(rows: Dict<Block, seq<Agent>>, a: Agent)
  {
    exists k :: 0 <= k < |rows| && a in rows[k].1
  }

  /**
   * generate_data: one timestamp of the test case, and the agent store as
   * the call leaves it. The counts are the drawn ones, rescaled to
   * noOfAgents when more were drawn; the agents are placed and marked as
   * PlaceAgents states, so the number of agents listed is the smallest of
   * the fleet size, the drawn total and noOfAgents. When more EVs were
   * drawn than there are agents, blocks 1..n-1 get their scaled counts and
   * all the counts add up to noOfAgents. An agent placed at position `p` of
   * the shuffled order moved by the `p`-th reduction draw.
   */
  method GenerateData(timeStamp: int, n: int, nbrs: Neighbors, noOfAgents: nat, agents: Store,
                      scaleEv: int, scaleRequest: int, scaleCongestion: int, rnd: Randomness)
    returns (data: Snapshot, after: Store)
    requires forall b :: 1 <= b <= n ==> b in nbrs
    requires Keyed(agents) && IsShuffle(rnd.order, agents)
    ensures data.timeStamp == timeStamp
    ensures data.requests == SampleRequests(n, scaleRequest, rnd.request)
    ensures data.congestion == SampleCongestion(n, nbrs, scaleCongestion, rnd.congestion)
    ensures forall b :: b in data.evCount <==> 1 <= b <= n
    ensures forall b :: b in data.evCount ==> data.evCount[b] >= 0
    ensures Sum(InitialCounts(n, scaleEv, rnd.ev)) <= noOfAgents ==>
      forall b :: b in data.evCount ==> data.evCount[b] == InitialCounts(n, scaleEv, rnd.ev)[b - 1]
    ensures Keyed(data.evDistribution) && |data.evDistribution| == |InitialCounts(n, scaleEv, rnd.ev)|
    ensures forall k :: 0 <= k < |data.evDistribution| ==>
      var (b, row) := data.evDistribution[k];
      b == k + 1 && b in data.evCount && |row| <= data.evCount[b]
      && forall a :: a in row ==> a.block == b && a.isIdle
    ensures Keyed(after) && Keys(after) == Keys(agents)
    ensures forall id :: id in Keys(after) ==>
      (Lookup(after, id).isIdle <==> Listed(data.evDistribution, Lookup(after, id)))
    ensures forall id :: id in Keys(after) && !Lookup(after, id).isIdle ==>
      Lookup(after, id) == Lookup(agents, id).(isIdle := false)
    ensures var initial := InitialCounts(n, scaleEv, rnd.ev);
      Sum(initial) > noOfAgents ==>
        && Sum(CountList(data.evCount, |initial|)) == noOfAgents
        && forall b :: 1 <= b < |initial| ==> data.evCount[b] == ScaledCount(initial[b - 1], noOfAgents, Sum(initial))
    ensures forall p :: 0 <= p < |rnd.order| ==> rnd.order[p] in Keys(after)
    ensures forall p :: 0 <= p < |rnd.order| && Lookup(after, rnd.order[p]).isIdle ==>
      1 <= Lookup(after, rnd.order[p]).block <= |data.evDistribution|
      && RelocatedBy(Lookup(agents, rnd.order[p]), Lookup(after, rnd.order[p]), rnd.reduction(p))
    ensures Sum(Sizes(data.evDistribution)) == Smaller(|agents|, Smaller(Sum(InitialCounts(n, scaleEv, rnd.ev)), noOfAgents))
    ensures (forall id :: id in Keys(after) ==> Lookup(after, id).isIdle) <==>
      (|agents| <= Sum(InitialCounts(n, scaleEv, rnd.ev)) && |agents| <= noOfAgents)
  {
    var requests := SampleRequests(n, scaleRequest, rnd.request);
    var congestion := SampleCongestion(n, nbrs, scaleCongestion, rnd.congestion);
    var initial := InitialCounts(n, scaleEv, rnd.ev);
    var counts := Rescale(initial, noOfAgents);
    var rows;
    rows, after := PlaceAgents(agents, rnd.order, counts, rnd.reduction);
    data := Snapshot(timeStamp, CountMap(counts), rows, requests, congestion);
    RescaledMap(initial, noOfAgents, counts);
  }

  /**
   * The placement and the marking of generate_data for given counts. Every
   * block's row lists agents moved to it and idle, never more than its
   * count; afterwards an agent is idle exactly when its record is listed
   * under some block, and then it is its old record relocated; an agent
   * that is not keeps its old record but is marked busy. The rows list as
   * many agents as the fleet has or the counts add up to, whichever is
   * smaller, so everyone is placed exactly when the counts suffice.
   */
  method PlaceAgents(agents: Store, order: seq<AgentId>, counts: seq<int>, reduction: nat -> real)
    returns (rows: Dict<Block, seq<Agent>>, after: Store)
    requires Keyed(agents) && IsShuffle(order, agents)
    requires forall k :: 0 <= k < |counts| ==> 0 <= counts[k]
    ensures Keyed(rows) && |rows| == |counts|
    ensures forall k :: 0 <= k < |rows| ==>
      var (b, row) := rows[k];
      b == k + 1 && b in CountMap(counts) && |row| <= CountMap(counts)[b]
      && forall a :: a in row ==> a.block == b && a.isIdle
    ensures Keyed(after) && Keys(after) == Keys(agents)
    ensures forall id :: id in Keys(after) ==>
      (Lookup(after, id).isIdle <==> Listed(rows, Lookup(after, id)))
    ensures forall id :: id in Keys(after) && !Lookup(after, id).isIdle ==>
      Lookup(after, id) == Lookup(agents, id).(isIdle := false)
    ensures forall p :: 0 <= p < |order| ==> order[p] in Keys(after)
    ensures forall p :: 0 <= p < |order| && Lookup(after, order[p]).isIdle ==>
      1 <= Lookup(after, order[p]).block <= |counts|
      && RelocatedBy(Lookup(agents, order[p]), Lookup(after, order[p]), reduction(p))
    ensures Sum(Sizes(rows)) == Smaller(|agents|, Sum(counts))
    ensures (forall id :: id in Keys(after) ==> Lookup(after, id).isIdle) <==> |agents| <= Sum(counts)
  {
    ShuffleMembers(order, agents);
    var placed, next, updated, taken := Assign(agents, order, counts, reduction);
    after := MarkUnassigned(updated, taken);
    rows := Distribution(placed);
    DistributionShape(agents, order, counts, reduction, placed, rows);
    IdleIffListed(agents, order, counts, reduction, placed, rows, next, updated, taken, after);
    PlacedRelocated(agents, order, counts, reduction, placed, next, updated, taken, after);
    RowsTotal(agents, order, counts, reduction, placed, rows);
    AllIdleIffEnough(agents, order, counts, next, taken, after);
  }

  /** The rows together list the fleet or the counts' sum, whichever is smaller. */
  lemma RowsTotal(agents: Store, order: seq<AgentId>, counts: seq<int>, reduction: nat -> real,
                  placed: seq<seq<Agent>>, rows: Dict<Block, seq<Agent>>)
    requires |order| == |agents| && forall p :: 0 <= p < |order| ==> order[p] in Keys(agents)
    requires forall k :: 0 <= k < |counts| ==> 0 <= counts[k]
    requires |placed| == |counts|
    requires forall k :: 0 <= k < |counts| ==> placed[k] == ExpectedRow(agents, order, counts, reduction, k)
    requires rows == Distribution(placed)
    ensures Sum(Sizes(rows)) == Smaller(|agents|, Sum(counts))
  {
    ListedTotal(agents, order, counts, reduction, placed, |counts|);
    assert Sizes(rows)[..|counts|] == Sizes(rows);
    PlacedCount(counts, order);
  }

  /** Everyone ends up idle exactly when the counts leave room for the whole fleet. */
  lemma AllIdleIffEnough(agents: Store, order: seq<AgentId>, counts: seq<int>, next: nat, taken: set<AgentId>, after: Store)
    requires IsShuffle(order, agents)
    requires forall k :: 0 <= k < |counts| ==> 0 <= counts[k]
    requires next == Cap(order, Start(counts, |counts|)) && Keys(after) == Keys(agents)
    requires forall id :: id in taken <==> id in order[..next]
    requires forall id :: id in Keys(after) ==> (Lookup(after, id).isIdle <==> id in taken)
    ensures (forall id :: id in Keys(after) ==> Lookup(after, id).isIdle) <==> |agents| <= Sum(counts)
  {
    ShuffleMembers(order, agents);
    PlacedCount(counts, order);
    AllIdleIffAllTaken(agents, order, next, taken, after);
  }

  /** With no negative count, the agents placed are the fleet or the counts' sum, whichever is smaller. */
  lemma PlacedCount(counts: seq<int>, order: seq<AgentId>)
    requires forall k :: 0 <= k < |counts| ==> 0 <= counts[k]
    ensures Cap(order, Start(counts, |counts|)) == Smaller(|order|, Sum(counts))
  {
    StartIsSum(counts, |counts|);
    assert counts[..|counts|] == counts;
  }

  /** `min(a, b)`. */
  function Smaller(a: int, b: int): int
  {
    if a <= b then a else b
  }

  /** The number of agents each block's row lists, in block order. */
  function Sizes(rows: Dict<Block, seq<Agent>>): (s: seq<int>)
    ensures |s| == |rows|
  {
    seq(|rows|, k requires 0 <= k < |rows| => |rows[k].1|)
  }

  /** The first `k` rows together list as many agents as the first `k` blocks took from the order. */
  lemma {:induction false} ListedTotal(agents: Store, order: seq<AgentId>, counts: seq<int>, reduction: nat -> real,
                                       placed: seq<seq<Agent>>, k: nat)
    requires forall p :: 0 <= p < |order| ==> order[p] in Keys(agents)
    requires |placed| == |counts| && k <= |counts|
    requires forall k :: 0 <= k < |counts| ==> placed[k] == ExpectedRow(agents, order, counts, reduction, k)
    ensures Sum(Sizes(Distribution(placed))[..k]) == Cap(order, Start(counts, k))
  {
    if k > 0 {
      ListedTotal(agents, order, counts, reduction, placed, k - 1);
      SumPrefix(Sizes(Distribution(placed)), k - 1);
      RowSize(order, counts, k - 1);
      assert placed[k - 1] == ExpectedRow(agents, order, counts, reduction, k - 1);
    }
  }

  /**
   * After the placement and the marking, an agent is idle exactly when it
   * was taken, and then its record is listed under the block it was
   * placed in; an agent not taken keeps its old record, marked busy.
   */
  lemma IdleIffListed(agents: Store, order: seq<AgentId>, counts: seq<int>, reduction: nat -> real,
                      placed: seq<seq<Agent>>, rows: Dict<Block, seq<Agent>>, next: nat, updated: Store, taken: set<AgentId>, after: Store)
    requires Keyed(agents) && Distinct(order) && forall p :: 0 <= p < |order| ==> order[p] in Keys(agents)
    requires next == Cap(order, Start(counts, |counts|))
    requires forall id :: id in taken <==> id in order[..next]
    requires |placed| == |counts|
    requires forall k :: 0 <= k < |counts| ==> placed[k] == ExpectedRow(agents, order, counts, reduction, k)
    requires Keys(updated) == Keys(agents)
    requires forall k :: 0 <= k < |counts| ==> Cap(order, Start(counts, k)) + |placed[k]| <= |order|
    requires Recorded(updated, order, counts, placed, |counts|)
    requires forall id :: id !in taken ==> Get(updated, id) == Get(agents, id)
    requires rows == Distribution(placed) && after == MarkUnassigned(updated, taken)
    ensures forall id :: id in Keys(after) ==> (Lookup(after, id).isIdle <==> id in taken)
    ensures forall id :: id in Keys(after) ==>
      (Lookup(after, id).isIdle <==> Listed(rows, Lookup(after, id)))
    ensures forall id :: id in Keys(after) && !Lookup(after, id).isIdle ==>
      Lookup(after, id) == Lookup(agents, id).(isIdle := false)
  {
    ListedAreIdle(agents, order, counts, reduction, placed);
    forall id | id in Keys(after)
      ensures Lookup(after, id).isIdle <==> id in taken
      ensures Lookup(after, id).isIdle <==> Listed(rows, Lookup(after, id))
    {
      if id in taken {
        var p := TakenAt(order, next, taken, id);
        TakenIsListed(agents, order, counts, reduction, placed, next, updated, taken, after, p);
      }
    }
  }

  /** A taken id was taken from a position before `next`. */
  lemma TakenAt(order: seq<AgentId>, next: nat, taken: set<AgentId>, id: AgentId) returns (p: nat)
    requires next <= |order| && forall id :: id in taken <==> id in order[..next]
    requires id in taken
    ensures p < next && order[p] == id
  {
    p :| 0 <= p < next && order[..next][p] == id;
  }

  /**
   * An agent idle after the placement was moved to one of the blocks, its
   * charge drained by the draw at its own position in the order.
   */
  lemma PlacedRelocated(agents: Store, order: seq<AgentId>, counts: seq<int>, reduction: nat -> real,
                        placed: seq<seq<Agent>>, next: nat, updated: Store, taken: set<AgentId>, after: Store)
    requires Keyed(agents) && Distinct(order) && forall p :: 0 <= p < |order| ==> order[p] in Keys(agents)
    requires next == Cap(order, Start(counts, |counts|))
    requires forall id :: id in taken <==> id in order[..next]
    requires |placed| == |counts|
    requires forall k :: 0 <= k < |counts| ==> placed[k] == ExpectedRow(agents, order, counts, reduction, k)
    requires Keys(updated) == Keys(agents)
    requires forall k :: 0 <= k < |counts| ==> Cap(order, Start(counts, k)) + |placed[k]| <= |order|
    requires Recorded(updated, order, counts, placed, |counts|)
    requires forall id :: id !in taken ==> Get(updated, id) == Get(agents, id)
    requires after == MarkUnassigned(updated, taken)
    ensures forall p :: 0 <= p < |order| ==> order[p] in Keys(after)
    ensures forall p :: 0 <= p < |order| && Lookup(after, order[p]).isIdle ==>
      1 <= Lookup(after, order[p]).block <= |counts|
      && RelocatedBy(Lookup(agents, order[p]), Lookup(after, order[p]), reduction(p))
  {
    forall p | 0 <= p < |order| && Lookup(after, order[p]).isIdle
      ensures 1 <= Lookup(after, order[p]).block <= |counts|
      ensures RelocatedBy(Lookup(agents, order[p]), Lookup(after, order[p]), reduction(p))
    {
      var id := order[p];
      IdleAfterMarking(updated, taken, id);
      DistinctPrefixPosition(order, next, p);
      TakenIsListed(agents, order, counts, reduction, placed, next, updated, taken, after, p);
    }
  }

  /** Each block's row holds agents moved to that block and idle, no more than the block's count. */
  lemma DistributionShape(agents: Store, order: seq<AgentId>, counts: seq<int>, reduction: nat -> real,
                          placed: seq<seq<Agent>>, rows: Dict<Block, seq<Agent>>)
    requires forall p :: 0 <= p < |order| ==> order[p] in Keys(agents)
    requires |placed| == |counts| && forall k :: 0 <= k < |counts| ==> 0 <= counts[k]
    requires forall k :: 0 <= k < |counts| ==> placed[k] == ExpectedRow(agents, order, counts, reduction, k)
    requires rows == Distribution(placed)
    ensures forall k :: 0 <= k < |rows| ==>
      var (b, row) := rows[k];
      b == k + 1 && b in CountMap(counts) && |row| <= CountMap(counts)[b]
      && forall a :: a in row ==> a.block == b && a.isIdle
  {
    var evCount := CountMap(counts);
    forall k | 0 <= k < |rows|
      ensures rows[k].0 == k + 1 && k + 1 in evCount && |rows[k].1| <= evCount[k + 1]
      ensures forall a :: a in rows[k].1 ==> a.block == k + 1 && a.isIdle
    {
      RowSize(order, counts, k);
      var row := ExpectedRow(agents, order, counts, reduction, k);
      assert rows[k].1 == row;
      forall a | a in row
        ensures a.block == k + 1 && a.isIdle
      {
        var j :| 0 <= j < |row| && row[j] == a;
        assert a == PlacedAt(agents, order, reduction, Cap(order, Start(counts, k)) + j, k);
      }
    }
  }

  /** Every record listed in the distribution is idle. */
  lemma ListedAreIdle(agents: Store, order: seq<AgentId>, counts: seq<int>, reduction: nat -> real, placed: seq<seq<Agent>>)
    requires forall p :: 0 <= p < |order| ==> order[p] in Keys(agents)
    requires |placed| == |counts|
    requires forall k :: 0 <= k < |counts| ==> placed[k] == ExpectedRow(agents, order, counts, reduction, k)
    ensures forall a :: Listed(Distribution(placed), a) ==> a.isIdle
  {
    var rows := Distribution(placed);
    forall k, a | 0 <= k < |rows| && a in rows[k].1
      ensures a.isIdle
    {
      var row := ExpectedRow(agents, order, counts, reduction, k);
      assert rows[k].1 == row;
      var j :| 0 <= j < |row| && row[j] == a;
      assert a == PlacedAt(agents, order, reduction, Cap(order, Start(counts, k)) + j, k);
    }
  }

  /** A taken agent's final record is the copy listed under the block it was placed in. */
  lemma TakenIsListed(agents: Store, order: seq<AgentId>, counts: seq<int>, reduction: nat -> real,
                      placed: seq<seq<Agent>>, next: nat, updated: Store, taken: set<AgentId>, after: Store, p: nat)
    requires forall p :: 0 <= p < |order| ==> order[p] in Keys(agents)
    requires next == Cap(order, Start(counts, |counts|))
    requires forall id :: id in taken <==> id in order[..next]
    requires |placed| == |counts|
    requires forall k :: 0 <= k < |counts| ==> placed[k] == ExpectedRow(agents, order, counts, reduction, k)
    requires forall k :: 0 <= k < |counts| ==> Cap(order, Start(counts, k)) + |placed[k]| <= |order|
    requires Recorded(updated, order, counts, placed, |counts|)
    requires after == MarkUnassigned(updated, taken)
    requires p < next
    ensures var id := order[p];
      id in Keys(after) && Lookup(after, id).isIdle && Listed(Distribution(placed), Lookup(after, id))
      && 1 <= Lookup(after, id).block <= |counts|
      && RelocatedBy(Lookup(agents, id), Lookup(after, id), reduction(p))
  {
    var id := order[p];
    var b, j := TakenPosition(agents, order, counts, reduction, placed, updated, p);
    assert order[..next][p] == id;
    var a := placed[b][j];
    KeptAfterMarking(updated, taken, after, id, a);
    assert a == Relocate(Lookup(agents, id), b + 1, Uniform(0.05, 0.15, reduction(p)));
    var rows := Distribution(placed);
    assert rows[b].1 == placed[b];
    assert a in rows[b].1;
    assert Listed(rows, a);
  }

  /** Marking leaves the record of an agent that was taken as it was. */
  lemma KeptAfterMarking(updated: Store, taken: set<AgentId>, after: Store, id: AgentId, a: Agent)
    requires after == MarkUnassigned(updated, taken)
    requires id in taken && Get(updated, id) == Some(a)
    ensures id in Keys(after) && Lookup(after, id) == a
  {
  }

  /** Where a taken agent came from: position `p` of the order is the `j`-th of row `b`. */
  lemma TakenPosition(agents: Store, order: seq<AgentId>, counts: seq<int>, reduction: nat -> real,
                      placed: seq<seq<Agent>>, updated: Store, p: nat)
    returns (b: nat, j: nat)
    requires forall p :: 0 <= p < |order| ==> order[p] in Keys(agents)
    requires |placed| == |counts|
    requires forall k :: 0 <= k < |counts| ==> placed[k] == ExpectedRow(agents, order, counts, reduction, k)
    requires forall k :: 0 <= k < |counts| ==> Cap(order, Start(counts, k)) + |placed[k]| <= |order|
    requires Recorded(updated, order, counts, placed, |counts|)
    requires p < Cap(order, Start(counts, |counts|))
    ensures p < |order| && b < |counts| && j < |placed[b]|
    ensures placed[b][j] == PlacedAt(agents, order, reduction, p, b)
    ensures Get(updated, order[p]) == Some(placed[b][j])
  {
    b := RowOfPosition(order, counts, |counts|, p);
    j := p - Cap(order, Start(counts, b));
    var row := ExpectedRow(agents, order, counts, reduction, b);
    assert placed[b] == row;
    assert j < |row|;
    assert row[j] == PlacedAt(agents, order, reduction, Cap(order, Start(counts, b)) + j, b);
    RecordedAt(updated, order, counts, placed, |counts|, b, j);
  }


  /** Everyone ends up idle exactly when the whole shuffled order was taken. */
  lemma AllIdleIffAllTaken(agents: Store, order: seq<AgentId>, next: nat, taken: set<AgentId>, after: Store)
    requires IsShuffle(order, agents) && next <= |order| && Keys(after) == Keys(agents)
    requires forall id :: id in taken <==> id in order[..next]
    requires forall id :: id in Keys(after) ==> (Lookup(after, id).isIdle <==> id in taken)
    ensures (forall id :: id in Keys(after) ==> Lookup(after, id).isIdle) <==> next == |agents|
  {
    assert |order| == |agents| by {
      assert |multiset(order)| == |multiset(Keys(agents))|;
    }
    if next == |order| {
      assert order[..next] == order;
      forall id | id in Keys(after)
        ensures Lookup(after, id).isIdle
      {
        assert id in multiset(Keys(agents));
      }
    } else {
      var id := order[next];
      assert id in multiset(order);
      assert id !in order[..next] by {
        forall p | 0 <= p < next
          ensures order[p] != id
        {
        }
      }
      assert !Lookup(after, id).isIdle;
    }
  }
}
