/**
 * The two placement loops of input.py (generate_data), over the vocabulary
 * of the Placement module: the inner one fills one block's row, the outer
 * one runs it for every block in turn.
 */
module Assignment {
  import opened Wrappers
  import opened Seqs
  import opened Dict
  import opened Fleet
  import opened Sampling
  import opened Placement

  /**
   * The inner loop of the placement for the `k`-th block: `range(count)`
   * rounds, each taking the next agent of the order while any remain,
   * relocating it, recording the copy and marking it as assigned. Exactly
   * the block's expected agents are taken, and no other record changes.
   */
  method FillBlock(agents: Store, order: seq<AgentId>, counts: seq<int>, reduction: nat -> real, k: nat,
                   next0: nat, updated0: Store, taken0: set<AgentId>)
    returns (row: seq<Agent>, next: nat, updated: Store, taken: set<AgentId>)
    requires Keyed(agents) && Distinct(order) && forall p :: 0 <= p < |order| ==> order[p] in Keys(agents)
    requires k < |counts| && next0 == Cap(order, Start(counts, k))
    requires forall id :: id in taken0 <==> id in order[..next0]
    requires Keyed(updated0) && Keys(updated0) == Keys(agents)
    requires forall id :: id !in order[..next0] ==> Get(updated0, id) == Get(agents, id)
    ensures next == Cap(order, Start(counts, k + 1)) && next0 <= next && |row| == next - next0
    ensures row == ExpectedRow(agents, order, counts, reduction, k)
    ensures forall id :: id in taken <==> id in order[..next]
    ensures Keyed(updated) && Keys(updated) == Keys(agents)
    ensures forall j :: 0 <= j < |row| ==> Get(updated, order[next0 + j]) == Some(row[j])
    ensures forall id :: id !in order[next0..next] ==> Get(updated, id) == Get(updated0, id)
  {
    row, next, updated, taken := [], next0, updated0, taken0;
    FillingStart(agents, order, reduction, k, next0, updated0, taken0);
    var t := 0;
    // Once the order is used up, the remaining rounds of the source's loop do nothing.
    while t < counts[k] && next < |order|
      invariant (t == 0 || t <= counts[k]) && next == next0 + t
      invariant Filling(agents, order, reduction, k, next0, updated0, row, next, updated, taken)
    {
      row, updated, taken := Take(agents, order, reduction, k, next0, updated0, row, next, updated, taken);
      next, t := next + 1, t + 1;
    }
    FilledBlock(agents, order, counts, reduction, k, next0, updated0, row, next, updated, taken, t);
  }

  /**
   * One round of the inner loop: the agent at `next` is relocated to block
   * `k + 1`, its copy is appended to the row, the store records it and it is
   * marked as assigned.
   */
  method Take(agents: Store, order: seq<AgentId>, reduction: nat -> real, k: nat,
              next0: nat, updated0: Store, row: seq<Agent>, next: nat, updated: Store, taken: set<AgentId>)
    returns (row': seq<Agent>, updated': Store, taken': set<AgentId>)
    requires Distinct(order) && forall p :: 0 <= p < |order| ==> order[p] in Keys(agents)
    requires Filling(agents, order, reduction, k, next0, updated0, row, next, updated, taken)
    requires forall id :: id !in order[..next0] ==> Get(updated0, id) == Get(agents, id)
    requires next < |order|
    ensures Filling(agents, order, reduction, k, next0, updated0, row', next + 1, updated', taken')
  {
    TakeStep(agents, order, reduction, k, next0, updated0, row, next, updated, taken);
    var name := order[next];
    var moved := Relocate(Lookup(updated, name), k + 1, Uniform(0.05, 0.15, reduction(next)));
    row', updated', taken' := row + [moved], Put(updated, name, moved), taken + {name};
  }

  /**
   * The placement loops of generate_data: for each block in turn, take as
   * many agents from the shuffled order as the block's count, while any
   * remain, relocating each and recording a copy under the block. The
   * first `next` agents of the order are placed, block by block in order;
   * the store then holds each placed agent's new record, and every other
   * agent's record is left as it was.
   */
  method Assign(agents: Store, order: seq<AgentId>, counts: seq<int>, reduction: nat -> real)
    returns (placed: seq<seq<Agent>>, next: nat, updated: Store, taken: set<AgentId>)
    requires Keyed(agents) && Distinct(order) && forall p :: 0 <= p < |order| ==> order[p] in Keys(agents)
    ensures next == Cap(order, Start(counts, |counts|))
    ensures forall id :: id in taken <==> id in order[..next]
    ensures |placed| == |counts|
    ensures forall k :: 0 <= k < |counts| ==> placed[k] == ExpectedRow(agents, order, counts, reduction, k)
    ensures Keyed(updated) && Keys(updated) == Keys(agents)
    ensures forall k :: 0 <= k < |counts| ==> Cap(order, Start(counts, k)) + |placed[k]| <= |order|
    ensures Recorded(updated, order, counts, placed, |counts|)
    ensures forall id :: id !in taken ==> Get(updated, id) == Get(agents, id)
  {
    placed, next, updated, taken := [], 0, agents, {};
    var k := 0;
    while k < |counts|
      invariant 0 <= k <= |counts|
      invariant Placing(agents, order, counts, reduction, k, placed, next, updated, taken)
    {
      var next0, updated0, taken0 := next, updated, taken;
      var row;
      row, next, updated, taken := FillBlock(agents, order, counts, reduction, k, next, updated, taken);
      PlaceStep(agents, order, counts, reduction, k, placed, next0, updated0, taken0, row, next, updated, taken);
      placed := placed + [row];
      k := k + 1;
    }
  }
}
