/**
 * The placement step of input.py (generate_data): shuffled agents are
 * handed out block by block according to the EV counts.
 */
module Placement {
  import opened Wrappers
  import opened Seqs
  import opened Dict
  import opened Fleet
  import opened Sampling

  /** The agent store: id -> agent record, in key order. */
  type Store = Dict<AgentId, Agent>

  /**
   * The update of one placed agent: it is moved to block `b` and marked
   * idle, and its charge is drained by the fraction `reduction` (never below
   * 0) when the test of the source passes. That test also asks whether the
   * agent was busy, but it reads the record after it was just marked idle,
   * so only a change of block drains the charge.
   */
  function Relocate(a: Agent, b: Block, reduction: real): (r: Agent)
    ensures r.id == a.id && r.block == b && r.isIdle
  {
    var previous := a.block;
    var moved := a.(block := b, isIdle := true);
    var shouldReduce := !moved.isIdle || previous != b;
    if shouldReduce then
      var drained := moved.soc * (1.0 - reduction);
      moved.(soc := if 0.0 >= drained then 0.0 else drained)
    else
      moved
  }

  /**
   * The charge after a relocation: kept when the agent stays, otherwise
   * drained by the fraction `reduction`, never below 0; with a fraction in
   * [0.05, 0.15] it ends between 0 and where it was, and a positive charge
   * falls exactly when the block changes.
   */
  lemma RelocateCharge(a: Agent, b: Block, reduction: real)
    ensures var r := Relocate(a, b, reduction);
      (a.block == b ==> r.soc == a.soc)
      && (a.block != b && reduction <= 1.0 ==> r.soc == if a.soc <= 0.0 then 0.0 else a.soc * (1.0 - reduction))
      && (0.05 <= reduction <= 0.15 && 0.0 <= a.soc ==> 0.0 <= r.soc <= a.soc)
      && (0.05 <= reduction <= 0.15 && 0.0 < a.soc ==> (r.soc < a.soc <==> a.block != b))
  {
    var drained := a.soc * (1.0 - reduction);
    assert 0.0 < a.soc && 0.05 <= reduction ==> drained < a.soc;
    SignOfProduct(a.soc, 1.0 - reduction);
  }

  /** `after` is `before` moved to its new block, its charge drained by the fraction that `draw` picks in [0.05, 0.15]. */
  predicate RelocatedBy(before: Agent, after: Agent, draw: real)
  {
    after == Relocate(before, after.block, Uniform(0.05, 0.15, draw))
  }

  /** A product with a non-negative factor keeps the sign of the other. */
  lemma SignOfProduct(x: real, y: real)
    ensures 0.0 <= x && 0.0 <= y ==> 0.0 <= x * y
    ensures x <= 0.0 && 0.0 <= y ==> x * y <= 0.0
  {
    if 0.0 <= y {
      if 0.0 <= x {
        assert 0.0 * y <= x * y;
      } else {
        assert x * y <= 0.0 * y;
      }
    }
  }

  /** Where the agents of the `k`-th block begin in the shuffled order: the counts before it, negative ones placing nobody. */
  function Start(counts: seq<int>, k: nat): nat
    requires k <= |counts|
  {
    if k == 0 then 0 else Start(counts, k - 1) + (if counts[k - 1] < 0 then 0 else counts[k - 1])
  }

  /** `i` capped at the number of agents available. */
  function Cap(order: seq<AgentId>, i: nat): (c: nat)
    ensures c <= |order| && c <= i
    ensures c == i || c == |order|
  {
    if i < |order| then i else |order|
  }

  /** The record placed from position `p` of the order into the `k`-th block (block k + 1). */
  function PlacedAt(agents: Store, order: seq<AgentId>, reduction: nat -> real, p: nat, k: nat): (a: Agent)
    requires p < |order| && order[p] in Keys(agents)
    ensures a.id == Lookup(agents, order[p]).id && a.block == k + 1 && a.isIdle
  {
    Relocate(Lookup(agents, order[p]), k + 1, Uniform(0.05, 0.15, reduction(p)))
  }

  /** What the `k`-th block receives: the next agents of the order, as many as its count, while any remain. */
  function ExpectedRow(agents: Store, order: seq<AgentId>, counts: seq<int>, reduction: nat -> real, k: nat): (row: seq<Agent>)
    requires k < |counts| && forall p :: 0 <= p < |order| ==> order[p] in Keys(agents)
    ensures |row| == Cap(order, Start(counts, k + 1)) - Cap(order, Start(counts, k))
  {
    var lo := Cap(order, Start(counts, k));
    var hi := Cap(order, Start(counts, k + 1));
    seq(hi - lo, j requires 0 <= j < hi - lo => PlacedAt(agents, order, reduction, lo + j, k))
  }

  /** `random.shuffle(list(agents.keys()))`: the order is a permutation of the store's keys. */
  predicate IsShuffle(order: seq<AgentId>, agents: Store)
  {
    Distinct(order) && multiset(order) == multiset(Keys(agents))
  }

  /** A shuffle lists exactly the store's keys, as many as the store has. */
  lemma ShuffleMembers(order: seq<AgentId>, agents: Store)
    requires IsShuffle(order, agents)
    ensures |order| == |agents|
    ensures forall p :: 0 <= p < |order| ==> order[p] in Keys(agents)
    ensures forall id :: id in Keys(agents) ==> id in order
  {
    assert |multiset(order)| == |multiset(Keys(agents))|;
    forall p | 0 <= p < |order|
      ensures order[p] in Keys(agents)
    {
      assert order[p] in multiset(order);
    }
    forall id | id in Keys(agents)
      ensures id in order
    {
      assert id in multiset(Keys(agents));
    }
  }

  /**
   * Where the inner loop for the `k`-th block stands: the agents at positions
   * `next0` up to `next` of the order have been taken into `row`, in order,
   * the store holds each of them under its id, and nothing else changed
   * since the loop began with store `updated0`.
   */
  ghost predicate Filling(agents: Store, order: seq<AgentId>, reduction: nat -> real, k: nat,
                    next0: nat, updated0: Store, row: seq<Agent>, next: nat, updated: Store, taken: set<AgentId>)
    requires forall p :: 0 <= p < |order| ==> order[p] in Keys(agents)
  {
    next0 <= next <= |order| && |row| == next - next0
    && (forall j :: 0 <= j < |row| ==> row[j] == PlacedAt(agents, order, reduction, next0 + j, k))
    && (forall id :: id in taken <==> id in order[..next])
    && Keyed(updated) && Keys(updated) == Keys(agents)
    && (forall j :: 0 <= j < |row| ==> Get(updated, order[next0 + j]) == Some(row[j]))
    && (forall id :: id !in order[next0..next] ==> Get(updated, id) == Get(updated0, id))
  }

  /** The agent at `next` is still untouched, so its record is the one it arrived with. */
  lemma Untouched(agents: Store, order: seq<AgentId>, reduction: nat -> real, k: nat,
                  next0: nat, updated0: Store, row: seq<Agent>, next: nat, updated: Store, taken: set<AgentId>)
    requires Distinct(order) && forall p :: 0 <= p < |order| ==> order[p] in Keys(agents)
    requires Filling(agents, order, reduction, k, next0, updated0, row, next, updated, taken)
    requires forall id :: id !in order[..next0] ==> Get(updated0, id) == Get(agents, id)
    requires next < |order|
    ensures order[next] !in taken && order[next] in Keys(updated)
    ensures Lookup(updated, order[next]) == Lookup(agents, order[next])
  {
    var name := order[next];
    assert name !in order[..next] by {
      forall p | 0 <= p < next
        ensures order[p] != name
      {
      }
    }
    assert name !in order[next0..next] && name !in order[..next0];
  }

  /** Taking the agent at `next` into the row keeps the loop's bookkeeping. */
  lemma TakeStep(agents: Store, order: seq<AgentId>, reduction: nat -> real, k: nat,
                 next0: nat, updated0: Store, row: seq<Agent>, next: nat, updated: Store, taken: set<AgentId>)
    requires Distinct(order) && forall p :: 0 <= p < |order| ==> order[p] in Keys(agents)
    requires Filling(agents, order, reduction, k, next0, updated0, row, next, updated, taken)
    requires forall id :: id !in order[..next0] ==> Get(updated0, id) == Get(agents, id)
    requires next < |order|
    ensures order[next] in Keys(updated)
    ensures var moved := Relocate(Lookup(updated, order[next]), k + 1, Uniform(0.05, 0.15, reduction(next)));
      Filling(agents, order, reduction, k, next0, updated0, row + [moved], next + 1,
              Put(updated, order[next], moved), taken + {order[next]})
  {
    Untouched(agents, order, reduction, k, next0, updated0, row, next, updated, taken);
    var moved := PlacedAt(agents, order, reduction, next, k);
    TakeRows(agents, order, reduction, k, next0, row, next);
    TakeRecords(order, next0, row, next, updated, moved, Put(updated, order[next], moved));
    TakeFrame(order, next0, next, updated0, updated, taken, moved);
  }

  /** The row extended by the agent at `next` still holds, in order, the agents from `next0` on. */
  lemma TakeRows(agents: Store, order: seq<AgentId>, reduction: nat -> real, k: nat, next0: nat, row: seq<Agent>, next: nat)
    requires forall p :: 0 <= p < |order| ==> order[p] in Keys(agents)
    requires next0 <= next < |order| && |row| == next - next0
    requires forall j :: 0 <= j < |row| ==> row[j] == PlacedAt(agents, order, reduction, next0 + j, k)
    ensures var row' := row + [PlacedAt(agents, order, reduction, next, k)];
      forall j :: 0 <= j < |row'| ==> row'[j] == PlacedAt(agents, order, reduction, next0 + j, k)
  {
    var row' := row + [PlacedAt(agents, order, reduction, next, k)];
    forall j | 0 <= j < |row'|
      ensures row'[j] == PlacedAt(agents, order, reduction, next0 + j, k)
    {
      if j < |row| {
        assert row'[j] == row[j];
      }
    }
  }

  /** Storing the agent at `next` keeps the records of the agents taken before it. */
  lemma TakeRecords(order: seq<AgentId>, next0: nat, row: seq<Agent>, next: nat, updated: Store, moved: Agent, updated': Store)
    requires Distinct(order) && next0 <= next < |order| && |row| == next - next0
    requires forall j :: 0 <= j < |row| ==> Get(updated, order[next0 + j]) == Some(row[j])
    requires Get(updated', order[next]) == Some(moved)
    requires forall id :: id != order[next] ==> Get(updated', id) == Get(updated, id)
    ensures var row' := row + [moved];
      forall j :: 0 <= j < |row'| ==> Get(updated', order[next0 + j]) == Some(row'[j])
  {
    var row' := row + [moved];
    forall j | 0 <= j < |row'|
      ensures Get(updated', order[next0 + j]) == Some(row'[j])
    {
      if j < |row| {
        assert order[next0 + j] != order[next];
        assert row'[j] == row[j];
      }
    }
  }

  /** Taking the agent at `next` extends the taken set and leaves every record after it alone. */
  lemma TakeFrame(order: seq<AgentId>, next0: nat, next: nat, updated0: Store, updated: Store, taken: set<AgentId>, moved: Agent)
    requires next0 <= next < |order|
    requires forall id :: id in taken <==> id in order[..next]
    requires forall id :: id !in order[next0..next] ==> Get(updated, id) == Get(updated0, id)
    ensures forall id :: id in taken + {order[next]} <==> id in order[..next + 1]
    ensures forall id :: id !in order[next0..next + 1] ==> Get(Put(updated, order[next], moved), id) == Get(updated0, id)
  {
    assert order[..next + 1] == order[..next] + [order[next]];
    assert order[next0..next + 1] == order[next0..next] + [order[next]];
  }

  /** Before the first agent of block `k` is taken, the row is empty and nothing has changed. */
  lemma FillingStart(agents: Store, order: seq<AgentId>, reduction: nat -> real, k: nat,
                     next0: nat, updated0: Store, taken0: set<AgentId>)
    requires forall p :: 0 <= p < |order| ==> order[p] in Keys(agents)
    requires next0 <= |order| && forall id :: id in taken0 <==> id in order[..next0]
    requires Keyed(updated0) && Keys(updated0) == Keys(agents)
    ensures Filling(agents, order, reduction, k, next0, updated0, [], next0, updated0, taken0)
  {
  }

  /** Once the count of block `k` is used up, the row is the expected one and the bookkeeping is final. */
  lemma FilledBlock(agents: Store, order: seq<AgentId>, counts: seq<int>, reduction: nat -> real, k: nat,
                    next0: nat, updated0: Store, row: seq<Agent>, next: nat, updated: Store, taken: set<AgentId>, t: nat)
    requires forall p :: 0 <= p < |order| ==> order[p] in Keys(agents)
    requires k < |counts| && next0 == Cap(order, Start(counts, k))
    requires (t == 0 || t <= counts[k]) && next == next0 + t
    requires t >= counts[k] || next >= |order|
    requires Filling(agents, order, reduction, k, next0, updated0, row, next, updated, taken)
    ensures next == Cap(order, Start(counts, k + 1)) && next0 <= next && |row| == next - next0
    ensures row == ExpectedRow(agents, order, counts, reduction, k)
    ensures forall id :: id in taken <==> id in order[..next]
    ensures Keyed(updated) && Keys(updated) == Keys(agents)
    ensures forall j :: 0 <= j < |row| ==> Get(updated, order[next0 + j]) == Some(row[j])
    ensures forall id :: id !in order[next0..next] ==> Get(updated, id) == Get(updated0, id)
  {
    var expected := ExpectedRow(agents, order, counts, reduction, k);
    assert |row| == |expected|;
    forall j | 0 <= j < |row|
      ensures row[j] == expected[j]
    {
    }
  }

  /** The store holds the record of each of the first `k` rows under the id it was taken from. */
  ghost predicate Recorded(updated: Store, order: seq<AgentId>, counts: seq<int>, placed: seq<seq<Agent>>, k: nat)
    requires k <= |counts| && k <= |placed|
    requires forall k' :: 0 <= k' < k ==> Cap(order, Start(counts, k')) + |placed[k']| <= |order|
  {
    forall k', j :: 0 <= k' < k && 0 <= j < |placed[k']| ==>
      Get(updated, order[Cap(order, Start(counts, k')) + j]) == Some(placed[k'][j])
  }

  /** One instance of `Recorded`: the `j`-th agent of row `b` is in the store under the id it was taken from. */
  lemma RecordedAt(updated: Store, order: seq<AgentId>, counts: seq<int>, placed: seq<seq<Agent>>, k: nat, b: nat, j: nat)
    requires k <= |counts| && k <= |placed|
    requires forall k' :: 0 <= k' < k ==> Cap(order, Start(counts, k')) + |placed[k']| <= |order|
    requires Recorded(updated, order, counts, placed, k)
    requires b < k && j < |placed[b]|
    ensures Cap(order, Start(counts, b)) + j < |order|
    ensures Get(updated, order[Cap(order, Start(counts, b)) + j]) == Some(placed[b][j])
  {
  }

  /** Where the outer loop stands after the first `k` blocks. */
  ghost predicate Placing(agents: Store, order: seq<AgentId>, counts: seq<int>, reduction: nat -> real, k: nat,
                    placed: seq<seq<Agent>>, next: nat, updated: Store, taken: set<AgentId>)
    requires k <= |counts| && forall p :: 0 <= p < |order| ==> order[p] in Keys(agents)
  {
    |placed| == k && next == Cap(order, Start(counts, k))
    && (forall id :: id in taken <==> id in order[..next])
    && (forall k' :: 0 <= k' < k ==> placed[k'] == ExpectedRow(agents, order, counts, reduction, k'))
    && Keyed(updated) && Keys(updated) == Keys(agents)
    && (forall k' :: 0 <= k' < k ==> Cap(order, Start(counts, k')) + |placed[k']| <= next)
    && Recorded(updated, order, counts, placed, k)
    && (forall id :: id !in order[..next] ==> Get(updated, id) == Get(agents, id))
  }

  /** The earlier rows' records survive the `k`-th block, whose agents all come later in the order. */
  lemma RecordedStep(order: seq<AgentId>, counts: seq<int>, k: nat, placed: seq<seq<Agent>>, row: seq<Agent>,
                     next0: nat, updated0: Store, next: nat, updated: Store)
    requires k < |counts| && |placed| == k && Distinct(order)
    requires next0 == Cap(order, Start(counts, k)) && next0 <= next <= |order| && |row| == next - next0
    requires forall k' :: 0 <= k' < k ==> Cap(order, Start(counts, k')) + |placed[k']| <= next0
    requires Recorded(updated0, order, counts, placed, k)
    requires forall j :: 0 <= j < |row| ==> Get(updated, order[next0 + j]) == Some(row[j])
    requires forall id :: id !in order[next0..next] ==> Get(updated, id) == Get(updated0, id)
    ensures forall k' :: 0 <= k' < k + 1 ==> Cap(order, Start(counts, k')) + |(placed + [row])[k']| <= next
    ensures Recorded(updated, order, counts, placed + [row], k + 1)
  {
    var grown := placed + [row];
    forall k' | 0 <= k' < k + 1
      ensures Cap(order, Start(counts, k')) + |grown[k']| <= next
    {
      if k' < k {
        assert grown[k'] == placed[k'];
      }
    }
    forall k', j | 0 <= k' < k + 1 && 0 <= j < |grown[k']|
      ensures Get(updated, order[Cap(order, Start(counts, k')) + j]) == Some(grown[k'][j])
    {
      if k' == k {
        assert grown[k] == row;
      } else {
        var q := Cap(order, Start(counts, k')) + j;
        assert grown[k'] == placed[k'];
        assert q < next0;
        assert order[q] !in order[next0..next] by {
          forall p | next0 <= p < next
            ensures order[p] != order[q]
          {
          }
        }
      }
    }
  }

  /** Appending the `k`-th block's row keeps the outer loop's bookkeeping. */
  lemma PlaceStep(agents: Store, order: seq<AgentId>, counts: seq<int>, reduction: nat -> real, k: nat,
                  placed: seq<seq<Agent>>, next0: nat, updated0: Store, taken0: set<AgentId>,
                  row: seq<Agent>, next: nat, updated: Store, taken: set<AgentId>)
    requires k < |counts| && Distinct(order) && forall p :: 0 <= p < |order| ==> order[p] in Keys(agents)
    requires Placing(agents, order, counts, reduction, k, placed, next0, updated0, taken0)
    requires next == Cap(order, Start(counts, k + 1)) && next0 <= next && |row| == next - next0
    requires row == ExpectedRow(agents, order, counts, reduction, k)
    requires forall id :: id in taken <==> id in order[..next]
    requires Keyed(updated) && Keys(updated) == Keys(agents)
    requires forall j :: 0 <= j < |row| ==> Get(updated, order[next0 + j]) == Some(row[j])
    requires forall id :: id !in order[next0..next] ==> Get(updated, id) == Get(updated0, id)
    ensures Placing(agents, order, counts, reduction, k + 1, placed + [row], next, updated, taken)
  {
    RecordedStep(order, counts, k, placed, row, next0, updated0, next, updated);
    RowsStep(agents, order, counts, reduction, k, placed, row);
    FrameStep(agents, order, next0, updated0, next, updated);
  }

  /** Records outside the first `next0` agents and outside the block's agents are still the original ones. */
  lemma FrameStep(agents: Store, order: seq<AgentId>, next0: nat, updated0: Store, next: nat, updated: Store)
    requires next0 <= next <= |order|
    requires forall id :: id !in order[..next0] ==> Get(updated0, id) == Get(agents, id)
    requires forall id :: id !in order[next0..next] ==> Get(updated, id) == Get(updated0, id)
    ensures forall id :: id !in order[..next] ==> Get(updated, id) == Get(agents, id)
  {
    assert order[..next] == order[..next0] + order[next0..next];
    forall id | id !in order[..next]
      ensures Get(updated, id) == Get(agents, id)
    {
      assert id !in order[..next0] && id !in order[next0..next];
    }
  }

  /** Appending the `k`-th block's expected row extends the rows expected so far. */
  lemma RowsStep(agents: Store, order: seq<AgentId>, counts: seq<int>, reduction: nat -> real, k: nat,
                 placed: seq<seq<Agent>>, row: seq<Agent>)
    requires k < |counts| && |placed| == k && forall p :: 0 <= p < |order| ==> order[p] in Keys(agents)
    requires forall k' :: 0 <= k' < k ==> placed[k'] == ExpectedRow(agents, order, counts, reduction, k')
    requires row == ExpectedRow(agents, order, counts, reduction, k)
    ensures forall k' :: 0 <= k' < k + 1 ==> (placed + [row])[k'] == ExpectedRow(agents, order, counts, reduction, k')
  {
    forall k' | 0 <= k' < k + 1
      ensures (placed + [row])[k'] == ExpectedRow(agents, order, counts, reduction, k')
    {
      if k' < k {
        assert (placed + [row])[k'] == placed[k'];
      }
    }
  }

  /**
   * The `k`-th block receives at most its count of agents (none for a
   * negative count), and exactly that many while the order lasts.
   */
  lemma RowSize(order: seq<AgentId>, counts: seq<int>, k: nat)
    requires k < |counts|
    ensures Cap(order, Start(counts, k)) <= Cap(order, Start(counts, k + 1))
    ensures Cap(order, Start(counts, k + 1)) - Cap(order, Start(counts, k)) <= if counts[k] < 0 then 0 else counts[k]
    ensures Start(counts, k + 1) <= |order| ==>
      Cap(order, Start(counts, k + 1)) - Cap(order, Start(counts, k)) == if counts[k] < 0 then 0 else counts[k]
  {
  }

  /** With no negative count, the `k`-th block starts after exactly the sum of the counts before it. */
  lemma {:induction false} StartIsSum(counts: seq<int>, k: nat)
    requires k <= |counts| && forall i :: 0 <= i < |counts| ==> counts[i] >= 0
    ensures Start(counts, k) == Sum(counts[..k])
  {
    if k > 0 {
      StartIsSum(counts, k - 1);
      SumPrefix(counts, k - 1);
    }
  }

  /** Every position placed by the first `k` blocks falls in the range of one of them. */
  lemma {:induction false} RowOfPosition(order: seq<AgentId>, counts: seq<int>, k: nat, p: nat) returns (b: nat)
    requires k <= |counts| && p < Cap(order, Start(counts, k))
    ensures b < k && Cap(order, Start(counts, b)) <= p < Cap(order, Start(counts, b + 1))
  {
    if p < Cap(order, Start(counts, k - 1)) {
      b := RowOfPosition(order, counts, k - 1, p);
    } else {
      b := k - 1;
    }
  }

  /**
   * The last loop of generate_data: every agent that was not placed is
   * marked busy; the placed ones, and every key, stay as they are.
   */
  function MarkUnassigned(store: Store, taken: set<AgentId>): (r: Store)
    ensures Keys(r) == Keys(store)
    ensures forall id :: id in taken ==> Get(r, id) == Get(store, id)
    ensures forall id :: id in Keys(store) && id !in taken ==> Get(r, id) == Some(Lookup(store, id).(isIdle := false))
  {
    if |store| == 0 then []
    else
      var (id, a) := store[0];
      var head := if id in taken then (id, a) else (id, a.(isIdle := false));
      var rest := MarkUnassigned(store[1..], taken);
      KeysCons(store[0], store[1..]);
      KeysCons(head, rest);
      assert store == [store[0]] + store[1..];
      assert ([head] + rest)[1..] == rest;
      [head] + rest
  }

  /** Only the agents in `taken` are still idle after the marking. */
  lemma IdleAfterMarking(store: Store, taken: set<AgentId>, id: AgentId)
    requires id in Keys(store) && Lookup(MarkUnassigned(store, taken), id).isIdle
    ensures id in taken
  {
  }
}
