/**
 * env.py: the environment parameters (the square-grid adjacency of the
 * blocks and, per block, the distribution parameters of requests, EV counts
 * and congestion) and the initial fleet of agents.
 */
module Env {
  import opened Wrappers
  import opened Seqs
  import opened Dict
  import opened Fleet
  import opened Sampling
  import Product

  /** Python's `a % b`: the remainder takes the sign of the divisor; `b == 0` raises. */
  function PyMod(a: int, b: int): (r: int)
    requires b != 0
    ensures b > 0 ==> 0 <= r < b && r == a % b
    ensures b < 0 ==> b < r <= 0
    ensures (a - r) % b == 0
  {
    var m := a % b;
    MultipleMod(a - m, a / b, b);
    MultipleMod(a - (m + b), a / b - 1, b);
    if b < 0 && m != 0 then m + b else m
  }

  /** A multiple of `b` leaves no remainder. */
  lemma MultipleMod(x: int, q: int, b: int)
    requires b != 0 && x == q * b
    ensures x % b == 0
  {
    var d := q - x / b;
    assert b * d == x % b;
    MulAway(b, d);
  }

  /** A non-zero multiple of `b` is at least `|b|` away from zero. */
  lemma MulAway(b: int, d: int)
    ensures d >= 1 && b > 0 ==> b * d >= b
    ensures d >= 1 && b < 0 ==> b * d <= b
    ensures d <= -1 && b > 0 ==> b * d <= -b
    ensures d <= -1 && b < 0 ==> b * d >= -b
  {
    if d >= 1 {
      assert b * d == b * (d - 1) + b;
    } else if d <= -1 {
      assert b * d == b * (d + 1) - b;
    }
  }

  /** The block at `v` when `present` holds, nothing otherwise. */
  function When(present: bool, v: Block): (r: seq<Block>)
    ensures IsSubsequence(r, [v])
  {
    if present then [v] else []
  }

  /**
   * The neighbours of block `i` on a grid `g` blocks wide holding blocks
   * 1..n: above, right, below and left, each only when the grid test for
   * that side passes.
   */
  function GridNeighbors(i: Block, n: int, g: int): (r: seq<Block>)
    requires g != 0
    ensures |r| <= 4
    ensures IsSubsequence(r, [i - g, i + 1, i + g, i - 1])
  {
    var top := When(i > g, i - g);
    var right := When(PyMod(i, g) != 0, i + 1);
    var bottom := When(i <= n - g, i + g);
    var left := When(PyMod(i, g) != 1, i - 1);
    SubsequenceConcat(top, [i - g], right, [i + 1]);
    assert [i - g] + [i + 1] == [i - g, i + 1];
    SubsequenceConcat(top + right, [i - g, i + 1], bottom, [i + g]);
    assert [i - g, i + 1] + [i + g] == [i - g, i + 1, i + g];
    SubsequenceConcat(top + right + bottom, [i - g, i + 1, i + g], left, [i - 1]);
    assert [i - g, i + 1, i + g] + [i - 1] == [i - g, i + 1, i + g, i - 1];
    top + right + bottom + left
  }

  /** Subsequences of two parts concatenate to a subsequence of the concatenated parts. */
  lemma {:induction false} SubsequenceConcat<T>(a: seq<T>, x: seq<T>, b: seq<T>, y: seq<T>)
    requires IsSubsequence(a, x) && IsSubsequence(b, y)
    ensures IsSubsequence(a + b, x + y)
    decreases |x|
  {
    if |x| == 0 {
      assert a + b == b && x + y == y;
    } else {
      assert (x + y)[1..] == x[1..] + y;
      if |a| > 0 && a[0] == x[0] && IsSubsequence(a[1..], x[1..]) {
        SubsequenceConcat(a[1..], x[1..], b, y);
        assert (a + b)[1..] == a[1..] + b;
      } else {
        SubsequenceConcat(a, x[1..], b, y);
      }
    }
  }

  /** The shape the grid tests rely on: at least two columns and only full rows. */
  predicate WellShaped(n: int, g: int)
  {
    g >= 2 && n % g == 0
  }

  /** `(i + 1) % g` is 1 exactly when `i % g` is 0, on a grid at least two wide. */
  lemma ModSucc(i: int, g: int)
    requires g >= 2
    ensures (i + 1) % g == 1 <==> i % g == 0
    ensures (i + 1) % g == 0 <==> i % g == g - 1
  {
    var q, r := i / g, i % g;
    assert i == q * g + r;
    if r + 1 < g {
      Product.DivModUnique(i + 1, g, q, r + 1);
    } else {
      assert (q + 1) * g == q * g + g;
      Product.DivModUnique(i + 1, g, q + 1, 0);
    }
  }

  /**
   * On a well-shaped grid every neighbour of a block is another block of
   * the grid, and none is listed twice.
   */
  lemma NeighborsInRange(i: Block, n: int, g: int)
    requires WellShaped(n, g) && 1 <= i <= n
    ensures forall j :: j in GridNeighbors(i, n, g) ==> 1 <= j <= n && j != i
    ensures Distinct(GridNeighbors(i, n, g))
  {
    var top := When(i > g, i - g);
    var right := When(PyMod(i, g) != 0, i + 1);
    var bottom := When(i <= n - g, i + g);
    var left := When(PyMod(i, g) != 1, i - 1);
    assert GridNeighbors(i, n, g) == top + right + bottom + left;
    RightInRange(i, n, g);
    LeftInRange(i, g);
    NeighborsDistinct(i, n, g);
  }

  /** A block with a right neighbour is not the last of the grid. */
  lemma RightInRange(i: Block, n: int, g: int)
    requires WellShaped(n, g) && 1 <= i <= n
    ensures PyMod(i, g) != 0 ==> i + 1 <= n
  {
    if i == n {
      assert n % g == 0;
    }
  }

  /** A block with a left neighbour is not the first of the grid. */
  lemma LeftInRange(i: Block, g: int)
    requires g >= 2 && 1 <= i
    ensures PyMod(i, g) != 1 ==> 2 <= i
  {
    if i == 1 {
      Product.DivModUnique(1, g, 0, 1);
    }
  }

  /** The four candidate neighbours are pairwise different once the grid is at least two wide. */
  lemma NeighborsDistinct(i: Block, n: int, g: int)
    requires g >= 2
    ensures Distinct(GridNeighbors(i, n, g))
  {
    var top := When(i > g, i - g);
    var right := When(PyMod(i, g) != 0, i + 1);
    var bottom := When(i <= n - g, i + g);
    var left := When(PyMod(i, g) != 1, i - 1);
    assert GridNeighbors(i, n, g) == top + right + bottom + left;
    DistinctConcat(top, right);
    DistinctConcat(top + right, bottom);
    DistinctConcat(top + right + bottom, left);
  }

  /** On a well-shaped grid adjacency is symmetric. */
  lemma NeighborsSymmetric(i: Block, j: Block, n: int, g: int)
    requires WellShaped(n, g) && 1 <= i <= n && 1 <= j <= n
    ensures j in GridNeighbors(i, n, g) <==> i in GridNeighbors(j, n, g)
  {
    NeighborSides(i, n, g, j);
    NeighborSides(j, n, g, i);
    ModSucc(i, g);
    ModSucc(j, g);
    ModSucc(i - 1, g);
    ModSucc(j - 1, g);
  }

  /** `j` is a neighbour of `i` exactly when it lies on a side whose grid test passes. */
  lemma NeighborSides(i: Block, n: int, g: int, j: Block)
    requires g != 0
    ensures j in GridNeighbors(i, n, g) <==>
      (i > g && j == i - g) || (PyMod(i, g) != 0 && j == i + 1)
      || (i <= n - g && j == i + g) || (PyMod(i, g) != 1 && j == i - 1)
  {
    var top := When(i > g, i - g);
    var right := When(PyMod(i, g) != 0, i + 1);
    var bottom := When(i <= n - g, i + g);
    var left := When(PyMod(i, g) != 1, i - 1);
    assert GridNeighbors(i, n, g) == top + right + bottom + left;
  }

  /** With a grid one block wide, block 1 lists the non-existent block 0 as its left neighbour. */
  lemma NarrowGridLeavesGrid(n: int)
    ensures 0 in GridNeighbors(1, n, 1)
  {
  }

  /** With a partial last row, the last block lists the non-existent block n + 1 as its right neighbour. */
  lemma RaggedGridLeavesGrid(n: int, g: int)
    requires g > 0 && n % g != 0
    ensures n + 1 in GridNeighbors(n, n, g)
  {
  }

  /** `{"mean": ..., "std": ...}`. */
  datatype Dist = Dist(mean: real, std: real)

  /** The parameters file: sizes, adjacency and the per-block distributions. */
  datatype Parameters = Parameters(
    noOfBlocks: int,
    gridSize: int,
    neighbors: Neighbors,
    ev: map<Block, Dist>,
    request: map<Block, Dist>,
    congestion: map<Block, map<Block, Dist>>)

  /** The adjacency of blocks 1..n. */
  function NeighborTable(n: int, g: int): (t: Neighbors)
    requires n < 1 || g != 0
    ensures forall b :: b in t <==> 1 <= b <= n
    ensures forall b :: b in t ==> t[b] == GridNeighbors(b, n, g)
  {
    map b | 1 <= b <= n :: GridNeighbors(b, n, g)
  }

  /**
   * The underlying `random.random()` draws of generate_parameters, by
   * block and by position within that block's draws: request mean and std,
   * EV mean and std, then mean and std per neighbour in list order.
   */
  type Draws = (Block, nat) -> real

  /** A mean drawn from [0.1, 0.5) and a std from [0.01, 0.1). */
  function DrawDist(u: Draws, b: Block, k: nat): (d: Dist)
    ensures 0.0 <= u(b, k) < 1.0 && 0.0 <= u(b, k + 1) < 1.0 ==> InRanges(d)
  {
    Dist(Uniform(0.1, 0.5, u(b, k)), Uniform(0.01, 0.1, u(b, k + 1)))
  }

  /** The draws are those of `random.random()`. */
  ghost predicate UnitDraws(u: Draws)
  {
    forall b, k :: 0.0 <= u(b, k) < 1.0
  }

  /** A distribution with both parameters in their drawing ranges. */
  predicate InRanges(d: Dist)
  {
    0.1 <= d.mean < 0.5 && 0.01 <= d.std < 0.1
  }

  /**
   * The congestion row of block `b` over `nbrs[m..]`, applied to `row` as
   * the loop assigns it: a neighbour listed twice keeps its last draw.
   */
  function CongestionRow(u: Draws, b: Block, nbrs: seq<Block>, m: nat, row: map<Block, Dist>): (r: map<Block, Dist>)
    requires m <= |nbrs|
    ensures forall j :: j in r <==> j in row || j in nbrs[m..]
    decreases |nbrs| - m
  {
    if m == |nbrs| then row
    else CongestionRow(u, b, nbrs, m + 1, row[nbrs[m] := DrawDist(u, b, 4 + 2 * m)])
  }

  /** Every entry a congestion row gains comes from a fresh pair of draws, so it stays in range. */
  lemma {:induction false} CongestionRowInRanges(u: Draws, b: Block, nbrs: seq<Block>, m: nat, row: map<Block, Dist>)
    requires m <= |nbrs| && UnitDraws(u)
    requires forall j :: j in row ==> InRanges(row[j])
    ensures var r := CongestionRow(u, b, nbrs, m, row); forall j :: j in r ==> InRanges(r[j])
    decreases |nbrs| - m
  {
    if m < |nbrs| {
      var k := 4 + 2 * m;
      assert 0.0 <= u(b, k) < 1.0 && 0.0 <= u(b, k + 1) < 1.0;
      var next := row[nbrs[m] := DrawDist(u, b, k)];
      assert InRanges(DrawDist(u, b, k));
      CongestionRowInRanges(u, b, nbrs, m + 1, next);
      assert CongestionRow(u, b, nbrs, m, row) == CongestionRow(u, b, nbrs, m + 1, next);
    }
  }

  /** The exception generate_parameters can raise. */
  datatype ParametersError =
    | ZeroGridSize   // ZeroDivisionError: `i % grid_size` with grid_size 0

  /**
   * generate_parameters: the grid adjacency table, and request, EV and
   * congestion distributions keyed by exactly the blocks and, for
   * congestion, by exactly each block's grid neighbours. So every fact
   * proved about `NeighborTable` and `CongestionTable` holds of the
   * generated parameters. With blocks to lay out on a grid of width 0, the
   * first right-neighbour test divides by zero and the call raises.
   */
  function GenerateParameters(n: int, g: int, u: Draws): (r: Result<Parameters, ParametersError>)
    ensures r.Failure? <==> 1 <= n && g == 0
    ensures r.Success? ==> var p := r.value;
      && p.noOfBlocks == n && p.gridSize == g
      && (forall b :: b in p.neighbors <==> 1 <= b <= n)
      && (forall b :: b in p.request <==> 1 <= b <= n)
      && (forall b :: b in p.ev <==> 1 <= b <= n)
      && (forall b :: b in p.congestion <==> 1 <= b <= n)
      && (forall b :: b in p.congestion ==> forall j :: j in p.congestion[b] <==> j in p.neighbors[b])
      && p.neighbors == NeighborTable(n, g)
      && p.congestion == CongestionTable(u, p.neighbors, n)
      && forall b :: 1 <= b <= n ==> p.neighbors[b] == GridNeighbors(b, n, g)
  {
    if 1 <= n && g == 0 then Failure(ZeroGridSize)
    else
      var nbrs := NeighborTable(n, g);
      Success(Parameters(n, g, nbrs,
        map b | 1 <= b <= n :: DrawDist(u, b, 2),
        map b | 1 <= b <= n :: DrawDist(u, b, 0),
        CongestionTable(u, nbrs, n)))
  }

  /** The congestion distributions of blocks 1..n, one row per block over its neighbours. */
  function CongestionTable(u: Draws, nbrs: Neighbors, n: int): (t: map<Block, map<Block, Dist>>)
    requires forall b :: 1 <= b <= n ==> b in nbrs
    ensures forall b :: b in t <==> 1 <= b <= n
    ensures forall b :: b in t ==> forall j :: j in t[b] <==> j in nbrs[b]
  {
    map b | 1 <= b <= n :: CongestionRow(u, b, nbrs[b], 0, map[])
  }

  /** With draws from [0, 1), every congestion distribution is in range. */
  lemma CongestionTableInRanges(u: Draws, nbrs: Neighbors, n: int)
    requires forall b :: 1 <= b <= n ==> b in nbrs
    requires UnitDraws(u)
    ensures var t := CongestionTable(u, nbrs, n);
      forall b, j :: b in t && j in t[b] ==> InRanges(t[b][j])
  {
    var t := CongestionTable(u, nbrs, n);
    forall b | b in t
      ensures forall j :: j in t[b] ==> InRanges(t[b][j])
    {
      assert t[b] == CongestionRow(u, b, nbrs[b], 0, map[]);
      CongestionRowInRanges(u, b, nbrs[b], 0, map[]);
    }
  }

  /** With draws from [0, 1), every mean lies in [0.1, 0.5) and every std in [0.01, 0.1). */
  lemma ParametersInRanges(n: int, g: int, u: Draws)
    requires UnitDraws(u)
    ensures var r := GenerateParameters(n, g, u);
      r.Success? ==>
      && (forall b :: b in r.value.request ==> InRanges(r.value.request[b]))
      && (forall b :: b in r.value.ev ==> InRanges(r.value.ev[b]))
      && forall b, j :: b in r.value.congestion && j in r.value.congestion[b] ==> InRanges(r.value.congestion[b][j])
  {
    var r := GenerateParameters(n, g, u);
    if r.Failure? {
      return;
    }
    var p := r.value;
    forall b | b in p.request
      ensures InRanges(p.request[b])
    {
      assert p.request[b] == DrawDist(u, b, 0);
      assert 0.0 <= u(b, 0) < 1.0 && 0.0 <= u(b, 1) < 1.0;
    }
    forall b | b in p.ev
      ensures InRanges(p.ev[b])
    {
      assert p.ev[b] == DrawDist(u, b, 2);
      assert 0.0 <= u(b, 2) < 1.0 && 0.0 <= u(b, 3) < 1.0;
    }
    CongestionTableInRanges(u, p.neighbors, n);
  }

  /** The decimal digits of `n`, as `str(n)` writes them. */
  function Decimal(n: nat): (s: string)
    ensures |s| >= 1
    ensures n >= 10 ==> |s| >= 2
    ensures forall k :: 0 <= k < |s| ==> '0' <= s[k] <= '9'
    decreases n
  {
    if n < 10 then [Digit(n)] else Decimal(n / 10) + [Digit(n % 10)]
  }

  /** The character of one decimal digit. */
  function Digit(d: nat): (c: char)
    requires d < 10
    ensures '0' <= c <= '9'
    ensures c as int - '0' as int == d
  {
    ('0' as int + d) as char
  }

  /** Different numbers print differently. */
  lemma {:induction false} DecimalInjective(a: nat, b: nat)
    requires Decimal(a) == Decimal(b)
    ensures a == b
    decreases a
  {
    var s := Decimal(a);
    if a < 10 && b < 10 {
    } else if a >= 10 && b >= 10 {
      assert Decimal(a / 10) == s[..|s| - 1] == Decimal(b / 10);
      DecimalInjective(a / 10, b / 10);
    }
  }

  /** The id of the agent created in round `i` of the loop. */
  function AgentName(i: nat): AgentId
  {
    "Agent_" + Decimal(i + 1)
  }

  /** The agents' file: its declared count and the agents by id. */
  datatype AgentInfo = AgentInfo(noOfAgents: int, agents: Dict<AgentId, Agent>)

  /** The exception generate_agents can raise. */
  datatype AgentsError =
    | EmptyBlockRange   // ValueError: randint(1, nblocks) with nblocks < 1

  /**
   * generate_agents: `noAgents` idle agents named Agent_1, Agent_2, ...,
   * the `i`-th with the charge drawn by `socDraw(i)` from [0.5, 1.0) and
   * the block `randint(1, nblocks)` picked by `blockDraw(i)`. The first
   * round raises when there are no blocks to pick from.
   */
  function GenerateAgents(noAgents: int, nblocks: int, socDraw: nat -> real, blockDraw: nat -> real)
    : (r: Result<AgentInfo, AgentsError>)
    ensures r.Failure? <==> 0 < noAgents && nblocks < 1
    ensures r.Success? ==> r.value.noOfAgents == noAgents
    ensures r.Success? ==> |r.value.agents| == if noAgents < 0 then 0 else noAgents
    ensures r.Success? ==> forall i :: 0 <= i < |r.value.agents| ==>
      var (id, a) := r.value.agents[i];
      id == AgentName(i) && a.id == AgentName(i) && a.isIdle
      && a.block == RandInt(1, nblocks, blockDraw(i))
      && (0.0 <= blockDraw(i) < 1.0 ==> 1 <= a.block <= nblocks)
      && (0.0 <= socDraw(i) < 1.0 ==> 0.5 <= a.soc < 1.0)
  {
    var count := if noAgents < 0 then 0 else noAgents;
    if 0 < count && nblocks < 1 then Failure(EmptyBlockRange)
    else
      Success(AgentInfo(noAgents, seq(count, i requires 0 <= i < count =>
        (AgentName(i), Agent(AgentName(i), RandInt(1, nblocks, blockDraw(i)), Uniform(0.5, 1.0, socDraw(i)), true)))))
  }

  /** The ids are all different, so each loop round adds a fresh entry and the table is keyed. */
  lemma AgentIdsDistinct(noAgents: int, nblocks: int, socDraw: nat -> real, blockDraw: nat -> real)
    ensures var r := GenerateAgents(noAgents, nblocks, socDraw, blockDraw);
      r.Success? ==> Keyed(r.value.agents)
  {
    var r := GenerateAgents(noAgents, nblocks, socDraw, blockDraw);
    if r.Success? {
      var d := r.value.agents;
      forall i, j | 0 <= i < j < |d|
        ensures Keys(d)[i] != Keys(d)[j]
      {
        assert Keys(d)[i] == AgentName(i) && Keys(d)[j] == AgentName(j);
        if AgentName(i) == AgentName(j) {
          AgentNameInjective(i, j);
        }
      }
    }
  }

  /** Different rounds name their agents differently. */
  lemma AgentNameInjective(i: nat, j: nat)
    requires AgentName(i) == AgentName(j)
    ensures i == j
  {
    assert Decimal(i + 1) == AgentName(i)[6..] == AgentName(j)[6..] == Decimal(j + 1);
    DecimalInjective(i + 1, j + 1);
  }
}
