/** The attack simulator: a private copy of a graph, and the percolation
    run that removes its nodes batch by batch in a fixed ranking, recording
    after every batch the fraction removed, the giant component relative
    to the initial one, and the number of components. */
module Attack {
  import opened Wrappers
  import opened Seqs
  import opened Graphs
  import opened Components
  import opened Ranking

  /** `AttackSimulator`: the copied graph, its node count and its giant
      component size, both recorded at construction. */
  datatype Simulator<N(==)> = Simulator(graph: Graph<N>, initialSize: nat, initialGc: nat)

  /** The three series `simulate` returns: `x`, `gc` and `frag`. */
  datatype Series = Series(x: seq<real>, gc: seq<real>, frag: seq<nat>)

  /** The recorded sizes are those of the recorded graph. */
  predicate Consistent<N(==)>(sim: Simulator<N>) {
    && Valid(sim.graph) && sim.initialSize == |sim.graph.order| && sim.initialGc == GiantSize(sim.graph)
    && (sim.initialSize > 0 ==> sim.initialGc > 0)
  }

  /** The constructor: copies the graph and measures it. The giant
      component is empty exactly when the graph is, and never exceeds it. */
  method NewSimulator<N(==)>(g: Graph<N>) returns (sim: Simulator<N>)
    requires Valid(g)
    ensures Consistent(sim) && sim.graph == g
    ensures sim.initialGc == 0 <==> sim.initialSize == 0
    ensures sim.initialGc <= sim.initialSize
  {
    var gc, _ := Metrics(g);
    GiantSizeIsLargest(g);
    sim := Simulator(g, |g.order|, gc);
  }

  /** Division of naturals rounds down. */
  function NatDiv(a: nat, b: nat): (q: nat)
    requires b > 0
    ensures q * b <= a < q * b + b
  {
    assert a == (a / b) * b + a % b;
    a / b
  }

  /** Python's `int(a / b)`: the quotient rounded toward zero. */
  function TruncDiv(a: int, b: int): (q: int)
    requires b != 0
    ensures a >= 0 && b > 0 ==> q * b <= a < q * b + b
    ensures (a >= 0) == (b > 0) ==> q >= 0
    ensures (a >= 0) != (b > 0) ==> q <= 0
  {
    var m: int := NatDiv(if a >= 0 then a else -a, if b > 0 then b else -b);
    if (a >= 0) == (b > 0) then m else -m
  }

  /** `a / b` in floating point, here as an exact fraction. */
  function Fraction(a: nat, b: nat): real
    requires b > 0
  {
    a as real / b as real
  }

  /** A count out of a positive total is never negative, is 0 only for
      none and 1 only for all, and lies in [0, 1] when the count is at most
      the total. */
  lemma {:induction false} FractionRange(a: nat, b: nat)
    requires 0 < b
    ensures 0.0 <= Fraction(a, b)
    ensures a <= b ==> Fraction(a, b) <= 1.0
    ensures Fraction(a, b) == 0.0 <==> a == 0
    ensures Fraction(a, b) == 1.0 <==> a == b
  {
    var f := Fraction(a, b);
    assert f * b as real == a as real;
    if a == b {
      assert f * b as real == 1.0 * b as real;
    }
  }

  /** The batch size `max(1, int(N / steps))`: at least one node; the whole
      quotient when `steps` is positive and at most `n`; a single node when
      `steps` is negative. */
  function BatchSize(n: nat, steps: int): (c: nat)
    requires steps != 0
    ensures c >= 1
    ensures 0 < steps <= n ==> c * steps <= n < (c + 1) * steps
    ensures steps > n ==> c == 1
    ensures steps < 0 ==> c == 1
  {
    Max(1, TruncDiv(n, steps))
  }

  /** Python's `a // b`: the quotient rounded down. */
  function FloorDiv(a: int, b: int): (q: int)
    requires b != 0
    ensures b > 0 ==> q * b <= a < q * b + b
    ensures b < 0 ==> q * b + b < a <= q * b
  {
    if b > 0 then a / b else (-a) / (-b)
  }

  /** Truncation and flooring differ for a negative `steps`, but both
      quotients are then at most 0, so the batch size is `max(1, N // steps)`
      for every non-zero `steps`. */
  lemma {:induction false} BatchSizeFloor(n: nat, steps: int)
    requires steps != 0
    ensures BatchSize(n, steps) == Max(1, FloorDiv(n, steps))
  {
    var q := FloorDiv(n, steps);
    if steps > 0 {
      var t := TruncDiv(n, steps);
      assert t * steps <= n < t * steps + steps;
      assert q * steps <= n < q * steps + steps;
      UniqueQuotient(n, steps, q, t);
    } else {
      assert q * steps >= 0;
    }
  }

  /** Two quotients of `a` by a positive `b` that both round down agree. */
  lemma {:induction false} UniqueQuotient(a: int, b: int, q: int, t: int)
    requires b > 0
    requires q * b <= a < q * b + b && t * b <= a < t * b + b
    ensures q == t
  {
    var d := q - t;
    assert d * b == q * b - t * b;
    MulBound(d, b);
  }

  /** A non-zero multiple of a positive `b` is at least `b` away from 0. */
  lemma {:induction false} MulBound(d: int, b: int)
    requires b > 0
    ensures d >= 1 ==> d * b >= b
    ensures d <= -1 ==> d * b <= -b
  {
    if d >= 1 {
      assert d * b == b + (d - 1) * b;
    } else if d <= -1 {
      assert d * b == -b - (-d - 1) * b;
    }
  }

  /** The graph without the first `k` nodes of the ranking. */
  function Attacked<N(==)>(g: Graph<N>, rank: seq<N>, k: nat): Graph<N>
    requires k <= |rank|
  {
    RemoveNodes(g, rank[..k])
  }

  /** One series after the other. */
  function Then(a: Series, b: Series): Series {
    Series(a.x + b.x, a.gc + b.gc, a.frag + b.frag)
  }

  /** The three series run in step. */
  predicate InStep(s: Series) {
    |s.x| == |s.gc| == |s.frag|
  }

  /** The reading before any removal. */
  function Initial<N(==)>(sim: Simulator<N>): (s: Series)
    ensures InStep(s) && |s.x| == 1
  {
    Series([0.0], [1.0], [ComponentCount(sim.graph)])
  }

  /** The reading once the first `k` nodes of the ranking have gone: the
      fraction removed, the giant component relative to the initial one,
      and the number of components. */
  function Reading<N(==)>(sim: Simulator<N>, rank: seq<N>, k: nat): (s: Series)
    requires Consistent(sim) && |rank| == sim.initialSize && 0 < k <= |rank|
    ensures InStep(s) && |s.x| == 1
    ensures 0.0 < s.x[0] <= 1.0 && (s.x[0] == 1.0 <==> k == |rank|)
    ensures s.gc[0] >= 0.0 && (s.gc[0] == 0.0 <==> |Attacked(sim.graph, rank, k).order| == 0)
    ensures s.frag[0] == 0 <==> |Attacked(sim.graph, rank, k).order| == 0
  {
    var h := Attacked(sim.graph, rank, k);
    var n := sim.initialSize;
    FractionRange(k, n);
    FractionRange(GiantSize(h), sim.initialGc);
    Series([Fraction(k, n)],
           [Fraction(GiantSize(h), sim.initialGc)],
           [ComponentCount(h)])
  }

  /** The removal counts after each of at most `rounds` more rounds, with
      `k` of `n` nodes gone: every round takes the next `chunk` nodes of the
      ranking, or what is left of them, and no round runs once every node
      has gone. */
  function Cuts(k: nat, chunk: nat, n: nat, rounds: nat): (c: seq<nat>)
    ensures |c| <= rounds
    ensures |c| == 0 <==> rounds == 0 || k >= n
    decreases rounds
  {
    if rounds == 0 || k >= n then []
    else [Min(k + chunk, n)] + Cuts(Min(k + chunk, n), chunk, n, rounds - 1)
  }

  /** One reading per removal count, in order. */
  function ReadAll<N(==)>(sim: Simulator<N>, rank: seq<N>, cuts: seq<nat>): (s: Series)
    requires Consistent(sim) && |rank| == sim.initialSize
    requires forall i :: 0 <= i < |cuts| ==> 0 < cuts[i] <= |rank|
    ensures InStep(s) && |s.x| == |cuts|
    decreases |cuts|
  {
    if |cuts| == 0 then Series([], [], [])
    else Then(Reading(sim, rank, cuts[0]), ReadAll(sim, rank, cuts[1..]))
  }

  /** Every count on the schedule removes something and stays within `n`. */
  lemma {:induction false} CutsRange(k: nat, chunk: nat, n: nat, rounds: nat)
    requires chunk >= 1
    ensures forall i :: 0 <= i < |Cuts(k, chunk, n, rounds)| ==> k < Cuts(k, chunk, n, rounds)[i] <= n
    decreases rounds
  {
    if rounds > 0 && k < n {
      var k' := Min(k + chunk, n);
      var c, rest := Cuts(k, chunk, n, rounds), Cuts(k', chunk, n, rounds - 1);
      CutsRange(k', chunk, n, rounds - 1);
      assert c == [k'] + rest;
      forall i | 0 < i < |c| ensures k < c[i] <= n {
        assert c[i] == rest[i - 1];
      }
    }
  }

  /** What `simulate` returns, by definition: the initial reading, then one
      reading per round, for at most `steps` rounds. */
  function Expected<N(==)>(sim: Simulator<N>, rank: seq<N>, chunk: nat, steps: int): (r: Series)
    requires Consistent(sim) && |rank| == sim.initialSize && chunk >= 1
    ensures InStep(r) && 1 <= |r.x| <= Max(steps, 0) + 1
    ensures r.x[0] == 0.0 && r.gc[0] == 1.0 && r.frag[0] == ComponentCount(sim.graph)
  {
    CutsRange(0, chunk, |rank|, Max(steps, 0));
    Then(Initial(sim), ReadAll(sim, rank, Cuts(0, chunk, |rank|, Max(steps, 0))))
  }

  /** Removing a prefix of a ranking of all nodes leaves the other nodes. */
  lemma {:induction false} AttackedSize<N>(g: Graph<N>, rank: seq<N>, k: nat)
    requires Valid(g) && Permutation(rank, g.order) && k <= |rank|
    ensures Valid(Attacked(g, rank, k))
    ensures |Attacked(g, rank, k).order| == |g.order| - k
  {
    var h := Attacked(g, rank, k);
    PermutationKeepsDistinct(rank, g.order);
    var gone := rank[..k];
    assert Distinct(gone);
    DistinctCard(gone);
    assert Elements(gone) <= Elements(rank);
    assert Nodes(h) == Nodes(g) - Elements(gone);
    assert |Nodes(h)| == |Nodes(g)| - |Elements(gone)| by {
      assert Nodes(g) == Nodes(h) + Elements(gone);
    }
    DistinctCard(g.order);
    DistinctCard(h.order);
  }

  /** One more batch: removing the next slice of the ranking from the graph
      already attacked is attacking the longer prefix. */
  lemma {:induction false} NextBatch<N>(g: Graph<N>, rank: seq<N>, k: nat, k': nat)
    requires k <= k' <= |rank|
    ensures RemoveNodes(Attacked(g, rank, k), rank[k..k']) == Attacked(g, rank, k')
  {
    RemoveNodesTwice(g, rank[..k], rank[k..k']);
    assert rank[..k] + rank[k..k'] == rank[..k'];
  }

  /** `simulate(strategy, steps)`: ranks all nodes once, on the unmodified
      copy, then removes them `chunk` at a time for at most `steps` rounds,
      stopping early once nothing is left. An unknown strategy fails before
      anything else, a missing in-degree before the batch size is computed,
      and `steps == 0` when it is. `draw` is the shuffle's random source and
      `bc(k)` the betweenness scores for sample size `k`. */
  method Simulate<N(==, !new)>(sim: Simulator<N>, strategy: string, steps: int,
                               draw: nat -> nat, bc: Option<nat> -> N -> real)
    returns (result: Result<Series, Error>)
    requires Consistent(sim)
    ensures ParseStrategy(strategy).None? ==> result == Err(UnknownStrategy(strategy))
    ensures ParseStrategy(strategy).Some? ==>
      var ranked := Rank(sim.graph, ParseStrategy(strategy).value, draw, bc);
      && (ranked.Err? ==> result == Err(ranked.error))
      && (ranked.Ok? && steps == 0 ==> result == Err(ZeroSteps))
      && (ranked.Ok? && steps != 0 ==>
            |ranked.value| == sim.initialSize &&
            result == Ok(Expected(sim, ranked.value, BatchSize(sim.initialSize, steps), steps)))
  {
    var parsed := ParseStrategy(strategy);
    if parsed.None? {
      return Err(UnknownStrategy(strategy));
    }
    var ranked := Rank(sim.graph, parsed.value, draw, bc);
    if ranked.Err? {
      return Err(ranked.error);
    }
    if steps == 0 {
      return Err(ZeroSteps);
    }
    var rank := ranked.value;
    var chunk := BatchSize(sim.initialSize, steps);
    var series := Run(sim, rank, chunk, steps);
    result := Ok(series);
  }

  /** The arguments `simulate` takes when its caller leaves them out. */
  const DefaultStrategy: string := "random"
  const DefaultSteps: int := 50

  /** `simulate` with the default number of steps, as the driver calls it:
      it never divides by zero, a random attack always succeeds, and the
      series has at most 51 readings. */
  method SimulateDefaultSteps<N(==, !new)>(sim: Simulator<N>, strategy: string,
                                           draw: nat -> nat, bc: Option<nat> -> N -> real)
    returns (result: Result<Series, Error>)
    requires Consistent(sim)
    ensures result.Err? ==> result.error != ZeroSteps
    ensures strategy == DefaultStrategy ==> result.Ok?
    ensures result.Ok? ==> InStep(result.value) && 1 <= |result.value.x| <= DefaultSteps + 1
    ensures ParseStrategy(strategy).Some? ==>
      var ranked := Rank(sim.graph, ParseStrategy(strategy).value, draw, bc);
      ranked.Ok? ==> result == Ok(Expected(sim, ranked.value, BatchSize(sim.initialSize, DefaultSteps), DefaultSteps))
  {
    result := Simulate(sim, strategy, DefaultSteps, draw, bc);
  }

  /** The batch loop of `simulate`, on a ranking of all nodes. It stops
      after `steps` rounds, when every node has gone, or when the giant
      component has vanished, which happens only then. */
  method Run<N(==)>(sim: Simulator<N>, rank: seq<N>, chunk: nat, steps: int) returns (s: Series)
    requires Consistent(sim) && Permutation(rank, sim.graph.order) && chunk >= 1
    ensures |rank| == sim.initialSize && s == Expected(sim, rank, chunk, steps)
  {
    var n := sim.initialSize;
    PermutationKeepsDistinct(rank, sim.graph.order);
    var rounds := Max(steps, 0);
    var g;
    g, s := Start(sim, rank, chunk);
    ExpectedStart(sim, rank, chunk, steps);
    var removed := 0;
    var round := 0;
    var left := rounds;
    var vanished := false;
    while round < steps && removed < n && !vanished
      invariant 0 <= round <= rounds && left == rounds - round && removed <= n
      invariant g == Attacked(sim.graph, rank, removed)
      invariant vanished ==> removed == n
      invariant Then(s, Remaining(sim, rank, chunk, removed, left)) == Expected(sim, rank, chunk, steps)
    {
      var gcSize;
      removed, g, s, gcSize := Batch(sim, rank, chunk, left, removed, g, s);
      round := round + 1;
      left := left - 1;
      vanished := gcSize == 0;
    }
    NothingLeft(s);
  }

  /** The copy of the graph and its reading before any removal. */
  method Start<N(==)>(sim: Simulator<N>, rank: seq<N>, chunk: nat) returns (g: Graph<N>, s: Series)
    requires Consistent(sim) && |rank| == sim.initialSize
    ensures g == Attacked(sim.graph, rank, 0)
    ensures s == Initial(sim)
  {
    g := sim.graph;
    var _, count := Metrics(g);
    s := Series([0.0], [1.0], [count]);
    assert rank[..0] == [];
    RemoveNothing(g);
  }

  /** The series starts with the initial reading, every round still to come. */
  lemma {:induction false} ExpectedStart<N>(sim: Simulator<N>, rank: seq<N>, chunk: nat, steps: int)
    requires Consistent(sim) && |rank| == sim.initialSize && chunk >= 1
    ensures Then(Initial(sim), Remaining(sim, rank, chunk, 0, Max(steps, 0))) == Expected(sim, rank, chunk, steps)
  {
  }

  lemma {:induction false} NothingLeft(s: Series)
    ensures Then(s, Series([], [], [])) == s
  {
    assert s.x + [] == s.x && s.gc + [] == s.gc && s.frag + [] == s.frag;
  }

  lemma {:induction false} ThenAssoc(a: Series, b: Series, c: Series)
    ensures Then(Then(a, b), c) == Then(a, Then(b, c))
  {
    assert (a.x + b.x) + c.x == a.x + (b.x + c.x);
    assert (a.gc + b.gc) + c.gc == a.gc + (b.gc + c.gc);
    assert (a.frag + b.frag) + c.frag == a.frag + (b.frag + c.frag);
  }

  /** The readings still to come with `k` nodes gone and at most `rounds`
      rounds left. */
  function Remaining<N(==)>(sim: Simulator<N>, rank: seq<N>, chunk: nat, k: nat, rounds: nat): Series
    requires Consistent(sim) && |rank| == sim.initialSize && chunk >= 1
  {
    CutsRange(k, chunk, |rank|, rounds);
    ReadAll(sim, rank, Cuts(k, chunk, |rank|, rounds))
  }

  /** The next round's reading comes first. */
  lemma {:induction false} RemainingStep<N>(sim: Simulator<N>, rank: seq<N>, chunk: nat, k: nat, rounds: nat)
    requires Consistent(sim) && |rank| == sim.initialSize && chunk >= 1
    requires k < |rank| && rounds > 0
    ensures var k' := Min(k + chunk, |rank|);
      Remaining(sim, rank, chunk, k, rounds) ==
        Then(Reading(sim, rank, k'), Remaining(sim, rank, chunk, k', rounds - 1))
  {
    var k' := Min(k + chunk, |rank|);
    var c := Cuts(k, chunk, |rank|, rounds);
    CutsRange(k, chunk, |rank|, rounds);
    assert c[0] == k' && c[1..] == Cuts(k', chunk, |rank|, rounds - 1);
  }

  /** One round of the loop: removes the next slice of the ranking from the
      graph, then appends the reading of what is left, which the readings
      still to come begin with. The giant component vanishes exactly when
      the last node has gone. */
  method Batch<N(==)>(sim: Simulator<N>, rank: seq<N>, chunk: nat, rounds: nat,
                      removed: nat, g: Graph<N>, s: Series)
    returns (removed': nat, g': Graph<N>, s': Series, gcSize: nat)
    requires Consistent(sim) && Permutation(rank, sim.graph.order) && chunk >= 1
    requires |rank| == sim.initialSize && removed < sim.initialSize && rounds > 0
    requires g == Attacked(sim.graph, rank, removed)
    ensures removed' == Min(removed + chunk, sim.initialSize)
    ensures g' == Attacked(sim.graph, rank, removed')
    ensures Then(s', Remaining(sim, rank, chunk, removed', rounds - 1)) == Then(s, Remaining(sim, rank, chunk, removed, rounds))
    ensures gcSize == 0 <==> removed' == sim.initialSize
  {
    removed', g' := RemoveBatch(sim, rank, chunk, removed, g);
    var parts;
    gcSize, parts := Metrics(g');
    var reading := Series([Fraction(removed', sim.initialSize)],
                          [Fraction(gcSize, sim.initialGc)],
                          [parts]);
    assert reading == Reading(sim, rank, removed');
    s' := Then(s, reading);
    RemainingStep(sim, rank, chunk, removed, rounds);
    ThenAssoc(s, reading, Remaining(sim, rank, chunk, removed', rounds - 1));
    AttackedSize(sim.graph, rank, removed');
    GiantSizeIsLargest(g');
  }

  /** `g.remove_nodes_from(batch)` for the next batch of at most `chunk`
      nodes of the ranking. */
  method RemoveBatch<N(==)>(sim: Simulator<N>, rank: seq<N>, chunk: nat,
                            removed: nat, g: Graph<N>)
    returns (removed': nat, g': Graph<N>)
    requires removed <= |rank|
    requires g == Attacked(sim.graph, rank, removed)
    ensures removed' == Min(removed + chunk, |rank|)
    ensures g' == Attacked(sim.graph, rank, removed')
  {
    var next := Min(removed + chunk, |rank|);
    var batch := rank[removed..next];
    g' := RemoveNodes(g, batch);
    removed' := removed + |batch|;
    assert removed' == next;
    NextBatch(sim.graph, rank, removed, next);
  }
}
