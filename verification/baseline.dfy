/** The random baseline: an Erdős–Rényi graph G(n, p) with as many nodes as
    the real network and an edge probability chosen so that its expected
    edge count matches the real one. */
module Baseline {

  /** Unordered pairs of distinct nodes among `n`. */
  function UnorderedPairs(n: nat): nat {
    if n == 0 then 0 else UnorderedPairs(n - 1) + (n - 1)
  }

  /** Candidate edges of G(n, p) on `n` nodes without self-loops: ordered
      pairs when directed, unordered pairs otherwise. */
  function Pairs(n: nat, directed: bool): nat {
    if directed then 2 * UnorderedPairs(n) else UnorderedPairs(n)
  }

  /** Expected number of edges of the library's G(n, p): the empty graph
      for `p <= 0`, the complete graph for `p >= 1`, and otherwise every
      candidate edge present with probability `p`. */
  function ExpectedEdges(n: nat, p: real, directed: bool): real {
    if p <= 0.0 then 0.0
    else if p >= 1.0 then Pairs(n, directed) as real
    else p * Pairs(n, directed) as real
  }

  /** A `p` chosen so that `p` times the candidate edges is `e`: G(n, p) has
      `e` edges on average when there are that many candidates, and is
      complete when there are fewer. */
  lemma {:induction false} ClampedExpectation(n: nat, directed: bool, p: real, e: real)
    requires Pairs(n, directed) > 0 && 0.0 <= e && p * Pairs(n, directed) as real == e
    ensures e <= Pairs(n, directed) as real ==> ExpectedEdges(n, p, directed) == e
    ensures e > Pairs(n, directed) as real ==> ExpectedEdges(n, p, directed) == Pairs(n, directed) as real
  {
    var d := Pairs(n, directed) as real;
    assert (p - 1.0) * d == e - d;
    if p <= 0.0 {
      assert p * d <= 0.0;
    } else if p >= 1.0 {
      assert (p - 1.0) * d >= 0.0;
    } else {
      assert (p - 1.0) * d < 0.0;
    }
  }

  /** `N (N - 1)`, the denominator of the source's formula, counts ordered
      pairs; there is at least one once there are two nodes. */
  lemma {:induction false} PairsProduct(n: nat)
    ensures n * (n - 1) == 2 * UnorderedPairs(n)
    ensures n > 1 ==> UnorderedPairs(n) >= 1
  {
    if n > 0 {
      PairsProduct(n - 1);
      assert n * (n - 1) == (n - 1) * (n - 2) + 2 * (n - 1);
    }
  }

  /** A share of a positive whole lies in [0, 1]. */
  lemma {:induction false} ShareBounds(a: real, b: real)
    requires 0.0 < b && 0.0 <= a
    ensures 0.0 <= a / b
    ensures a <= b ==> a / b <= 1.0
  {
    assert a / b * b == a;
  }

  /** `p = 2E / (N (N - 1))` for more than one node, 0 otherwise, whatever the
      graph's direction: `p` times the unordered pairs is `E`, so an
      undirected G(n, p) has `E` edges on average when there are at least
      `E` pairs, and is complete otherwise. */
  function EdgeProbability(n: nat, e: nat): (p: real)
    ensures n <= 1 ==> p == 0.0
    ensures n > 1 ==> p * Pairs(n, false) as real == e as real
    ensures n > 1 && e <= Pairs(n, false) ==> ExpectedEdges(n, p, false) == e as real
    ensures n > 1 && e > Pairs(n, false) ==> ExpectedEdges(n, p, false) == Pairs(n, false) as real
  {
    if n > 1 then
      PairsProduct(n);
      var p := (2 * e) as real / (n * (n - 1)) as real;
      assert p * (n * (n - 1)) as real == (2 * e) as real;
      assert p * Pairs(n, false) as real == e as real;
      ClampedExpectation(n, false, p, e as real);
      p
    else 0.0
  }

  /** On a simple undirected graph the probability is a probability. */
  lemma {:induction false} UndirectedProbability(n: nat, e: nat)
    requires e <= Pairs(n, false)
    ensures 0.0 <= EdgeProbability(n, e) <= 1.0
  {
    CorrectedAgrees(n, e);
  }

  /** As written, the formula doubles the expected edge count of a directed
      baseline, which the driver builds for directed networks, as long as
      there are `2E` ordered pairs; with fewer, the baseline is the complete
      directed graph. */
  lemma {:induction false} DirectedDoubles(n: nat, e: nat)
    requires n > 1
    ensures 2 * e <= Pairs(n, true) ==> ExpectedEdges(n, EdgeProbability(n, e), true) == 2.0 * e as real
    ensures 2 * e > Pairs(n, true) ==> ExpectedEdges(n, EdgeProbability(n, e), true) == Pairs(n, true) as real
  {
    PairsProduct(n);
    var p := EdgeProbability(n, e);
    assert p * Pairs(n, false) as real == e as real;
    assert Pairs(n, true) as real == 2.0 * Pairs(n, false) as real;
    assert p * Pairs(n, true) as real == 2.0 * e as real;
    ClampedExpectation(n, true, p, 2.0 * e as real);
  }

  /** Two directed witnesses. On two nodes with both edges the formula
      yields 2, which is no probability (the library then builds the
      complete directed graph). On three nodes with two edges it yields
      2/3, and the directed baseline has 4 edges on average instead of 2. */
  lemma {:induction false} DirectedOverflow()
    ensures 2 <= Pairs(2, true)
    ensures EdgeProbability(2, 2) == 2.0
    ensures 2 <= Pairs(3, true) && ExpectedEdges(3, EdgeProbability(3, 2), true) == 4.0
  {
    DirectedDoubles(3, 2);
  }

  /** The probability with the candidate pairs counted for the graph's
      direction: `p` times the candidate edges is `E`, so for any simple
      graph `p` lies in [0, 1] and G(n, p) has `E` edges on average, whether
      directed or not. */
  function DirectedEdgeProbability(n: nat, e: nat, directed: bool): (p: real)
    ensures n <= 1 ==> p == 0.0
    ensures n > 1 ==> p * Pairs(n, directed) as real == e as real
    ensures n > 1 && e <= Pairs(n, directed) ==> ExpectedEdges(n, p, directed) == e as real
    ensures e <= Pairs(n, directed) ==> 0.0 <= p <= 1.0
  {
    if n > 1 then
      PairsProduct(n);
      var d := Pairs(n, directed) as real;
      var p := e as real / d;
      assert p * d == e as real;
      ShareBounds(e as real, d);
      ClampedExpectation(n, directed, p, e as real);
      p
    else 0.0
  }

  /** For an undirected graph the corrected probability is the original one. */
  lemma {:induction false} CorrectedAgrees(n: nat, e: nat)
    ensures DirectedEdgeProbability(n, e, false) == EdgeProbability(n, e)
  {
    if n > 1 {
      PairsProduct(n);
      Cancel(DirectedEdgeProbability(n, e, false), EdgeProbability(n, e), Pairs(n, false) as real);
    }
  }

  /** Equal multiples of a non-zero number have equal factors. */
  lemma {:induction false} Cancel(p: real, q: real, d: real)
    requires d != 0.0 && p * d == q * d
    ensures p == q
  {
    assert (p - q) * d == 0.0;
  }
}
