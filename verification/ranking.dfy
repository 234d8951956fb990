/** The removal order `simulate` fixes before removing anything: the
    strategy named by a string, and the ranking of every node of the
    unmodified graph that it produces. */
module Ranking {
  import opened Wrappers
  import opened Seqs
  import opened Graphs
  import opened Sorting
  import opened Text

  datatype Strategy = Random | ByDegree | ByInDegree | ByBetweenness(approx: bool)

  /** The exceptions `simulate` raises: `ValueError` for an unknown
      strategy, `AttributeError` when an undirected graph is asked for
      in-degrees, `ZeroDivisionError` when the number of steps is 0. */
  datatype Error = UnknownStrategy(name: string) | NoInDegree | ZeroSteps

  /** The strategy a name selects: three exact names, then any name
      containing "betweenness" (approximated when it also contains
      "approx"); nothing else. */
  function ParseStrategy(name: string): (r: Option<Strategy>)
    ensures r.None? <==>
      name != "random" && name != "degree" && name != "indegree" && !Contains(name, "betweenness")
    ensures r == Some(Random) <==> name == "random"
    ensures r == Some(ByDegree) <==> name == "degree"
    ensures r == Some(ByInDegree) <==> name == "indegree"
    ensures r.Some? && r.value.ByBetweenness? ==> r.value.approx == Contains(name, "approx")
  {
    if name == "random" then Some(Random)
    else if name == "degree" then Some(ByDegree)
    else if name == "indegree" then Some(ByInDegree)
    else if Contains(name, "betweenness") then Some(ByBetweenness(Contains(name, "approx")))
    else None
  }

  /** The four names the analysis driver passes select the four strategies. */
  lemma {:induction false} DriverNames()
    ensures ParseStrategy("random") == Some(Random)
    ensures ParseStrategy("degree") == Some(ByDegree)
    ensures ParseStrategy("indegree") == Some(ByInDegree)
    ensures ParseStrategy("betweenness_approx") == Some(ByBetweenness(true))
  {
    var name := "betweenness_approx";
    assert "betweenness" <= name;
    assert OccursAt(name, "approx", 12);
    ContainsAt(name, "approx");
  }

  /** `s` with the elements at `a` and `b` exchanged. */
  function Swap<T>(s: seq<T>, a: nat, b: nat): (r: seq<T>)
    requires a < |s| && b < |s|
    ensures |r| == |s| && r[a] == s[b] && r[b] == s[a]
    ensures forall k :: 0 <= k < |s| && k != a && k != b ==> r[k] == s[k]
  {
    s[a := s[b]][b := s[a]]
  }

  /** CPython's `random.shuffle` on the first `i` positions: position
      `i - 1` is exchanged with the position the draw for it selects among
      `0 .. i - 1`, then the positions below it are shuffled. The random
      source is the parameter `draw`, read once per position. */
  function ShuffleBelow<T>(s: seq<T>, i: nat, draw: nat -> nat): (r: seq<T>)
    requires i <= |s|
    ensures |r| == |s|
    ensures forall k :: i <= k < |s| ==> r[k] == s[k]
    decreases i
  {
    if i <= 1 then s
    else ShuffleBelow(Swap(s, i - 1, draw(i - 1) % i), i - 1, draw)
  }

  function Shuffle<T>(s: seq<T>, draw: nat -> nat): (r: seq<T>)
    ensures Permutation(r, s)
  {
    ShufflePermutes(s, |s|, draw);
    ShuffleBelow(s, |s|, draw)
  }

  /** Exchanges only reorder: the shuffle is a permutation. */
  lemma {:induction false} ShufflePermutes<T>(s: seq<T>, i: nat, draw: nat -> nat)
    requires i <= |s|
    ensures Permutation(ShuffleBelow(s, i, draw), s)
    decreases i
  {
    if i > 1 {
      var t := Swap(s, i - 1, draw(i - 1) % i);
      assert Permutation(t, s);
      ShufflePermutes(t, i - 1, draw);
    }
  }

  /** Draws that always select the position itself leave the order alone. */
  lemma {:induction false} ShuffleStill<T>(s: seq<T>, i: nat, draw: nat -> nat)
    requires i <= |s|
    requires forall k :: 0 < k < i ==> draw(k) % (k + 1) == k
    ensures ShuffleBelow(s, i, draw) == s
    decreases i
  {
    if i > 1 {
      var j := draw(i - 1) % i;
      assert j == i - 1 by {
        assert 0 < i - 1 < i;
      }
      var t := Swap(s, i - 1, j);
      assert t == s by {
        assert forall k :: 0 <= k < |s| ==> t[k] == s[k];
      }
      ShuffleStill(s, i - 1, draw);
    }
  }

  /** "Goes before" for a descending sort on `key`. */
  function Descending<T>(key: T -> real): (T, T) -> bool {
    (a, b) => key(a) > key(b)
  }

  lemma {:induction false} DescendingIsStrictWeak<T(!new)>(key: T -> real)
    ensures StrictWeakOrder(Descending(key))
  {
  }

  /** Keys never increase along `s`. */
  ghost predicate NonIncreasing<T>(key: T -> real, s: seq<T>) {
    forall i, j :: 0 <= i < j < |s| ==> key(s[i]) >= key(s[j])
  }

  /** Python's `sorted(..., key=key, reverse=True)`: stable, descending. */
  function SortDescending<T(!new)>(key: T -> real, s: seq<T>): (r: seq<T>)
    ensures Permutation(r, s)
    ensures NonIncreasing(key, r)
    ensures Stable(Descending(key), r, s)
  {
    DescendingIsStrictWeak(key);
    SortCorrect(Descending(key), s);
    Sort(Descending(key), s)
  }

  function DegreeKey<N(==)>(g: Graph<N>): N -> real {
    n => Degree(g, n) as real
  }

  function InDegreeKey<N(==)>(g: Graph<N>): N -> real {
    n => InDegree(g, n) as real
  }

  /** The betweenness sample size: `min(1000, N)` pivots when approximated,
      every node (`None`) otherwise. */
  function SampleSize(approx: bool, n: nat): (k: Option<nat>)
    ensures approx <==> k.Some?
    ensures k.Some? ==> 1 <= k.value <= 1000 || n == 0
    ensures k.Some? ==> k.value <= n && (n <= 1000 ==> k.value == n)
    ensures k.Some? && n > 1000 ==> k.value == 1000
  {
    if approx then Some(Min(1000, n)) else None
  }

  /** The removal order for `strategy` on `g`. `draw` is the random source of
      the shuffle, `bc(k)` the betweenness scores for sample size `k`. An
      undirected graph has no in-degree; the key is first needed, and the
      error raised, only when there is a node to rank. */
  function Rank<N(==, !new)>(g: Graph<N>, strategy: Strategy, draw: nat -> nat,
                            bc: Option<nat> -> N -> real): (r: Result<seq<N>, Error>)
    requires Valid(g)
    ensures r.Err? <==> strategy == ByInDegree && !g.directed && |g.order| > 0
    ensures r.Err? ==> r.error == NoInDegree
    ensures r.Ok? ==> Permutation(r.value, g.order) && Distinct(r.value) && Elements(r.value) == Nodes(g)
    ensures r.Ok? && strategy == ByDegree ==>
      NonIncreasing(DegreeKey(g), r.value) && Stable(Descending(DegreeKey(g)), r.value, g.order)
    ensures r.Ok? && strategy == ByInDegree ==>
      NonIncreasing(InDegreeKey(g), r.value) && Stable(Descending(InDegreeKey(g)), r.value, g.order)
    ensures r.Ok? && strategy.ByBetweenness? ==>
      var score := bc(SampleSize(strategy.approx, |g.order|));
      NonIncreasing(score, r.value) && Stable(Descending(score), r.value, g.order)
  {
    var order := match strategy
      case Random => Shuffle(g.order, draw)
      case ByDegree => SortDescending(DegreeKey(g), g.order)
      case ByInDegree => SortDescending(InDegreeKey(g), g.order)
      case ByBetweenness(approx) => SortDescending(bc(SampleSize(approx, |g.order|)), g.order);
    PermutationKeepsDistinct(order, g.order);
    if strategy == ByInDegree && !g.directed && |g.order| > 0 then Err(NoInDegree)
    else Ok(order)
  }
}
