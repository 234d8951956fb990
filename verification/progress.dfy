/** What the series `simulate` returns promise about the attack: the
    fraction removed climbs strictly from 0 to at most 1, one batch of
    `chunk` nodes at a time; the giant-component ratio stays in [0, 1] and
    reaches 0 only with the last node; and the run ends early only when
    nothing is left. */
module Progress {
  import opened Wrappers
  import opened Seqs
  import opened Graphs
  import opened Components
  import opened Attack

  /** Fractions of the same total compare as their counts do. */
  lemma {:induction false} FractionLess(a: nat, c: nat, b: nat)
    requires 0 < b
    ensures a < c <==> Fraction(a, b) < Fraction(c, b)
  {
    assert Fraction(a, b) * b as real == a as real;
    assert Fraction(c, b) * b as real == c as real;
  }

  /** Round `i` (from 0) ends with `k + (i + 1) * chunk` nodes gone, or all
      of them. */
  lemma {:induction false} CutsSchedule(k: nat, chunk: nat, n: nat, rounds: nat)
    ensures forall i :: 0 <= i < |Cuts(k, chunk, n, rounds)| ==>
      Cuts(k, chunk, n, rounds)[i] == Min(k + (i + 1) * chunk, n)
    decreases rounds
  {
    if rounds > 0 && k < n {
      var k' := Min(k + chunk, n);
      var c, rest := Cuts(k, chunk, n, rounds), Cuts(k', chunk, n, rounds - 1);
      CutsSchedule(k', chunk, n, rounds - 1);
      assert c == [k'] + rest;
      forall i | 0 < i < |c| ensures c[i] == Min(k + (i + 1) * chunk, n) {
        assert c[i] == rest[i - 1];
        assert (i + 1) * chunk == i * chunk + chunk;
      }
    }
  }

  /** The counts rise strictly: every round removes at least one node. */
  lemma {:induction false} CutsIncreasing(k: nat, chunk: nat, n: nat, rounds: nat)
    requires chunk >= 1
    ensures forall i, j :: 0 <= i < j < |Cuts(k, chunk, n, rounds)| ==>
      Cuts(k, chunk, n, rounds)[i] < Cuts(k, chunk, n, rounds)[j]
    decreases rounds
  {
    if rounds > 0 && k < n {
      var k' := Min(k + chunk, n);
      var c, rest := Cuts(k, chunk, n, rounds), Cuts(k', chunk, n, rounds - 1);
      CutsIncreasing(k', chunk, n, rounds - 1);
      CutsRange(k', chunk, n, rounds - 1);
      assert c == [k'] + rest;
      forall i, j | 0 <= i < j < |c| ensures c[i] < c[j] {
        assert c[j] == rest[j - 1];
        if i > 0 {
          assert c[i] == rest[i - 1];
        }
      }
    }
  }

  /** The schedule runs short of the rounds allowed only when its last count
      takes every node. */
  lemma {:induction false} CutsEnds(k: nat, chunk: nat, n: nat, rounds: nat)
    ensures var c := Cuts(k, chunk, n, rounds);
      |c| == rounds || k >= n || c[|c| - 1] == n
    decreases rounds
  {
    if rounds > 0 && k < n {
      var k' := Min(k + chunk, n);
      var c, rest := Cuts(k, chunk, n, rounds), Cuts(k', chunk, n, rounds - 1);
      CutsEnds(k', chunk, n, rounds - 1);
      assert c == [k'] + rest;
      if |rest| > 0 {
        assert c[|c| - 1] == rest[|rest| - 1];
      }
    }
  }

  /** The `i`-th reading of the series is the reading taken at the `i`-th
      count. */
  lemma {:induction false} ReadAllAt<N>(sim: Simulator<N>, rank: seq<N>, cuts: seq<nat>, i: nat)
    requires Consistent(sim) && |rank| == sim.initialSize
    requires forall k :: 0 <= k < |cuts| ==> 0 < cuts[k] <= |rank|
    requires i < |cuts|
    ensures ReadAll(sim, rank, cuts).x[i] == Reading(sim, rank, cuts[i]).x[0]
    ensures ReadAll(sim, rank, cuts).gc[i] == Reading(sim, rank, cuts[i]).gc[0]
    ensures ReadAll(sim, rank, cuts).frag[i] == Reading(sim, rank, cuts[i]).frag[0]
    decreases i
  {
    if i > 0 {
      ReadAllAt(sim, rank, cuts[1..], i - 1);
      assert cuts[1..][i - 1] == cuts[i];
    }
  }

  /** The reading after `k` removals: `x` is `k` out of `n`; the giant
      component ratio lies in [0, 1] and is 0 exactly when every node has
      gone, as is the component count, which never exceeds the nodes left. */
  lemma {:induction false} ReadingFacts<N>(sim: Simulator<N>, rank: seq<N>, k: nat)
    requires Consistent(sim) && Permutation(rank, sim.graph.order) && 0 < k <= |rank|
    requires |rank| == sim.initialSize
    ensures Reading(sim, rank, k).x[0] == Fraction(k, sim.initialSize)
    ensures 0.0 <= Reading(sim, rank, k).gc[0] <= 1.0
    ensures Reading(sim, rank, k).gc[0] == 0.0 <==> k == sim.initialSize
    ensures Reading(sim, rank, k).frag[0] == 0 <==> k == sim.initialSize
    ensures Reading(sim, rank, k).frag[0] <= sim.initialSize - k
  {
    var h := Attacked(sim.graph, rank, k);
    AttackedSize(sim.graph, rank, k);
    GiantSizeShrinks(h, sim.graph);
    GiantSizeIsLargest(h);
    ComponentCountBounds(h);
    FractionRange(GiantSize(h), sim.initialGc);
  }

  /** The counts behind the series `simulate` returns, one per round. */
  function Schedule<N>(sim: Simulator<N>, chunk: nat, steps: int): seq<nat> {
    Cuts(0, chunk, sim.initialSize, Max(steps, 0))
  }

  /** The series run in step, start from the initial reading and hold one
      reading per round: none at all when `steps` is not positive or there is
      no node. */
  lemma {:induction false} ExpectedShape<N>(sim: Simulator<N>, rank: seq<N>, chunk: nat, steps: int)
    requires Consistent(sim) && |rank| == sim.initialSize && chunk >= 1
    ensures |Expected(sim, rank, chunk, steps).x| == |Expected(sim, rank, chunk, steps).gc|
    ensures |Expected(sim, rank, chunk, steps).x| == |Expected(sim, rank, chunk, steps).frag|
    ensures |Expected(sim, rank, chunk, steps).x| == |Schedule(sim, chunk, steps)| + 1 <= Max(steps, 0) + 1
    ensures |Expected(sim, rank, chunk, steps).x| == 1 <==> steps <= 0 || sim.initialSize == 0
    ensures Expected(sim, rank, chunk, steps).x[0] == 0.0
    ensures Expected(sim, rank, chunk, steps).gc[0] == 1.0
    ensures Expected(sim, rank, chunk, steps).frag[0] == ComponentCount(sim.graph)
  {
  }

  /** The fraction removed at reading `j` after the initial one is the
      `j`-th count of the schedule out of `N`. */
  lemma {:induction false} ExpectedAt<N>(sim: Simulator<N>, rank: seq<N>, chunk: nat, steps: int)
    requires Consistent(sim) && |rank| == sim.initialSize && chunk >= 1
    ensures forall i :: 0 <= i < |Schedule(sim, chunk, steps)| ==> 0 < Schedule(sim, chunk, steps)[i] <= |rank|
    ensures forall j :: 1 <= j < |Expected(sim, rank, chunk, steps).x| ==>
      Expected(sim, rank, chunk, steps).x[j] == Fraction(Schedule(sim, chunk, steps)[j - 1], |rank|)
  {
    var e := Expected(sim, rank, chunk, steps);
    var c := Schedule(sim, chunk, steps);
    CutsRange(0, chunk, |rank|, Max(steps, 0));
    var r := ReadAll(sim, rank, c);
    assert e.x == [0.0] + r.x;
    forall j | 1 <= j < |e.x| ensures e.x[j] == Fraction(c[j - 1], |rank|) {
      ReadAllAt(sim, rank, c, j - 1);
      ConsAt(0.0, r.x, e.x, j);
    }
  }

  /** The giant component and component count at reading `j` after the
      initial one are those after the `j`-th count of the schedule. */
  lemma {:induction false} ExpectedReadings<N>(sim: Simulator<N>, rank: seq<N>, chunk: nat, steps: int)
    requires Consistent(sim) && |rank| == sim.initialSize && chunk >= 1
    ensures forall i :: 0 <= i < |Schedule(sim, chunk, steps)| ==> 0 < Schedule(sim, chunk, steps)[i] <= |rank|
    ensures forall j :: 1 <= j < |Expected(sim, rank, chunk, steps).x| ==>
      && Expected(sim, rank, chunk, steps).gc[j] == Reading(sim, rank, Schedule(sim, chunk, steps)[j - 1]).gc[0]
      && Expected(sim, rank, chunk, steps).frag[j] == Reading(sim, rank, Schedule(sim, chunk, steps)[j - 1]).frag[0]
  {
    ExpectedGiantAt(sim, rank, chunk, steps);
    ExpectedCountAt(sim, rank, chunk, steps);
  }

  lemma {:induction false} ExpectedGiantAt<N>(sim: Simulator<N>, rank: seq<N>, chunk: nat, steps: int)
    requires Consistent(sim) && |rank| == sim.initialSize && chunk >= 1
    ensures forall i :: 0 <= i < |Schedule(sim, chunk, steps)| ==> 0 < Schedule(sim, chunk, steps)[i] <= |rank|
    ensures forall j :: 1 <= j < |Expected(sim, rank, chunk, steps).x| ==>
      Expected(sim, rank, chunk, steps).gc[j] == Reading(sim, rank, Schedule(sim, chunk, steps)[j - 1]).gc[0]
  {
    var e := Expected(sim, rank, chunk, steps);
    var c := Schedule(sim, chunk, steps);
    CutsRange(0, chunk, |rank|, Max(steps, 0));
    var r := ReadAll(sim, rank, c);
    assert e.gc == [1.0] + r.gc;
    forall j | 1 <= j < |e.x| ensures e.gc[j] == Reading(sim, rank, c[j - 1]).gc[0] {
      ReadAllAt(sim, rank, c, j - 1);
      ConsAt(1.0, r.gc, e.gc, j);
    }
  }

  lemma {:induction false} ExpectedCountAt<N>(sim: Simulator<N>, rank: seq<N>, chunk: nat, steps: int)
    requires Consistent(sim) && |rank| == sim.initialSize && chunk >= 1
    ensures forall i :: 0 <= i < |Schedule(sim, chunk, steps)| ==> 0 < Schedule(sim, chunk, steps)[i] <= |rank|
    ensures forall j :: 1 <= j < |Expected(sim, rank, chunk, steps).x| ==>
      Expected(sim, rank, chunk, steps).frag[j] == Reading(sim, rank, Schedule(sim, chunk, steps)[j - 1]).frag[0]
  {
    var e := Expected(sim, rank, chunk, steps);
    var c := Schedule(sim, chunk, steps);
    CutsRange(0, chunk, |rank|, Max(steps, 0));
    var r := ReadAll(sim, rank, c);
    assert e.frag == [ComponentCount(sim.graph)] + r.frag;
    forall j | 1 <= j < |e.x| ensures e.frag[j] == Reading(sim, rank, c[j - 1]).frag[0] {
      ReadAllAt(sim, rank, c, j - 1);
      ConsAt(ComponentCount(sim.graph), r.frag, e.frag, j);
    }
  }

  /** After round `j`, `min(j * chunk, N)` of the `N` nodes are gone. */
  lemma {:induction false} ScheduleCounts<N>(sim: Simulator<N>, chunk: nat, steps: int)
    ensures forall j :: 1 <= j <= |Schedule(sim, chunk, steps)| ==>
      Schedule(sim, chunk, steps)[j - 1] == Min(j * chunk, sim.initialSize)
  {
    var c := Schedule(sim, chunk, steps);
    CutsSchedule(0, chunk, sim.initialSize, Max(steps, 0));
    forall j | 1 <= j <= |c| ensures c[j - 1] == Min(j * chunk, sim.initialSize) {
      assert c[j - 1] == Min(0 + (j - 1 + 1) * chunk, sim.initialSize);
    }
  }

  /** The fraction removed climbs strictly from 0 and never passes 1. */
  lemma {:induction false} ExpectedProgress<N>(sim: Simulator<N>, rank: seq<N>, chunk: nat, steps: int)
    requires Consistent(sim) && |rank| == sim.initialSize && chunk >= 1
    ensures forall j :: 0 <= j < |Expected(sim, rank, chunk, steps).x| ==>
      0.0 <= Expected(sim, rank, chunk, steps).x[j] <= 1.0
    ensures forall i, j :: 0 <= i < j < |Expected(sim, rank, chunk, steps).x| ==>
      Expected(sim, rank, chunk, steps).x[i] < Expected(sim, rank, chunk, steps).x[j]
  {
    var e := Expected(sim, rank, chunk, steps);
    ExpectedAt(sim, rank, chunk, steps);
    ExpectedShape(sim, rank, chunk, steps);
    CutsIncreasing(0, chunk, |rank|, Max(steps, 0));
    FractionsClimb(e.x, Schedule(sim, chunk, steps), |rank|);
  }

  /** Fractions of strictly rising counts in (0, n], after a leading 0, rise
      strictly within [0, 1]. */
  lemma {:induction false} FractionsClimb(x: seq<real>, c: seq<nat>, n: nat)
    requires |x| == |c| + 1 && x[0] == 0.0
    requires forall i :: 0 <= i < |c| ==> 0 < c[i] <= n
    requires forall i, j :: 0 <= i < j < |c| ==> c[i] < c[j]
    requires forall j :: 1 <= j < |x| ==> x[j] == Fraction(c[j - 1], n)
    ensures forall j :: 0 <= j < |x| ==> 0.0 <= x[j] <= 1.0
    ensures forall i, j :: 0 <= i < j < |x| ==> x[i] < x[j]
  {
    forall j | 1 <= j < |x| ensures 0.0 < x[j] <= 1.0 {
      FractionRange(c[j - 1], n);
      FractionLess(0, c[j - 1], n);
      FractionRange(0, n);
    }
    forall i, j | 0 <= i < j < |x| ensures x[i] < x[j] {
      if i > 0 {
        FractionLess(c[i - 1], c[j - 1], n);
      }
    }
  }

  /** Every giant-component ratio lies in [0, 1]; it is 0 exactly where every
      node has gone, and the components run out at the same point. */
  lemma {:induction false} ExpectedGiant<N>(sim: Simulator<N>, rank: seq<N>, chunk: nat, steps: int)
    requires Consistent(sim) && Permutation(rank, sim.graph.order) && chunk >= 1
    requires |rank| == sim.initialSize
    ensures forall j :: 0 <= j < |Expected(sim, rank, chunk, steps).x| ==>
      0.0 <= Expected(sim, rank, chunk, steps).gc[j] <= 1.0
    ensures forall j :: 0 <= j < |Expected(sim, rank, chunk, steps).x| ==>
      (Expected(sim, rank, chunk, steps).gc[j] == 0.0 <==> Expected(sim, rank, chunk, steps).x[j] == 1.0)
    ensures forall j :: 1 <= j < |Expected(sim, rank, chunk, steps).x| ==>
      (Expected(sim, rank, chunk, steps).frag[j] == 0 <==> Expected(sim, rank, chunk, steps).x[j] == 1.0)
  {
    var n := |rank|;
    var e := Expected(sim, rank, chunk, steps);
    var c := Schedule(sim, chunk, steps);
    ExpectedAt(sim, rank, chunk, steps);
    ExpectedReadings(sim, rank, chunk, steps);
    forall j | 1 <= j < |e.x|
      ensures && 0.0 <= e.gc[j] <= 1.0
              && (e.gc[j] == 0.0 <==> e.x[j] == 1.0)
              && (e.frag[j] == 0 <==> e.x[j] == 1.0)
    {
      ReadingFacts(sim, rank, c[j - 1]);
      FractionRange(c[j - 1], n);
    }
  }

  /** The run stops before `steps` rounds only once every node has gone, and
      every reading before the last leaves nodes standing; so the giant
      component reaches 0 at most once, in the last reading. */
  lemma {:induction false} ExpectedEnds<N>(sim: Simulator<N>, rank: seq<N>, chunk: nat, steps: int)
    requires Consistent(sim) && |rank| == sim.initialSize && chunk >= 1
    ensures var e := Expected(sim, rank, chunk, steps);
      |e.x| == Max(steps, 0) + 1 || e.x[|e.x| - 1] == 1.0 || sim.initialSize == 0
    ensures forall j :: 0 <= j < |Expected(sim, rank, chunk, steps).x| - 1 ==>
      Expected(sim, rank, chunk, steps).x[j] < 1.0
  {
    var n := |rank|;
    var e := Expected(sim, rank, chunk, steps);
    var c := Schedule(sim, chunk, steps);
    ExpectedShape(sim, rank, chunk, steps);
    ExpectedProgress(sim, rank, chunk, steps);
    forall j | 0 <= j < |e.x| - 1 ensures e.x[j] < 1.0 {
      assert e.x[j] < e.x[|e.x| - 1];
    }
    CutsEnds(0, chunk, n, Max(steps, 0));
    if |c| > 0 && |c| < Max(steps, 0) && n > 0 {
      ExpectedAt(sim, rank, chunk, steps);
      assert e.x[|e.x| - 1] == Fraction(c[|c| - 1], n);
      FractionRange(n, n);
    }
  }
}
