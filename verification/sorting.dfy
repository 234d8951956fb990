/** A stable sort over a strict weak order, as Python's `sorted` (also with
    `reverse=True`, which keeps equal elements in their original order) and
    a multi-column `sort_values` in pandas provide. The sort is insertion
    sort: each element, taken from the back, is placed before the first
    element that does not go strictly before it. */
module Sorting {
  import opened Seqs

  /** `less` is a strict weak order: irreflexive, transitive, and
      "neither goes before the other" is transitive too (stated as: if `a`
      goes before `c`, any `b` goes after `a` or before `c`). */
  ghost predicate StrictWeakOrder<T(!new)>(less: (T, T) -> bool) {
    && (forall a :: !less(a, a))
    && (forall a, b, c :: less(a, b) && less(b, c) ==> less(a, c))
    && (forall a, b, c :: less(a, c) ==> less(a, b) || less(b, c))
  }

  /** No element goes strictly before an element placed earlier. */
  ghost predicate Sorted<T>(less: (T, T) -> bool, s: seq<T>) {
    forall i, j :: 0 <= i < j < |s| ==> !less(s[j], s[i])
  }

  /** Neither goes before the other: the two keys tie. */
  predicate Tie<T>(less: (T, T) -> bool, a: T, b: T) {
    !less(a, b) && !less(b, a)
  }

  /** "Ties with `y`", as a filter condition. */
  function TiesWith<T>(less: (T, T) -> bool, y: T): T -> bool {
    x => Tie(less, x, y)
  }

  /** The elements of `s` that tie with `y`, in their order in `s`. */
  function Ties<T>(less: (T, T) -> bool, s: seq<T>, y: T): seq<T> {
    Filter(s, TiesWith(less, y))
  }

  /** `r` lists every group of tied elements in the same order as `s`. */
  ghost predicate Stable<T(!new)>(less: (T, T) -> bool, r: seq<T>, s: seq<T>) {
    forall y :: Ties(less, r, y) == Ties(less, s, y)
  }

  /** Inserts `x` before the first element of `t` that does not go strictly
      before it. */
  function Insert<T>(less: (T, T) -> bool, x: T, t: seq<T>): (r: seq<T>)
    ensures multiset(r) == multiset{x} + multiset(t)
    ensures |r| == |t| + 1
    decreases |t|
  {
    if |t| == 0 || !less(t[0], x) then [x] + t
    else
      assert t == [t[0]] + t[1..];
      [t[0]] + Insert(less, x, t[1..])
  }

  /** Stable insertion sort. */
  function Sort<T>(less: (T, T) -> bool, s: seq<T>): (r: seq<T>)
    ensures Permutation(r, s)
    ensures |r| == |s|
    decreases |s|
  {
    if |s| == 0 then []
    else
      assert s == [s[0]] + s[1..];
      Insert(less, s[0], Sort(less, s[1..]))
  }

  lemma {:induction false} InsertSorted<T(!new)>(less: (T, T) -> bool, x: T, t: seq<T>)
    requires StrictWeakOrder(less) && Sorted(less, t)
    ensures Sorted(less, Insert(less, x, t))
    decreases |t|
  {
    var r := Insert(less, x, t);
    if |t| == 0 || !less(t[0], x) {
      forall i, j | 0 <= i < j < |r| ensures !less(r[j], r[i]) {
        if i == 0 {
          assert r[j] == t[j - 1];
          if j > 1 {
            assert !less(t[j - 1], t[0]);
          }
        } else {
          assert r[i] == t[i - 1] && r[j] == t[j - 1];
        }
      }
    } else {
      var t' := t[1..];
      assert Sorted(less, t') by {
        forall i, j | 0 <= i < j < |t'| ensures !less(t'[j], t'[i]) {
          assert t'[i] == t[i + 1] && t'[j] == t[j + 1];
        }
      }
      InsertSorted(less, x, t');
      var r' := Insert(less, x, t');
      assert r == [t[0]] + r';
      forall j | 0 < j < |r| ensures !less(r[j], r[0]) {
        assert r[j] == r'[j - 1];
        assert r'[j - 1] in multiset(r');
        if r[j] != x {
          assert r[j] in multiset(t');
          var k :| 0 <= k < |t'| && t'[k] == r[j];
          assert t'[k] == t[k + 1];
        }
      }
    }
  }

  lemma {:induction false} SortSorted<T(!new)>(less: (T, T) -> bool, s: seq<T>)
    requires StrictWeakOrder(less)
    ensures Sorted(less, Sort(less, s))
    decreases |s|
  {
    if |s| > 0 {
      SortSorted(less, s[1..]);
      InsertSorted(less, s[0], Sort(less, s[1..]));
    }
  }

  lemma {:induction false} FilterCons<T>(a: T, b: seq<T>, keep: T -> bool)
    ensures Filter([a] + b, keep) == (if keep(a) then [a] else []) + Filter(b, keep)
  {
    assert ([a] + b)[1..] == b;
  }

  lemma {:induction false} EmptyCommutes<T>(a: seq<T>, b: seq<T>, rest: seq<T>)
    requires a == [] || b == []
    ensures a + (b + rest) == b + (a + rest)
  {
    if a == [] {
      assert a + (b + rest) == b + rest;
      assert a + rest == rest;
    } else {
      assert b + rest == rest;
      assert b + (a + rest) == a + rest;
    }
  }

  /** Inserting `x` keeps every group of ties in the order it has when `x`
      is put in front. */
  lemma {:induction false} InsertTies<T>(less: (T, T) -> bool, x: T, t: seq<T>, y: T)
    requires forall z :: z in t && less(z, x) ==> !(Tie(less, z, y) && Tie(less, x, y))
    ensures Ties(less, Insert(less, x, t), y) == Ties(less, [x] + t, y)
    decreases |t|
  {
    var keep := TiesWith(less, y);
    if |t| > 0 && less(t[0], x) {
      var t' := t[1..];
      var a := Insert(less, x, t');
      InsertTies(less, x, t', y);
      assert Insert(less, x, t) == [t[0]] + a;
      assert t == [t[0]] + t';
      var fx := if keep(x) then [x] else [];
      var ft := if keep(t[0]) then [t[0]] else [];
      FilterCons(t[0], a, keep);
      FilterCons(x, t', keep);
      FilterCons(x, t, keep);
      FilterCons(t[0], t', keep);
      assert Filter([t[0]] + a, keep) == ft + (fx + Filter(t', keep));
      assert Filter([x] + t, keep) == fx + (ft + Filter(t', keep));
      assert fx == [] || ft == [];
      var rest := Filter(t', keep);
      EmptyCommutes(ft, fx, rest);
    } else {
      assert Insert(less, x, t) == [x] + t;
    }
  }

  /** An element that goes strictly before another never ties with the
      same third element as it. */
  lemma {:induction false} TieSeparated<T(!new)>(less: (T, T) -> bool, a: T, b: T, y: T)
    requires StrictWeakOrder(less) && less(a, b)
    ensures !(Tie(less, a, y) && Tie(less, b, y))
  {
    assert less(a, y) || less(y, b);
  }

  lemma {:induction false} SortTies<T(!new)>(less: (T, T) -> bool, s: seq<T>, y: T)
    requires StrictWeakOrder(less)
    ensures Ties(less, Sort(less, s), y) == Ties(less, s, y)
    decreases |s|
  {
    if |s| > 0 {
      var s' := s[1..];
      var sorted := Sort(less, s');
      var keep := TiesWith(less, y);
      SortTies(less, s', y);
      forall z | z in sorted && less(z, s[0])
        ensures !(Tie(less, z, y) && Tie(less, s[0], y))
      {
        TieSeparated(less, z, s[0], y);
      }
      InsertTies(less, s[0], sorted, y);
      FilterCons(s[0], sorted, keep);
      assert s == [s[0]] + s';
      FilterCons(s[0], s', keep);
    }
  }

  lemma {:induction false} SortStable<T(!new)>(less: (T, T) -> bool, s: seq<T>)
    requires StrictWeakOrder(less)
    ensures Stable(less, Sort(less, s), s)
  {
    forall y ensures Ties(less, Sort(less, s), y) == Ties(less, s, y) {
      SortTies(less, s, y);
    }
  }

  /** The sort's whole contract: a rearrangement of its input, in order,
      with ties left in input order. */
  lemma {:induction false} SortCorrect<T(!new)>(less: (T, T) -> bool, s: seq<T>)
    requires StrictWeakOrder(less)
    ensures Permutation(Sort(less, s), s)
    ensures Sorted(less, Sort(less, s))
    ensures Stable(less, Sort(less, s), s)
  {
    SortSorted(less, s);
    SortStable(less, s);
  }
}
