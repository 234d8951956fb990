/** The node order of a BOSAM plot: the edge-list file read into an
    undirected graph, every node keyed by its degree `k`, the largest degree
    `w` among its neighbours and the largest neighbour id `e`, and the nodes
    sorted by that key, ascending and stable. */
module Bosam {
  import opened Wrappers
  import opened Seqs
  import opened Graphs
  import opened Sorting
  import opened Text

  /** A line the reader skips: blank once stripped, or a comment whose
      first character after the leading whitespace is `%` or `#`. */
  predicate Ignored(line: string) {
    var t := Strip(line);
    |t| == 0 || t[0] == '%' || t[0] == '#'
  }

  /** A line is skipped exactly when it is all whitespace or its first
      character that is not whitespace is `%` or `#`. */
  lemma {:induction false} IgnoredFirst(line: string)
    ensures Ignored(line) <==>
      || AllSpace(line)
      || exists i :: 0 <= i < |line| && AllSpace(line[..i]) && (line[i] == '%' || line[i] == '#')
  {
    var a := SkipSpace(line, 0);
    if a < |line| {
      assert Strip(line)[0] == line[a];
      assert AllSpace(line[..a]) by {
        forall k | 0 <= k < a ensures IsSpace(line[..a][k]) {
          assert line[..a][k] == line[k];
        }
      }
      forall i | 0 <= i < |line| && AllSpace(line[..i]) && (line[i] == '%' || line[i] == '#')
        ensures i == a
      {
        assert !IsSpace(line[i]);
        assert forall k :: 0 <= k < i ==> IsSpace(line[k]) by {
          forall k | 0 <= k < i ensures IsSpace(line[k]) {
            assert line[..i][k] == line[k];
          }
        }
      }
    }
  }

  /** The edge a line names: the first two whitespace-separated fields of a
      line that is not skipped; nothing for a line with fewer fields. */
  function EdgeOf(line: string): (r: Option<(string, string)>)
    ensures r.Some? ==> !Ignored(line) && IsField(r.value.0) && IsField(r.value.1)
  {
    if Ignored(line) then None
    else
      var parts := Split(Strip(line));
      if |parts| >= 2 then Some((parts[0], parts[1])) else None
  }

  /** A line of fields separated by runs of whitespace (spaces, tabs) and
      padded with whitespace (the trailing newline, say) names an edge
      between its first two fields exactly when it has at least two;
      further fields are ignored. */
  lemma {:induction false} EdgeOfFields(pre: string, ws: seq<string>, seps: seq<string>, post: string)
    requires |ws| == 0 || |seps| == |ws| - 1
    requires AllSpace(pre) && AllSpace(post) && Gaps(seps)
    requires forall k :: 0 <= k < |ws| ==> IsField(ws[k])
    requires |ws| > 0 ==> IsField(ws[0]) && ws[0][0] != '%' && ws[0][0] != '#'
    ensures |ws| >= 2 ==> EdgeOf(pre + JoinWith(ws, seps) + post) == Some((ws[0], ws[1]))
    ensures |ws| < 2 ==> EdgeOf(pre + JoinWith(ws, seps) + post) == None
  {
    StripJoined(pre, ws, seps, post);
    EdgeOfStripped(pre + JoinWith(ws, seps) + post, ws, seps);
  }

  /** A line that strips to joined fields names an edge between its first
      two fields exactly when it has at least two. */
  lemma {:induction false} EdgeOfStripped(line: string, ws: seq<string>, seps: seq<string>)
    requires |ws| == 0 || |seps| == |ws| - 1
    requires Strip(line) == JoinWith(ws, seps) && Gaps(seps)
    requires forall k :: 0 <= k < |ws| ==> IsField(ws[k])
    requires |ws| > 0 ==> IsField(ws[0]) && ws[0][0] != '%' && ws[0][0] != '#'
    ensures |ws| >= 2 ==> EdgeOf(line) == Some((ws[0], ws[1]))
    ensures |ws| < 2 ==> EdgeOf(line) == None
  {
    SplitJoin("", ws, seps, "");
    assert "" + JoinWith(ws, seps) + "" == Strip(line);
    if |ws| > 0 {
      JoinEnds(ws, seps);
      assert Strip(line)[0] == ws[0][0];
    }
  }

  /** Joined fields padded with whitespace strip to the joined fields. */
  lemma {:induction false} StripJoined(pre: string, ws: seq<string>, seps: seq<string>, post: string)
    requires |ws| == 0 || |seps| == |ws| - 1
    requires AllSpace(pre) && AllSpace(post)
    requires forall k :: 0 <= k < |ws| ==> IsField(ws[k])
    ensures Strip(pre + JoinWith(ws, seps) + post) == JoinWith(ws, seps)
  {
    JoinClean(ws, seps);
    StripPadded(pre, JoinWith(ws, seps), post);
  }

  /** A comment line names no edge, whatever follows the marker. */
  lemma {:induction false} CommentLine(pre: string, c: char, rest: string)
    requires AllSpace(pre) && (c == '%' || c == '#')
    ensures EdgeOf(pre + [c] + rest) == None
  {
    StripLead(pre, [c] + rest);
    assert pre + [c] + rest == pre + ([c] + rest);
  }

  /** A blank line names no edge. */
  lemma {:induction false} BlankLine(line: string)
    requires AllSpace(line)
    ensures EdgeOf(line) == None
  {
  }

  /** The edges named by `lines`, as written (first field, second field). */
  ghost function Named(lines: seq<string>): set<(string, string)> {
    set i | 0 <= i < |lines| && EdgeOf(lines[i]).Some? :: EdgeOf(lines[i]).value
  }

  /** Each edge turned around. */
  ghost function Flip(es: set<(string, string)>): set<(string, string)> {
    set e | e in es :: (e.1, e.0)
  }

  /** The endpoints of the edges. */
  ghost function Ends(es: set<(string, string)>): set<string> {
    (set e | e in es :: e.0) + (set e | e in es :: e.1)
  }

  /** The graph read so far, extended by the edge of every line of `lines`
      in turn, as `add_edge` on an undirected graph does it. */
  function Load(g: Graph<string>, lines: seq<string>): (h: Graph<string>)
    requires Valid(g) && !g.directed
    ensures Valid(h) && !h.directed
    ensures g.order <= h.order
    decreases |lines|
  {
    if |lines| == 0 then g
    else
      match EdgeOf(lines[0])
      case None => Load(g, lines[1..])
      case Some(e) => Load(AddEdge(g, e.0, e.1), lines[1..])
  }

  /** The graph `draw_bosam` builds from the lines of the edge-list file. */
  function BuildGraph(lines: seq<string>): (g: Graph<string>)
    ensures Valid(g) && !g.directed
  {
    Load(Empty(false), lines)
  }

  /** The edges named by a non-empty list of lines: those of the first line
      and those of the rest. */
  lemma {:induction false} NamedCons(lines: seq<string>)
    requires |lines| > 0
    ensures Named(lines) ==
      (if EdgeOf(lines[0]).Some? then {EdgeOf(lines[0]).value} else {}) + Named(lines[1..])
  {
    NamedTail(lines);
    NamedHead(lines);
  }

  /** The edges named by the rest of the lines are named by all of them. */
  lemma {:induction false} NamedTail(lines: seq<string>)
    requires |lines| > 0
    ensures Named(lines[1..]) <= Named(lines)
    ensures EdgeOf(lines[0]).Some? ==> EdgeOf(lines[0]).value in Named(lines)
  {
    var rest := lines[1..];
    forall e | e in Named(rest) ensures e in Named(lines) {
      var i :| 0 <= i < |rest| && EdgeOf(rest[i]).Some? && EdgeOf(rest[i]).value == e;
      assert rest[i] == lines[i + 1];
    }
  }

  /** An edge named by the lines but not by the rest is the first line's. */
  lemma {:induction false} NamedHead(lines: seq<string>)
    requires |lines| > 0
    ensures forall e :: e in Named(lines) && e !in Named(lines[1..]) ==>
      EdgeOf(lines[0]).Some? && e == EdgeOf(lines[0]).value
  {
    var rest := lines[1..];
    forall e | e in Named(lines) && e !in Named(rest)
      ensures EdgeOf(lines[0]).Some? && e == EdgeOf(lines[0]).value
    {
      var i :| 0 <= i < |lines| && EdgeOf(lines[i]).Some? && EdgeOf(lines[i]).value == e;
    }
  }

  lemma {:induction false} FlipEnds(a: set<(string, string)>, b: set<(string, string)>)
    ensures Flip(a + b) == Flip(a) + Flip(b)
    ensures Ends(a + b) == Ends(a) + Ends(b)
  {
  }

  lemma {:induction false} FlipOne(e: (string, string))
    ensures Flip({e}) == {(e.1, e.0)}
    ensures Ends({e}) == {e.0, e.1}
  {
    assert (e.1, e.0) in Flip({e});
  }

  /** Set bookkeeping for one loaded edge `a` and its reverse `b`. */
  lemma {:induction false} Regroup<T>(h: set<T>, g: set<T>, a: T, b: T, r: set<T>, fr: set<T>, n: set<T>, fn: set<T>)
    requires h == g + {a, b} + r + fr && n == {a} + r && fn == {b} + fr
    ensures h == g + n + fn
  {
  }

  /** Set bookkeeping for the endpoints `x` of one loaded edge. */
  lemma {:induction false} Extend<T>(h: set<T>, g: set<T>, x: set<T>, r: set<T>, n: set<T>)
    requires h == g + x + r && n == x + r
    ensures h == g + n
  {
  }

  /** Loading adds the named edges in both orientations, and no others. */
  lemma {:induction false} LoadEdges(g: Graph<string>, lines: seq<string>)
    requires Valid(g) && !g.directed
    ensures Load(g, lines).edges == g.edges + Named(lines) + Flip(Named(lines))
    decreases |lines|
  {
    if |lines| == 0 {
      assert Named(lines) == {};
    } else {
      NamedCons(lines);
      var rest := Named(lines[1..]);
      match EdgeOf(lines[0])
      case None =>
        assert Load(g, lines) == Load(g, lines[1..]);
        LoadEdges(g, lines[1..]);
      case Some(e) =>
        var g' := AddEdge(g, e.0, e.1);
        assert Load(g, lines) == Load(g', lines[1..]);
        LoadEdges(g', lines[1..]);
        FlipEnds({e}, rest);
        FlipOne(e);
        Regroup(Load(g, lines).edges, g.edges, e, (e.1, e.0), rest, Flip(rest), Named(lines), Flip(Named(lines)));
    }
  }

  /** Loading adds the endpoints of the named edges, and no other nodes. */
  lemma {:induction false} LoadNodes(g: Graph<string>, lines: seq<string>)
    requires Valid(g) && !g.directed
    ensures Nodes(Load(g, lines)) == Nodes(g) + Ends(Named(lines))
    decreases |lines|
  {
    if |lines| == 0 {
      assert Named(lines) == {};
    } else {
      NamedCons(lines);
      var rest := Named(lines[1..]);
      match EdgeOf(lines[0])
      case None =>
        assert Load(g, lines) == Load(g, lines[1..]);
        LoadNodes(g, lines[1..]);
      case Some(e) =>
        var g' := AddEdge(g, e.0, e.1);
        assert Load(g, lines) == Load(g', lines[1..]);
        LoadNodes(g', lines[1..]);
        FlipEnds({e}, rest);
        FlipOne(e);
        Extend(Nodes(Load(g, lines)), Nodes(g), {e.0, e.1}, Ends(rest), Ends(Named(lines)));
    }
  }

  /** The graph's edges are the named ones, in both orientations; its nodes
      are their endpoints. */
  lemma {:induction false} BuildGraphEdges(lines: seq<string>)
    ensures forall u, v :: (u, v) in BuildGraph(lines).edges <==> (u, v) in Named(lines) || (v, u) in Named(lines)
    ensures Nodes(BuildGraph(lines)) == Ends(Named(lines))
  {
    var g := BuildGraph(lines);
    var es := Named(lines);
    LoadEdges(Empty(false), lines);
    LoadNodes(Empty(false), lines);
    assert Nodes(Empty<string>(false)) == {};
    forall u, v ensures (u, v) in g.edges <==> (u, v) in es || (v, u) in es {
      if (u, v) in Flip(es) {
        var e :| e in es && (e.1, e.0) == (u, v);
      }
      if (v, u) in es {
        assert (u, v) in Flip(es);
      }
    }
  }

  /** Nodes appear only through `add_edge`, so every node of the built graph
      has a neighbour. */
  lemma {:induction false} EveryNodeLinked(lines: seq<string>)
    ensures forall v :: v in BuildGraph(lines).order ==> Succ(BuildGraph(lines), v) != {}
  {
    var g := BuildGraph(lines);
    var es := Named(lines);
    BuildGraphEdges(lines);
    forall v | v in g.order ensures Succ(g, v) != {} {
      assert v in Nodes(g);
      var u: string;
      if v in (set e | e in es :: e.0) {
        var e :| e in es && e.0 == v;
        u := e.1;
        assert (v, u) in g.edges;
      } else {
        var e :| e in es && e.1 == v;
        u := e.0;
        assert (v, u) in g.edges;
      }
      assert u in Succ(g, v);
    }
  }

  /** A node's row: its degree `k`, the largest neighbour degree `w` and the
      largest neighbour id `e`; a node without neighbours has `w` = -1 and
      no `e` (the source writes -1 there as well). */
  datatype Key = Key(k: int, w: int, e: Option<string>)

  /** Python's `max` over the degrees of the nodes in `s`. */
  function MaxDegree(g: Graph<string>, s: seq<string>): (w: nat)
    requires |s| > 0
    ensures exists x :: x in s && w == Degree(g, x)
    ensures forall x :: x in s ==> Degree(g, x) <= w
  {
    if |s| == 1 then Degree(g, s[0])
    else
      var w := MaxDegree(g, s[1..]);
      assert forall x :: x in s ==> x == s[0] || x in s[1..];
      if Degree(g, s[0]) < w then w else Degree(g, s[0])
  }

  /** Python's `max` over the strings in `s`. */
  function MaxId(s: seq<string>): (m: string)
    requires |s| > 0
    ensures m in s
    ensures forall x :: x in s ==> !StrLess(m, x)
  {
    if |s| == 1 then
      StrLessIrreflexive(s[0]);
      s[0]
    else
      var m := MaxId(s[1..]);
      assert forall x :: x in s ==> x == s[0] || x in s[1..];
      if StrLess(s[0], m) then
        StrLessAsymmetric(s[0], m);
        m
      else
        StrLessTotal(s[0], m);
        MaxIdKeeps(s[0], m, s[1..]);
        s[0]
  }

  /** An id no smaller than the maximum of `t` is no smaller than any id of
      `t`. */
  lemma {:induction false} MaxIdKeeps(a: string, m: string, t: seq<string>)
    requires a == m || StrLess(m, a)
    requires forall x :: x in t ==> !StrLess(m, x)
    ensures forall x :: x in t || x == a ==> !StrLess(a, x)
  {
    StrLessIrreflexive(a);
    forall x | x in t ensures !StrLess(a, x) {
      if StrLess(a, x) {
        if a != m {
          StrLessTransitive(m, a, x);
        }
      }
    }
  }

  /** The key of node `v` of `g`. */
  function NodeKey(g: Graph<string>, v: string): (r: Key)
    requires Valid(g)
    ensures r.k == Degree(g, v)
    ensures r.w == -1 <==> Succ(g, v) == {}
    ensures r.e.None? <==> Succ(g, v) == {}
    ensures Succ(g, v) != {} ==>
      && (exists u :: u in Succ(g, v) && Degree(g, u) == r.w)
      && (forall u :: u in Succ(g, v) ==> Degree(g, u) <= r.w)
    ensures r.e.Some? ==> r.e.value in Succ(g, v) && forall u :: u in Succ(g, v) ==> !StrLess(r.e.value, u)
  {
    var nbs := Neighbours(g, v);
    if |nbs| > 0 then
      assert nbs[0] in Succ(g, v);
      Key(Degree(g, v), MaxDegree(g, nbs), Some(MaxId(nbs)))
    else
      assert Succ(g, v) == Elements(nbs) == {};
      Key(Degree(g, v), -1, None)
  }

  /** Ascending order on ids, with the missing id first. */
  predicate IdLess(a: Option<string>, b: Option<string>) {
    match (a, b)
    case (None, Some(_)) => true
    case (Some(x), Some(y)) => StrLess(x, y)
    case _ => false
  }

  /** `sort_values(by=['k', 'w', 'e'])` ascending: lexicographic on the
      three columns. */
  predicate KeyLess(a: Key, b: Key) {
    || a.k < b.k
    || (a.k == b.k && a.w < b.w)
    || (a.k == b.k && a.w == b.w && IdLess(a.e, b.e))
  }

  /** Key order is a strict total order. */
  lemma {:induction false} KeyLessTotalOrder()
    ensures forall a :: !KeyLess(a, a)
    ensures forall a, b, c :: KeyLess(a, b) && KeyLess(b, c) ==> KeyLess(a, c)
    ensures forall a, b :: a == b || KeyLess(a, b) || KeyLess(b, a)
  {
    forall a: Key ensures !KeyLess(a, a) {
      if a.e.Some? { StrLessIrreflexive(a.e.value); }
    }
    forall a: Key, b: Key, c: Key | KeyLess(a, b) && KeyLess(b, c) ensures KeyLess(a, c) {
      if a.k == b.k == c.k && a.w == b.w == c.w && a.e.Some? && b.e.Some? && c.e.Some? {
        StrLessTransitive(a.e.value, b.e.value, c.e.value);
      }
    }
    forall a: Key, b: Key ensures a == b || KeyLess(a, b) || KeyLess(b, a) {
      if a.e.Some? && b.e.Some? { StrLessTotal(a.e.value, b.e.value); }
    }
  }

  /** "Goes before" in the BOSAM order of `g`: a smaller key. */
  function ByKey(g: Graph<string>): (less: (string, string) -> bool)
    requires Valid(g)
  {
    (a, b) => KeyLess(NodeKey(g, a), NodeKey(g, b))
  }

  lemma {:induction false} ByKeyIsStrictWeak(g: Graph<string>)
    requires Valid(g)
    ensures StrictWeakOrder(ByKey(g))
  {
    KeyLessTotalOrder();
    var less := ByKey(g);
    forall a, b, c | less(a, c) ensures less(a, b) || less(b, c) {
      var ka, kb, kc := NodeKey(g, a), NodeKey(g, b), NodeKey(g, c);
      if !less(a, b) && !less(b, c) {
        assert false;
      }
    }
  }

  /** The sorted node order of `g`: the rows in node order, sorted stably
      by key. A graph without nodes gives a frame without columns, and
      sorting it by `k` fails (`None`). */
  function BosamOrder(g: Graph<string>): (r: Option<seq<string>>)
    requires Valid(g)
    ensures r.None? <==> Nodes(g) == {}
    ensures r.Some? ==> Permutation(r.value, g.order)
    ensures r.Some? ==> Distinct(r.value) && Elements(r.value) == Nodes(g)
    ensures r.Some? ==> forall i, j :: 0 <= i < j < |r.value| ==>
      !KeyLess(NodeKey(g, r.value[j]), NodeKey(g, r.value[i]))
    ensures r.Some? ==> Stable(ByKey(g), r.value, g.order)
  {
    if |g.order| == 0 then None
    else
      assert g.order[0] in Nodes(g);
      ByKeyIsStrictWeak(g);
      SortCorrect(ByKey(g), g.order);
      var r := Sort(ByKey(g), g.order);
      PermutationKeepsDistinct(r, g.order);
      Some(r)
  }

  /** A neighbour in an undirected graph has a neighbour itself. */
  lemma {:induction false} LinkedDegree(g: Graph<string>, v: string, u: string)
    requires Valid(g) && !g.directed && u in Succ(g, v)
    ensures Degree(g, u) >= 1
  {
    assert v in Succ(g, u);
  }

  /** Every node of the built graph has `w` at least 1 and an `e`. */
  lemma {:induction false} BuiltKeys(lines: seq<string>)
    ensures forall v :: v in BuildGraph(lines).order ==>
      NodeKey(BuildGraph(lines), v).w >= 1 && NodeKey(BuildGraph(lines), v).e.Some?
  {
    var g := BuildGraph(lines);
    EveryNodeLinked(lines);
    forall v | v in g.order ensures NodeKey(g, v).w >= 1 {
      var u :| u in Succ(g, v) && Degree(g, u) == NodeKey(g, v).w;
      LinkedDegree(g, v, u);
    }
  }

  /** The plot's node order for the lines of an edge-list file: every
      endpoint of a named edge once, in ascending key order; a file that
      names no edge fails (`None`). */
  function DrawOrder(lines: seq<string>): (r: Option<seq<string>>)
    ensures r.None? <==> Ends(Named(lines)) == {}
    ensures r.Some? ==> Distinct(r.value) && Elements(r.value) == Ends(Named(lines))
    ensures r.Some? ==> forall i, j :: 0 <= i < j < |r.value| ==>
      !KeyLess(NodeKey(BuildGraph(lines), r.value[j]), NodeKey(BuildGraph(lines), r.value[i]))
  {
    BuildGraphEdges(lines);
    BosamOrder(BuildGraph(lines))
  }

  /** Every node of the plot has a neighbour, so its `w` is at least 1 and
      its `e` is present: the -1 branch is never taken. */
  lemma {:induction false} DrawOrderLinked(lines: seq<string>)
    ensures DrawOrder(lines).Some? ==> forall i :: 0 <= i < |DrawOrder(lines).value| ==>
      NodeKey(BuildGraph(lines), DrawOrder(lines).value[i]).w >= 1 &&
      NodeKey(BuildGraph(lines), DrawOrder(lines).value[i]).e.Some?
  {
    var g, d := BuildGraph(lines), DrawOrder(lines);
    if d.Some? {
      var r := d.value;
      assert d == BosamOrder(g);
      assert Elements(r) == Nodes(g);
      forall i | 0 <= i < |r| ensures NodeKey(g, r[i]).w >= 1 && NodeKey(g, r[i]).e.Some? {
        var v := r[i];
        assert v in Elements(r);
        assert v in g.order;
        assert NodeKey(g, v).w >= 1 && NodeKey(g, v).e.Some? by { BuiltKeys(lines); }
      }
    }
  }
}
