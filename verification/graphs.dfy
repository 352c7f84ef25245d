/** Paths and reachability in a directed graph given as successor sets.

    The dependency engine keeps two graphs over positions: references (a
    formula to the cells it reads) and dependents (a cell to the formulas that
    read it).  This module holds the graph facts the engine's proofs share. */
module Graphs {
  import opened Positions

  /** A graph over cells, as successor sets. */
  type Graph = map<Position, set<Position>>

  /** `y` is a successor of `x`. */
  ghost predicate Edge(g: Graph, x: Position, y: Position) {
    x in g && y in g[x]
  }

  /** A walk along edges; a single node is a path of length zero. */
  ghost predicate IsPath(g: Graph, path: seq<Position>) {
    && |path| >= 1
    && forall i :: 0 <= i < |path| - 1 ==> Edge(g, path[i], path[i + 1])
  }

  /** `b` is reached from some node of `starts` in zero or more steps. */
  ghost predicate ReachableFrom(g: Graph, starts: set<Position>, b: Position) {
    exists path :: IsPath(g, path) && path[0] in starts && path[|path| - 1] == b
  }

  /** `b` is reached from `a` in one or more steps. */
  ghost predicate Reaches(g: Graph, a: Position, b: Position) {
    exists path :: IsPath(g, path) && |path| >= 2 && path[0] == a && path[|path| - 1] == b
  }

  ghost predicate Acyclic(g: Graph) {
    forall a :: !Reaches(g, a, a)
  }

  /** No edge leaves `s`. */
  ghost predicate Closed(g: Graph, s: set<Position>) {
    forall x :: x in s && x in g ==> g[x] <= s
  }

  /** `d` is `g` with every edge turned around. */
  ghost predicate Mirrors(d: Graph, g: Graph) {
    forall x, y :: Edge(d, x, y) <==> Edge(g, y, x)
  }

  /** `g1` is `g` plus new nodes without successors. */
  ghost predicate ExtendsWithSinks(g: Graph, g1: Graph) {
    && (forall x :: x in g ==> x in g1 && g1[x] == g[x])
    && (forall x :: x in g1 && x !in g ==> g1[x] == {})
  }

  /** Every node mentioned by the graph. */
  function Nodes(g: Graph): set<Position> {
    g.Keys + (set x, y | x in g && y in g[x] :: y)
  }

  // ---------------------------------------------------------------------------
  // Sets

  lemma SubsetCard(a: set<Position>, b: set<Position>)
    requires a <= b
    ensures |a| <= |b|
    decreases a
  {
    if a != {} {
      var x :| x in a;
      SubsetCard(a - {x}, b - {x});
    }
  }

  lemma StrictSubsetCard(a: set<Position>, b: set<Position>)
    requires a < b
    ensures |a| < |b|
  {
    assert b - a != {} by {
      if b - a == {} {
        assert false;
      }
    }
    var y :| y in b - a;
    SubsetCard(a, b - {y});
  }

  // ---------------------------------------------------------------------------
  // Building paths

  lemma PrefixIsPath(g: Graph, path: seq<Position>, n: int)
    requires IsPath(g, path) && 1 <= n <= |path|
    ensures IsPath(g, path[..n])
  {
    var p := path[..n];
    forall i | 0 <= i < |p| - 1
      ensures Edge(g, p[i], p[i + 1])
    {
      assert p[i] == path[i] && p[i + 1] == path[i + 1];
    }
  }

  lemma SuffixIsPath(g: Graph, path: seq<Position>, k: int)
    requires IsPath(g, path) && 0 <= k < |path|
    ensures IsPath(g, path[k..])
  {
    var p := path[k..];
    forall i | 0 <= i < |p| - 1
      ensures Edge(g, p[i], p[i + 1])
    {
      assert p[i] == path[k + i] && p[i + 1] == path[k + i + 1];
    }
  }

  lemma AppendIsPath(g: Graph, p: seq<Position>, q: seq<Position>)
    requires IsPath(g, p) && IsPath(g, q) && p[|p| - 1] == q[0]
    ensures IsPath(g, p + q[1..])
  {
    var c := p + q[1..];
    forall i | 0 <= i < |c| - 1
      ensures Edge(g, c[i], c[i + 1])
    {
      if i < |p| - 1 {
        assert c[i] == p[i] && c[i + 1] == p[i + 1];
      } else {
        var j := i - |p| + 1;
        assert c[i] == q[j] && c[i + 1] == q[j + 1];
      }
    }
  }

  /** A graph without edges has no cycle. */
  lemma EdgelessAcyclic(g: Graph)
    requires forall x :: x in g ==> g[x] == {}
    ensures Acyclic(g)
  {
    forall path: seq<Position> | |path| >= 2
      ensures !IsPath(g, path)
    {
      assert !Edge(g, path[0], path[1]);
    }
  }

  /** An acyclic graph has no edge from a node to itself. */
  lemma AcyclicNoSelfEdge(g: Graph, a: Position)
    requires Acyclic(g)
    ensures !Edge(g, a, a)
  {
    assert !Reaches(g, a, a);
    assert Edge(g, a, a) ==> IsPath(g, [a, a]);
  }

  /** The nodes listed in a sequence. */
  function Elems(s: seq<Position>): (r: set<Position>)
    ensures forall x :: x in r <==> x in s
  {
    set x | x in s
  }

  lemma ElemsConcat(a: seq<Position>, b: seq<Position>)
    ensures Elems(a + b) == Elems(a) + Elems(b)
  {
    assert forall x :: x in a + b <==> x in a || x in b;
  }

  /** Reachability from a set carries over to any larger set. */
  lemma ReachableFromMore(g: Graph, a: set<Position>, b: set<Position>, x: Position)
    requires a <= b && ReachableFrom(g, a, x)
    ensures ReachableFrom(g, b, x)
  {
  }

  /** A node with an edge into every start reaches whatever the starts reach. */
  lemma ReachableThroughEdge(g: Graph, x: Position, starts: set<Position>, b: Position)
    requires ReachableFrom(g, starts, b)
    requires forall y :: y in starts ==> Edge(g, x, y)
    ensures ReachableFrom(g, {x}, b)
  {
    var path :| IsPath(g, path) && path[0] in starts && path[|path| - 1] == b;
    assert IsPath(g, [x, path[0]]);
    AppendIsPath(g, [x, path[0]], path);
    assert ([x, path[0]] + path[1..])[0] == x;
  }

  /** A path of one or more steps is a first edge followed by a path from a
      successor. */
  lemma ReachesViaSuccessor(g: Graph, a: Position, b: Position)
    ensures Reaches(g, a, b) <==> a in g && ReachableFrom(g, g[a], b)
  {
    if Reaches(g, a, b) {
      var p :| IsPath(g, p) && |p| >= 2 && p[0] == a && p[|p| - 1] == b;
      assert Edge(g, p[0], p[1]);
      SuffixIsPath(g, p, 1);
      assert p[1..][0] in g[a];
    }
    if a in g && ReachableFrom(g, g[a], b) {
      var q :| IsPath(g, q) && q[0] in g[a] && q[|q| - 1] == b;
      var p := [a] + q;
      assert [a, q[0]][1..] == [q[0]];
      AppendIsPath(g, [a, q[0]], q);
      assert [a, q[0]] + q[1..] == p;
      assert Reaches(g, a, b);
    }
  }

  // ---------------------------------------------------------------------------
  // Closed sets

  lemma {:induction false} PathStaysInClosed(g: Graph, s: set<Position>, path: seq<Position>)
    requires IsPath(g, path) && path[0] in s && Closed(g, s)
    ensures forall i :: 0 <= i < |path| ==> path[i] in s
    decreases |path|
  {
    if |path| > 1 {
      var n := |path| - 1;
      PrefixIsPath(g, path, n);
      PathStaysInClosed(g, s, path[..n]);
      assert path[n - 1] == path[..n][n - 1];
      assert Edge(g, path[n - 1], path[n]);
    }
  }

  /** A closed set holding every start holds everything reachable. */
  lemma ClosedContainsReachable(g: Graph, starts: set<Position>, s: set<Position>, b: Position)
    requires starts <= s && Closed(g, s) && ReachableFrom(g, starts, b)
    ensures b in s
  {
    var p :| IsPath(g, p) && p[0] in starts && p[|p| - 1] == b;
    PathStaysInClosed(g, s, p);
  }

  // ---------------------------------------------------------------------------
  // Redirecting one node and adding sinks

  /** A path in `g[v := n]` from `n` to `v` contains one in `g`: cut it at the
      first visit to `v`, before which every edge is an edge of `g`. */
  lemma {:induction false} FirstVisit(g: Graph, v: Position, n: set<Position>, c: seq<Position>)
    requires IsPath(g[v := n], c) && c[0] in n && c[|c| - 1] == v
    ensures ReachableFrom(g, n, v)
    decreases |c|
  {
    if k :| 0 <= k < |c| - 1 && c[k] == v {
      PrefixIsPath(g[v := n], c, k + 1);
      FirstVisit(g, v, n, c[..k + 1]);
    } else {
      forall i | 0 <= i < |c| - 1
        ensures Edge(g, c[i], c[i + 1])
      {
        assert Edge(g[v := n], c[i], c[i + 1]);
      }
      assert IsPath(g, c);
    }
  }

  /** Giving `v` the successors `n` keeps a graph acyclic when `v` is not
      reachable from `n`: this is the cycle check's guarantee. */
  lemma RedirectKeepsAcyclic(g: Graph, v: Position, n: set<Position>)
    requires Acyclic(g) && !ReachableFrom(g, n, v)
    ensures Acyclic(g[v := n])
  {
    var g' := g[v := n];
    forall a
      ensures !Reaches(g', a, a)
    {
      if Reaches(g', a, a) {
        var p :| IsPath(g', p) && |p| >= 2 && p[0] == a && p[|p| - 1] == a;
        if i :| 0 <= i < |p| - 1 && p[i] == v {
          assert Edge(g', p[i], p[i + 1]);
          SuffixIsPath(g', p, i + 1);
          PrefixIsPath(g', p, i + 1);
          var tail, head := p[i + 1..], p[..i + 1];
          AppendIsPath(g', tail, head);
          var c := tail + head[1..];
          assert c[0] == p[i + 1];
          assert c[|c| - 1] == v by {
            if |head| == 1 {
              assert c == tail;
            } else {
              assert c[|c| - 1] == head[|head| - 1];
            }
          }
          FirstVisit(g, v, n, c);
          assert false;
        } else {
          forall j | 0 <= j < |p| - 1
            ensures Edge(g, p[j], p[j + 1])
          {
            assert Edge(g', p[j], p[j + 1]);
          }
          assert Reaches(g, a, a);
          assert false;
        }
      }
    }
  }

  /** New sink nodes change no path. */
  lemma SinksKeepPaths(g: Graph, g1: Graph, path: seq<Position>)
    requires ExtendsWithSinks(g, g1)
    ensures IsPath(g1, path) <==> IsPath(g, path)
  {
    if IsPath(g1, path) {
      forall i | 0 <= i < |path| - 1
        ensures Edge(g, path[i], path[i + 1])
      {
        assert Edge(g1, path[i], path[i + 1]);
      }
    }
    if IsPath(g, path) {
      forall i | 0 <= i < |path| - 1
        ensures Edge(g1, path[i], path[i + 1])
      {
        assert Edge(g, path[i], path[i + 1]);
      }
    }
  }

  lemma SinksKeepReachability(g: Graph, g1: Graph)
    requires ExtendsWithSinks(g, g1)
    ensures forall s: set<Position>, b :: ReachableFrom(g1, s, b) <==> ReachableFrom(g, s, b)
    ensures Acyclic(g) ==> Acyclic(g1)
  {
    forall s: set<Position>, b
      ensures ReachableFrom(g1, s, b) <==> ReachableFrom(g, s, b)
    {
      if ReachableFrom(g1, s, b) {
        var p :| IsPath(g1, p) && p[0] in s && p[|p| - 1] == b;
        SinksKeepPaths(g, g1, p);
      }
      if ReachableFrom(g, s, b) {
        var p :| IsPath(g, p) && p[0] in s && p[|p| - 1] == b;
        SinksKeepPaths(g, g1, p);
      }
    }
    if Acyclic(g) {
      forall a
        ensures !Reaches(g1, a, a)
      {
        if Reaches(g1, a, a) {
          var p :| IsPath(g1, p) && |p| >= 2 && p[0] == a && p[|p| - 1] == a;
          SinksKeepPaths(g, g1, p);
          assert Reaches(g, a, a);
          assert false;
        }
      }
    }
  }

  // ---------------------------------------------------------------------------
  // Mirrored graphs

  function Reverse(s: seq<Position>): (r: seq<Position>)
    ensures |r| == |s|
    ensures forall i :: 0 <= i < |s| ==> r[i] == s[|s| - 1 - i]
  {
    if s == [] then [] else Reverse(s[1..]) + [s[0]]
  }

  lemma ReversedPath(d: Graph, g: Graph, path: seq<Position>)
    requires Mirrors(d, g) && IsPath(d, path)
    ensures IsPath(g, Reverse(path))
  {
    var r := Reverse(path);
    var n := |path|;
    forall i | 0 <= i < n - 1
      ensures Edge(g, r[i], r[i + 1])
    {
      var j := n - 2 - i;
      assert r[i] == path[j + 1] && r[i + 1] == path[j];
      assert Edge(d, path[j], path[j + 1]);
    }
  }

  /** Along mirrored edges, `b` is reachable from `a` exactly when `a` is
      reachable from `b` in the original graph. */
  lemma MirrorReach(d: Graph, g: Graph, a: Position, b: Position)
    requires Mirrors(d, g)
    ensures ReachableFrom(d, {a}, b) <==> ReachableFrom(g, {b}, a)
  {
    assert Mirrors(g, d);
    if ReachableFrom(d, {a}, b) {
      var p :| IsPath(d, p) && p[0] in {a} && p[|p| - 1] == b;
      ReversedPath(d, g, p);
      var r := Reverse(p);
      assert r[0] == b && r[|r| - 1] == a;
    }
    if ReachableFrom(g, {b}, a) {
      var p :| IsPath(g, p) && p[0] in {b} && p[|p| - 1] == a;
      ReversedPath(g, d, p);
      var r := Reverse(p);
      assert r[0] == a && r[|r| - 1] == b;
    }
  }

  // ---------------------------------------------------------------------------
  // Breadth-first closure

  /** The successors of `frontier` not yet in `seen`. */
  function NextLayer(g: Graph, frontier: set<Position>, seen: set<Position>): (next: set<Position>)
    ensures next !! seen
    ensures next <= Nodes(g)
    ensures forall y :: y in next <==> y !in seen && exists x :: x in frontier && Edge(g, x, y)
  {
    set x, y | x in frontier && x in g && y in g[x] && y !in seen :: y
  }

  /** Every node reachable from `frontier`, given that the nodes of `seen`
      outside the frontier have been fully explored.  Each node enters `seen`
      once. */
  function Closure(g: Graph, frontier: set<Position>, seen: set<Position>): (r: set<Position>)
    requires frontier <= seen
    ensures seen <= r
    decreases |Nodes(g) - seen|
  {
    var next := NextLayer(g, frontier, seen);
    if next == {} then seen
    else
      StrictSubsetCard(Nodes(g) - (seen + next), Nodes(g) - seen);
      Closure(g, next, seen + next)
  }

  lemma {:induction false} ClosureSound(g: Graph, s: set<Position>, frontier: set<Position>, seen: set<Position>)
    requires frontier <= seen
    requires forall x :: x in seen ==> ReachableFrom(g, s, x)
    ensures forall x :: x in Closure(g, frontier, seen) ==> ReachableFrom(g, s, x)
    decreases |Nodes(g) - seen|
  {
    var next := NextLayer(g, frontier, seen);
    if next != {} {
      forall y | y in next
        ensures ReachableFrom(g, s, y)
      {
        var x :| x in frontier && Edge(g, x, y);
        var p :| IsPath(g, p) && p[0] in s && p[|p| - 1] == x;
        AppendIsPath(g, p, [x, y]);
        assert [x, y][1..] == [y];
      }
      StrictSubsetCard(Nodes(g) - (seen + next), Nodes(g) - seen);
      ClosureSound(g, s, next, seen + next);
    }
  }

  lemma {:induction false} ClosureClosed(g: Graph, frontier: set<Position>, seen: set<Position>)
    requires frontier <= seen
    requires forall x :: x in seen - frontier && x in g ==> g[x] <= seen
    ensures Closed(g, Closure(g, frontier, seen))
    decreases |Nodes(g) - seen|
  {
    var next := NextLayer(g, frontier, seen);
    if next == {} {
      forall x | x in frontier && x in g
        ensures g[x] <= seen
      {
        forall y | y in g[x]
          ensures y in seen
        {
          assert Edge(g, x, y);
        }
      }
    } else {
      forall x | x in (seen + next) - next && x in g
        ensures g[x] <= seen + next
      {
        forall y | y in g[x]
          ensures y in seen + next
        {
          assert Edge(g, x, y);
        }
      }
      StrictSubsetCard(Nodes(g) - (seen + next), Nodes(g) - seen);
      ClosureClosed(g, next, seen + next);
    }
  }

  /** The closure of `s` is exactly the set of nodes reachable from `s`. */
  lemma ClosureIsReachable(g: Graph, s: set<Position>)
    ensures forall x :: x in Closure(g, s, s) <==> ReachableFrom(g, s, x)
  {
    forall x | x in s
      ensures ReachableFrom(g, s, x)
    {
      assert IsPath(g, [x]);
    }
    ClosureSound(g, s, s, s);
    ClosureClosed(g, s, s);
    forall x | ReachableFrom(g, s, x)
      ensures x in Closure(g, s, s)
    {
      ClosedContainsReachable(g, s, Closure(g, s, s), x);
    }
  }
}
