/** The dependency graph of a column: vertices with parent and child sets, the search for ancestors,
    and when adding an edge keeps the graph acyclic. */
module Graphs {

  datatype Vertex<V> = Vertex(parents: set<V>, children: set<V>)

  type Edges<V> = map<V, Vertex<V>>

  function Parents<V>(g: Edges<V>, v: V): set<V> {
    if v in g then g[v].parents else {}
  }

  function Children<V>(g: Edges<V>, v: V): set<V> {
    if v in g then g[v].children else {}
  }

  /** Both ends of every edge exist and know each other. */
  ghost predicate WellFormed<V(!new)>(g: Edges<V>) {
    && (forall u, v :: u in Parents(g, v) <==> v in Children(g, u))
    && (forall u, v :: u in Parents(g, v) ==> u in g)
  }

  // -------------------- paths --------------------

  ghost predicate Path<V>(g: Edges<V>, p: seq<V>) {
    forall i :: 0 <= i < |p| - 1 ==> p[i] in Parents(g, p[i + 1])
  }

  /** There is a path of at least one edge from `u` to `v`. */
  ghost predicate Ancestor<V(!new)>(g: Edges<V>, u: V, v: V) {
    exists p :: Path(g, p) && |p| >= 2 && p[0] == u && p[|p| - 1] == v
  }

  ghost predicate Acyclic<V(!new)>(g: Edges<V>) {
    forall v :: !Ancestor(g, v, v)
  }

  ghost function AncestorSet<V(!new)>(g: Edges<V>, v: V): set<V> {
    set u | u in g && Ancestor(g, u, v)
  }

  lemma AncestorEdge<V(!new)>(g: Edges<V>, u: V, v: V)
    requires u in Parents(g, v)
    ensures Ancestor(g, u, v)
  {
    assert Path(g, [u, v]);
  }

  lemma AncestorCons<V(!new)>(g: Edges<V>, u: V, w: V, v: V)
    requires u in Parents(g, w) && (w == v || Ancestor(g, w, v))
    ensures Ancestor(g, u, v)
  {
    if w == v {
      AncestorEdge(g, u, v);
    } else {
      var p :| Path(g, p) && |p| >= 2 && p[0] == w && p[|p| - 1] == v;
      assert Path(g, [u] + p);
    }
  }

  lemma AncestorTrans<V(!new)>(g: Edges<V>, u: V, w: V, v: V)
    requires Ancestor(g, u, w) && Ancestor(g, w, v)
    ensures Ancestor(g, u, v)
  {
    var p :| Path(g, p) && |p| >= 2 && p[0] == u && p[|p| - 1] == w;
    var q :| Path(g, q) && |q| >= 2 && q[0] == w && q[|q| - 1] == v;
    var r := p + q[1..];
    forall i | 0 <= i < |r| - 1 ensures r[i] in Parents(g, r[i + 1]) {
      if i >= |p| - 1 {
        assert r[i] == q[i - |p| + 1] && r[i + 1] == q[i - |p| + 2];
      }
    }
    assert Path(g, r);
  }

  lemma AncestorIsVertex<V(!new)>(g: Edges<V>, u: V, v: V)
    requires WellFormed(g) && Ancestor(g, u, v)
    ensures u in g && v in g
  {
    var p :| Path(g, p) && |p| >= 2 && p[0] == u && p[|p| - 1] == v;
    assert p[0] in Parents(g, p[1]) && p[|p| - 2] in Parents(g, p[|p| - 2 + 1]);
  }

  /** A set that is closed under parents contains every ancestor of its members. */
  lemma {:induction false} ClosedUnderPaths<V(!new)>(g: Edges<V>, s: set<V>, p: seq<V>)
    requires Path(g, p) && |p| >= 1 && p[|p| - 1] in s && forall x :: x in s ==> Parents(g, x) <= s
    ensures p[0] in s
    decreases |p|
  {
    if |p| > 1 {
      var q := p[..|p| - 1];
      assert q[|q| - 1] == p[|p| - 2] && p[|p| - 2] in Parents(g, p[|p| - 2 + 1]);
      ClosedUnderPaths(g, s, q);
    }
  }

  /** In an acyclic graph a parent has strictly fewer ancestors. */
  lemma FewerAncestors<V(!new)>(g: Edges<V>, u: V, v: V)
    requires WellFormed(g) && Acyclic(g) && u in Parents(g, v)
    ensures |AncestorSet(g, u)| < |AncestorSet(g, v)|
  {
    forall x | x in AncestorSet(g, u) ensures x in AncestorSet(g, v) {
      AncestorEdge(g, u, v);
      AncestorTrans(g, x, u, v);
    }
    AncestorEdge(g, u, v);
    AncestorIsVertex(g, u, v);
    assert u in AncestorSet(g, v) && u !in AncestorSet(g, u);
    ProperSubset(AncestorSet(g, u), AncestorSet(g, v), u);
  }

  /** In an acyclic graph every set that is not empty has a member without parents in the set. */
  lemma First<V(!new)>(g: Edges<V>, s: set<V>) returns (v: V)
    requires WellFormed(g) && Acyclic(g) && s != {}
    ensures v in s && Parents(g, v) !! s
  {
    var x :| x in s;
    v := FirstAbove(g, s, x);
  }

  lemma {:induction false} FirstAbove<V(!new)>(g: Edges<V>, s: set<V>, x: V) returns (v: V)
    requires WellFormed(g) && Acyclic(g) && x in s
    ensures v in s && Parents(g, v) !! s
    decreases |AncestorSet(g, x)|
  {
    if Parents(g, x) !! s {
      v := x;
    } else {
      var y :| y in Parents(g, x) && y in s;
      FewerAncestors(g, y, x);
      v := FirstAbove(g, s, y);
    }
  }

  lemma ProperSubset<T>(a: set<T>, b: set<T>, x: T)
    requires a <= b && x in b && x !in a
    ensures |a| < |b|
  {
    Subset(a, b - {x});
  }

  lemma {:induction false} Subset<T>(a: set<T>, b: set<T>)
    requires a <= b
    ensures |a| <= |b|
  {
    if a != {} {
      var x :| x in a;
      Subset(a - {x}, b - {x});
    }
  }

  // -------------------- adding vertices and edges --------------------

  function WithVertex<V>(g: Edges<V>, v: V): Edges<V> {
    if v in g then g else g[v := Vertex({}, {})]
  }

  function WithEdge<V>(g: Edges<V>, from: V, to: V): Edges<V> {
    var g1 := WithVertex(WithVertex(g, from), to);
    var g2 := g1[from := g1[from].(children := g1[from].children + {to})];
    g2[to := g2[to].(parents := g2[to].parents + {from})]
  }

  lemma WithVertexParents<V(!new)>(g: Edges<V>, v: V)
    ensures forall x :: Parents(WithVertex(g, v), x) == Parents(g, x) && Children(WithVertex(g, v), x) == Children(g, x)
  {
  }

  lemma WithEdgeParents<V(!new)>(g: Edges<V>, from: V, to: V)
    ensures forall x :: Parents(WithEdge(g, from, to), x) == Parents(g, x) + (if x == to then {from} else {})
    ensures forall x :: Children(WithEdge(g, from, to), x) == Children(g, x) + (if x == from then {to} else {})
    ensures WithEdge(g, from, to).Keys == g.Keys + {from, to}
  {
  }

  lemma WithVertexWellFormed<V(!new)>(g: Edges<V>, v: V)
    requires WellFormed(g)
    ensures WellFormed(WithVertex(g, v))
  {
    WithVertexParents(g, v);
  }

  lemma WithEdgeWellFormed<V(!new)>(g: Edges<V>, from: V, to: V)
    requires WellFormed(g)
    ensures WellFormed(WithEdge(g, from, to))
  {
    WithEdgeParents(g, from, to);
  }

  lemma SameParentsSameAncestors<V(!new)>(g: Edges<V>, h: Edges<V>, u: V, v: V)
    requires forall x :: Parents(g, x) <= Parents(h, x)
    requires Ancestor(g, u, v)
    ensures Ancestor(h, u, v)
  {
  }

  /** Edges into `t` do not change what `t` leads to: a path from `t` need not come back to it. */
  lemma {:induction false} PathElsewhere<V(!new)>(g: Edges<V>, h: Edges<V>, t: V, p: seq<V>)
    requires forall x :: x != t ==> Parents(g, x) == Parents(h, x)
    requires Path(g, p) && |p| >= 2 && p[0] == t && p[|p| - 1] != t
    ensures Ancestor(h, t, p[|p| - 1])
    decreases |p|
  {
    if i :| 0 < i < |p| && p[i] == t {
      var q := p[i..];
      assert forall j :: 0 <= j < |q| ==> q[j] == p[i + j];
      PathElsewhere(g, h, t, q);
    } else {
      forall i | 0 <= i < |p| - 1 ensures p[i] in Parents(h, p[i + 1]) {
        assert p[i] in Parents(g, p[i + 1]);
      }
      assert Path(h, p);
    }
  }

  lemma AncestorElsewhere<V(!new)>(g: Edges<V>, h: Edges<V>, t: V, v: V)
    requires (forall x :: x != t ==> Parents(g, x) == Parents(h, x)) && v != t
    ensures Ancestor(g, t, v) <==> Ancestor(h, t, v)
  {
    if Ancestor(g, t, v) {
      var p :| Path(g, p) && |p| >= 2 && p[0] == t && p[|p| - 1] == v;
      PathElsewhere(g, h, t, p);
    }
    if Ancestor(h, t, v) {
      var p :| Path(h, p) && |p| >= 2 && p[0] == t && p[|p| - 1] == v;
      PathElsewhere(h, g, t, p);
    }
  }

  lemma WithVertexAcyclic<V(!new)>(g: Edges<V>, v: V)
    ensures Acyclic(WithVertex(g, v)) <==> Acyclic(g)
  {
    WithVertexParents(g, v);
    var h := WithVertex(g, v);
    forall x ensures Ancestor(g, x, x) <==> Ancestor(h, x, x) {
      if Ancestor(g, x, x) { SameParentsSameAncestors(g, h, x, x); }
      if Ancestor(h, x, x) { SameParentsSameAncestors(h, g, x, x); }
    }
  }

  /** Every path of the larger graph either avoids the new edge, or starts at an ancestor of `from` (or `from`
      itself) and ends at `to` or a descendant of it. */
  lemma {:induction false} PathThroughEdge<V(!new)>(g: Edges<V>, from: V, to: V, p: seq<V>)
    requires !Ancestor(g, to, from) && from != to
    requires Path(WithEdge(g, from, to), p) && |p| >= 2
    ensures var u, v := p[0], p[|p| - 1];
            Ancestor(g, u, v) || ((u == from || Ancestor(g, u, from)) && (v == to || Ancestor(g, to, v)))
    decreases |p|
  {
    WithEdgeParents(g, from, to);
    var u, w, v := p[0], p[1], p[|p| - 1];
    assert p[0] in Parents(WithEdge(g, from, to), p[0 + 1]);
    if |p| == 2 {
      if u in Parents(g, v) {
        AncestorEdge(g, u, v);
      }
    } else {
      var q := p[1..];
      forall i | 0 <= i < |q| - 1 ensures q[i] in Parents(WithEdge(g, from, to), q[i + 1]) {
        assert p[i + 1] in Parents(WithEdge(g, from, to), p[i + 1 + 1]);
      }
      PathThroughEdge(g, from, to, q);
      if u in Parents(g, w) {
        if Ancestor(g, w, v) {
          AncestorCons(g, u, w, v);
        } else {
          AncestorCons(g, u, w, from);
        }
      }
    }
  }

  /** Adding an edge to an acyclic graph keeps it acyclic exactly when it is not a loop and its head is
      not already an ancestor of its tail. */
  lemma WithEdgeAcyclic<V(!new)>(g: Edges<V>, from: V, to: V)
    requires Acyclic(g)
    ensures Acyclic(WithEdge(g, from, to)) <==> from != to && !Ancestor(g, to, from)
  {
    var h := WithEdge(g, from, to);
    WithEdgeParents(g, from, to);
    if from != to && !Ancestor(g, to, from) {
      forall v ensures !Ancestor(h, v, v) {
        if Ancestor(h, v, v) {
          var p :| Path(h, p) && |p| >= 2 && p[0] == v && p[|p| - 1] == v;
          PathThroughEdge(g, from, to, p);
          NoReturn(g, from, to, v);
        }
      }
    } else {
      assert from in Parents(h, to);
      if from == to {
        AncestorEdge(h, to, to);
      } else {
        SameParentsSameAncestors(g, h, to, from);
        AncestorCons(h, from, to, from);
      }
    }
  }

  lemma NoReturn<V(!new)>(g: Edges<V>, from: V, to: V, v: V)
    requires !Ancestor(g, to, from) && from != to
    ensures !((v == from || Ancestor(g, v, from)) && (v == to || Ancestor(g, to, v)))
  {
    if Ancestor(g, v, from) && Ancestor(g, to, v) {
      AncestorTrans(g, to, v, from);
    }
  }

  // -------------------- the graph object --------------------

  class Graph<V(!new, ==)> {
    var edges: Edges<V>

    constructor ()
      ensures edges == map[]
    {
      edges := map[];
    }

    method AddVertex(v: V)
      modifies this
      ensures edges == WithVertex(old(edges), v)
    {
      if v !in edges {
        edges := edges[v := Vertex({}, {})];
      }
    }

    method AddEdge(from: V, to: V)
      modifies this
      ensures edges == WithEdge(old(edges), from, to)
    {
      AddVertex(from);
      AddVertex(to);
      edges := edges[from := edges[from].(children := edges[from].children + {to})];
      edges := edges[to := edges[to].(parents := edges[to].parents + {from})];
    }

    /** Depth-first search against the edges. The vertex itself is never reported. */
    method GetAncestors(v: V) returns (ancestors: set<V>)
      requires WellFormed(edges)
      ensures ancestors == AncestorSet(edges, v) - {v}
    {
      ancestors := {};
      if v !in edges {
        NoAncestors(edges, v);
        return;
      }
      var visited := {v};
      var stack := PushAll([], edges[v].parents);
      PushedAncestors(edges, v, v);
      while |stack| > 0
        invariant Searching(edges, v, visited, ancestors, stack)
        decreases |edges.Keys - visited|, |stack|
      {
        var top := stack[|stack| - 1];
        if top in visited {
          SearchSkip(edges, v, visited, ancestors, stack);
          stack := stack[..|stack| - 1];
          continue;
        }
        ghost var stack0 := stack;
        stack := PushAll(stack[..|stack| - 1], edges[top].parents);
        SearchVisit(edges, v, visited, ancestors, stack0, stack);
        visited := visited + {top};
        ancestors := ancestors + {top};
      }
      SearchComplete(edges, v, visited);
    }

    /** Is `from` an ancestor of `to`? */
    method ParentExist(from: V, to: V) returns (r: bool)
      requires WellFormed(edges)
      ensures r <==> from != to && Ancestor(edges, from, to)
    {
      var ancestors := GetAncestors(to);
      r := from in ancestors;
      if from != to && Ancestor(edges, from, to) {
        AncestorIsVertex(edges, from, to);
      }
    }
  }

  /** Pushes the elements of a set in an arbitrary order. */
  method PushAll<V(==)>(stack: seq<V>, s: set<V>) returns (r: seq<V>)
    ensures forall x :: x in r <==> x in stack || x in s
  {
    r := stack;
    var rest := s;
    while rest != {}
      invariant rest <= s
      invariant forall x :: x in r <==> x in stack || x in s - rest
    {
      var x :| x in rest;
      r := r + [x];
      rest := rest - {x};
    }
  }

  lemma NoAncestors<V(!new)>(g: Edges<V>, v: V)
    requires WellFormed(g) && v !in g
    ensures AncestorSet(g, v) == {}
  {
    forall u | Ancestor(g, u, v) ensures false {
      AncestorIsVertex(g, u, v);
    }
  }

  lemma PushedAncestors<V(!new)>(g: Edges<V>, top: V, v: V)
    requires WellFormed(g) && (top == v || Ancestor(g, top, v))
    ensures forall x :: x in Parents(g, top) ==> x in g && Ancestor(g, x, v)
  {
    forall x | x in Parents(g, top) ensures x in g && Ancestor(g, x, v) {
      AncestorCons(g, x, top, v);
    }
  }

  /** The state of the search: everything visited or on the stack is an ancestor, and every parent of a
      visited vertex is visited or on the stack. */
  ghost predicate Searching<V(!new)>(g: Edges<V>, v: V, visited: set<V>, ancestors: set<V>, stack: seq<V>) {
    && v !in ancestors && visited == ancestors + {v} && visited <= g.Keys
    && (forall x :: x in ancestors ==> Ancestor(g, x, v))
    && (forall x :: x in stack ==> x in g && Ancestor(g, x, v))
    && (forall x, y :: x in visited && y in Parents(g, x) ==> y in visited || y in stack)
  }

  lemma SearchSkip<V(!new)>(g: Edges<V>, v: V, visited: set<V>, ancestors: set<V>, stack: seq<V>)
    requires Searching(g, v, visited, ancestors, stack) && |stack| > 0 && stack[|stack| - 1] in visited
    ensures Searching(g, v, visited, ancestors, stack[..|stack| - 1])
  {
  }

  lemma SearchVisit<V(!new)>(g: Edges<V>, v: V, visited: set<V>, ancestors: set<V>, stack: seq<V>, stack': seq<V>)
    requires WellFormed(g) && Searching(g, v, visited, ancestors, stack) && |stack| > 0
             && stack[|stack| - 1] !in visited
    requires forall x :: x in stack' <==> x in stack[..|stack| - 1] || x in Parents(g, stack[|stack| - 1])
    ensures Searching(g, v, visited + {stack[|stack| - 1]}, ancestors + {stack[|stack| - 1]}, stack')
    ensures |g.Keys - (visited + {stack[|stack| - 1]})| < |g.Keys - visited|
  {
    var n := |stack| - 1;
    var top := stack[n];
    assert top in stack;
    assert forall y :: y in stack ==> y == top || y in stack[..n];
    PushedAncestors(g, top, v);
    ProperSubset(g.Keys - (visited + {top}), g.Keys - visited, top);
  }

  lemma SearchComplete<V(!new)>(g: Edges<V>, v: V, visited: set<V>)
    requires v in visited && forall x, y :: x in visited && y in Parents(g, x) ==> y in visited
    ensures AncestorSet(g, v) <= visited
  {
    forall u | u in AncestorSet(g, v) ensures u in visited {
      var p :| Path(g, p) && |p| >= 2 && p[0] == u && p[|p| - 1] == v;
      ClosedUnderPaths(g, visited, p);
    }
  }
}
