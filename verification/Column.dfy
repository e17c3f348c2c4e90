/** The update pipeline of one column of one shard: order messages build the dependency graph, update
    messages are buffered, and a buffered update is ingested once everything it depends on has been. */
module Columns {
  import opened Graphs

  type Tid = nat

  datatype OdVertex = OdVertex(status: int, upCnt: int, estimatedTime: nat)

  /** `waiting` is the part of the query waitlist that concerns this column. `log` records what has been
      ingested, in order; `foreign` records the vertices that were first mentioned as a parent. */
  datatype Col<U> = Col(g: Edges<Tid>, order: map<Tid, OdVertex>, updates: map<Tid, seq<U>>, waiting: map<Tid, int>,
                        log: seq<(Tid, U)>, foreign: set<Tid>)

  predicate Done<U>(c: Col<U>, t: Tid) {
    t in c.order && c.order[t].status != 0
  }

  ghost predicate Logged<U>(c: Col<U>, t: Tid) {
    exists i :: 0 <= i < |c.log| && c.log[i].0 == t
  }

  // -------------------- ingestion --------------------

  function Tagged<U>(t: Tid, us: seq<U>): seq<(Tid, U)> {
    seq(|us|, i requires 0 <= i < |us| => (t, us[i]))
  }

  ghost predicate CanIngest<U>(c: Col<U>, t: Tid) {
    t in c.g && t in c.order && t in c.updates && forall p :: p in Parents(c.g, t) ==> Done(c, p)
  }

  function IngestOne<U>(c: Col<U>, t: Tid): Col<U>
    requires t in c.order && t in c.updates
  {
    c.(order := c.order[t := c.order[t].(status := 1)],
       updates := c.updates - {t},
       waiting := if t in c.waiting then c.waiting[t := 1] else c.waiting,
       log := c.log + Tagged(t, c.updates[t]))
  }

  /** Ingesting the transactions of `ext` one after the other never overtakes a parent. */
  ghost predicate Safe<U>(c: Col<U>, ext: seq<Tid>)
    decreases |ext|
  {
    ext == [] || (CanIngest(c, ext[0]) && Safe(IngestOne(c, ext[0]), ext[1..]))
  }

  ghost function IngestAll<U>(c: Col<U>, ext: seq<Tid>): Col<U>
    requires Safe(c, ext)
    decreases |ext|
  {
    if ext == [] then c else IngestAll(IngestOne(c, ext[0]), ext[1..])
  }

  lemma SafeOne<U>(c: Col<U>, t: Tid)
    requires CanIngest(c, t)
    ensures Safe(c, [t]) && IngestAll(c, [t]) == IngestOne(c, t)
  {
  }

  lemma {:induction false} SafeAppend<U>(c: Col<U>, a: seq<Tid>, b: seq<Tid>)
    requires Safe(c, a) && Safe(IngestAll(c, a), b)
    ensures Safe(c, a + b) && IngestAll(c, a + b) == IngestAll(IngestAll(c, a), b)
    decreases |a|
  {
    if a == [] {
      assert a + b == b;
    } else {
      assert (a + b)[1..] == a[1..] + b;
      SafeAppend(IngestOne(c, a[0]), a[1..], b);
    }
  }

  /** What a safe ingestion changes and what it leaves alone. */
  lemma {:induction false} IngestEffect<U>(c: Col<U>, ext: seq<Tid>)
    requires Safe(c, ext)
    ensures var d := IngestAll(c, ext);
            && d.g == c.g && d.order.Keys == c.order.Keys && d.foreign == c.foreign && d.waiting.Keys == c.waiting.Keys
            && (forall x :: Done(d, x) <==> Done(c, x) || x in ext)
            && (forall x :: x in d.updates <==> x in c.updates && x !in ext)
            && (forall x :: x in d.updates ==> d.updates[x] == c.updates[x])
            && (forall x :: x in ext ==> x in c.updates && x in c.order && x in c.g)
    decreases |ext|
  {
    if ext != [] {
      IngestEffect(IngestOne(c, ext[0]), ext[1..]);
      assert forall x :: x in ext <==> x == ext[0] || x in ext[1..];
    }
  }

  /** No transaction is ingested twice: ingestion consumes the buffered update. */
  lemma {:induction false} IngestedOnce<U>(c: Col<U>, ext: seq<Tid>)
    requires Safe(c, ext)
    ensures forall i, j :: 0 <= i < j < |ext| ==> ext[i] != ext[j]
    decreases |ext|
  {
    if ext != [] {
      var d := IngestOne(c, ext[0]);
      IngestedOnce(d, ext[1..]);
      IngestEffect(d, ext[1..]);
      assert ext[0] !in d.updates && ext[0] !in ext[1..];
      assert forall j :: 1 <= j < |ext| ==> ext[j] == ext[1..][j - 1];
    }
  }

  /** The buffered updates are handed over in the order of `ext`. */
  lemma {:induction false} IngestLog<U>(c: Col<U>, ext: seq<Tid>)
    requires Safe(c, ext) && forall t :: t in c.updates ==> |c.updates[t]| == 1
    ensures var d := IngestAll(c, ext);
            && |d.log| == |c.log| + |ext| && c.log <= d.log
            && (forall k :: 0 <= k < |ext| ==>
                  ext[k] in c.updates && d.log[|c.log| + k] == (ext[k], c.updates[ext[k]][0]))
    decreases |ext|
  {
    if ext != [] {
      var b, d := IngestOne(c, ext[0]), IngestAll(c, ext);
      IngestLog(b, ext[1..]);
      assert b.log == c.log + [(ext[0], c.updates[ext[0]][0])];
      forall k | 0 <= k < |ext|
        ensures ext[k] in c.updates && d.log[|c.log| + k] == (ext[k], c.updates[ext[k]][0])
      {
        if k == 0 {
          assert d.log[|c.log|] == b.log[|c.log|];
        } else {
          assert ext[1..][k - 1] == ext[k] && d.log[|b.log| + (k - 1)] == d.log[|c.log| + k];
        }
      }
    }
  }

  /** Of a vertex only the status changes. */
  lemma {:induction false} IngestStatus<U>(c: Col<U>, ext: seq<Tid>)
    requires Safe(c, ext)
    ensures var d := IngestAll(c, ext);
            && d.order.Keys == c.order.Keys
            && (forall x :: x in c.order ==> d.order[x] == if x in ext then c.order[x].(status := 1) else c.order[x])
    decreases |ext|
  {
    if ext != [] {
      IngestStatus(IngestOne(c, ext[0]), ext[1..]);
      assert forall x :: x in ext <==> x == ext[0] || x in ext[1..];
    }
  }

  /** When `w` is ingested each of its parents was done before or is ingested too. */
  lemma {:induction false} ParentsIngested<U>(c: Col<U>, ext: seq<Tid>, w: Tid, p: Tid)
    requires Safe(c, ext) && w in ext && p in Parents(c.g, w)
    ensures Done(c, p) || p in ext
    decreases |ext|
  {
    if w != ext[0] {
      assert w in ext[1..];
      ParentsIngested(IngestOne(c, ext[0]), ext[1..], w, p);
    }
  }

  // -------------------- what a transaction still needs --------------------

  /** A path whose vertices, except the last, are not done. */
  ghost predicate OpenPath<U>(c: Col<U>, p: seq<Tid>) {
    Path(c.g, p) && forall i :: 0 <= i < |p| - 1 ==> !Done(c, p[i])
  }

  /** `u` is `t`, or is reached backwards from `t` through vertices that are not done. */
  ghost predicate Needs<U>(c: Col<U>, u: Tid, t: Tid) {
    exists p :: OpenPath(c, p) && |p| >= 1 && p[0] == u && p[|p| - 1] == t
  }

  ghost predicate Ready<U>(c: Col<U>, t: Tid) {
    forall u :: Needs(c, u, t) ==> u in c.updates
  }

  lemma NeedsSelf<U>(c: Col<U>, t: Tid)
    ensures Needs(c, t, t)
  {
    assert OpenPath(c, [t]);
  }

  lemma NeedsParent<U>(c: Col<U>, u: Tid, p: Tid, t: Tid)
    requires Needs(c, u, p) && p in Parents(c.g, t) && !Done(c, p)
    ensures Needs(c, u, t)
  {
    var q :| OpenPath(c, q) && |q| >= 1 && q[0] == u && q[|q| - 1] == p;
    var r := q + [t];
    forall i | 0 <= i < |r| - 1 ensures r[i] in Parents(c.g, r[i + 1]) && !Done(c, r[i]) {
      if i < |q| - 1 {
        assert q[i] in Parents(c.g, q[i + 1]);
      }
    }
    assert OpenPath(c, r);
  }

  lemma NeedsSplit<U>(c: Col<U>, u: Tid, t: Tid) returns (p: Tid)
    requires Needs(c, u, t) && u != t
    ensures p in Parents(c.g, t) && !Done(c, p) && Needs(c, u, p)
  {
    var q :| OpenPath(c, q) && |q| >= 1 && q[0] == u && q[|q| - 1] == t;
    var n := |q| - 2;
    p := q[n];
    assert q[n] in Parents(c.g, q[n + 1]);
    var r := q[..n + 1];
    assert OpenPath(c, r) && r[0] == u && r[|r| - 1] == p;
  }

  /** Once `w` has been ingested, everything it needed has been. */
  lemma {:induction false} NeedsIngested<U>(c: Col<U>, ext: seq<Tid>, p: seq<Tid>)
    requires Safe(c, ext) && OpenPath(c, p) && |p| >= 1 && p[|p| - 1] in ext
    ensures p[0] in ext
    decreases |p|
  {
    if |p| > 1 {
      var n := |p| - 2;
      assert p[n] in Parents(c.g, p[n + 1]);
      ParentsIngested(c, ext, p[n + 1], p[n]);
      NeedsIngested(c, ext, p[..n + 1]);
    }
  }

  lemma NeededIngested<U>(c: Col<U>, ext: seq<Tid>, u: Tid, w: Tid)
    requires Safe(c, ext) && w in ext && Needs(c, u, w)
    ensures u in ext
  {
    var p :| OpenPath(c, p) && |p| >= 1 && p[0] == u && p[|p| - 1] == w;
    NeedsIngested(c, ext, p);
  }

  lemma NeedsLess<U>(c: Col<U>, ext: seq<Tid>, u: Tid, t: Tid)
    requires Safe(c, ext) && Needs(IngestAll(c, ext), u, t)
    ensures Needs(c, u, t)
  {
    IngestEffect(c, ext);
    var p :| OpenPath(IngestAll(c, ext), p) && |p| >= 1 && p[0] == u && p[|p| - 1] == t;
    assert OpenPath(c, p);
  }

  /** Ingesting other transactions does not change whether one that is not done is ready. */
  lemma ReadyAfter<U>(c: Col<U>, ext: seq<Tid>, t: Tid)
    requires Safe(c, ext) && !Done(IngestAll(c, ext), t)
    ensures Ready(IngestAll(c, ext), t) <==> Ready(c, t)
  {
    var d := IngestAll(c, ext);
    IngestEffect(c, ext);
    if Ready(d, t) {
      forall u | Needs(c, u, t) ensures u in c.updates {
        var p :| OpenPath(c, p) && |p| >= 1 && p[0] == u && p[|p| - 1] == t;
        ReadyOnPath(c, ext, t, p);
      }
    }
    if Ready(c, t) {
      forall u | Needs(d, u, t) ensures u in d.updates {
        NeedsLess(c, ext, u, t);
      }
    }
  }

  lemma ReadyOnPath<U>(c: Col<U>, ext: seq<Tid>, t: Tid, p: seq<Tid>)
    requires Safe(c, ext) && Ready(IngestAll(c, ext), t)
    requires OpenPath(c, p) && |p| >= 1 && p[|p| - 1] == t
    ensures p[0] in c.updates
  {
    var d := IngestAll(c, ext);
    IngestEffect(c, ext);
    if i :| 0 <= i < |p| - 1 && Done(d, p[i]) {
      assert OpenPath(c, p[..i + 1]);
      NeedsIngested(c, ext, p[..i + 1]);
    } else {
      assert OpenPath(d, p);
      assert Needs(d, p[0], t);
    }
  }

  // -------------------- the invariant --------------------

  ghost predicate Inv<U>(c: Col<U>) {
    && WellFormed(c.g) && Acyclic(c.g) && c.g.Keys == c.order.Keys && c.foreign <= c.order.Keys
    && (forall t :: t in c.order ==> c.order[t].status in {0, 1} && c.order[t].upCnt == 1)
    && (forall t :: t in c.updates ==> |c.updates[t]| == 1)
    && (forall t :: t in c.waiting ==> t in c.order && c.waiting[t] == c.order[t].status)
    && (forall t :: Done(c, t) ==> Logged(c, t) || t in c.foreign)
  }

  lemma LogGrows<U>(c: Col<U>, d: Col<U>, ext: seq<(Tid, U)>, t: Tid)
    requires d.log == c.log + ext && Logged(c, t)
    ensures Logged(d, t)
  {
    var i :| 0 <= i < |c.log| && c.log[i].0 == t;
    assert d.log[i].0 == t;
  }

  lemma IngestOneInv<U>(c: Col<U>, t: Tid)
    requires Inv(c) && CanIngest(c, t)
    ensures Inv(IngestOne(c, t))
  {
    var d := IngestOne(c, t);
    assert d.log[|c.log|].0 == t;
    forall x | Done(d, x) ensures Logged(d, x) || x in d.foreign {
      if x != t && Logged(c, x) {
        LogGrows(c, d, Tagged(t, c.updates[t]), x);
      }
    }
  }

  lemma {:induction false} IngestInv<U>(c: Col<U>, ext: seq<Tid>)
    requires Inv(c) && Safe(c, ext)
    ensures Inv(IngestAll(c, ext))
    decreases |ext|
  {
    if ext != [] {
      IngestOneInv(c, ext[0]);
      IngestInv(IngestOne(c, ext[0]), ext[1..]);
    }
  }

  // -------------------- messages --------------------

  /** The vertex of the ordered transaction itself: status 0, unless it is known already. */
  function AddOrdered<U>(c: Col<U>, t: Tid, est: nat): Col<U> {
    c.(g := WithVertex(c.g, t),
       order := if t in c.order then c.order else c.order[t := OdVertex(0, 1, est)])
  }

  /** One parent of `t`: a vertex first seen here gets status 1. The edge is added unless `t` is already
      an ancestor of the parent; a search for ancestors never reports the vertex itself. */
  ghost function AddParent<U>(c: Col<U>, t: Tid, p: Tid): Col<U> {
    var g := WithVertex(c.g, p);
    c.(g := if t != p && Ancestor(g, t, p) then g else WithEdge(g, p, t),
       order := if p in c.order then c.order else c.order[p := OdVertex(1, 1, 0)],
       foreign := if p in c.order then c.foreign else c.foreign + {p})
  }

  ghost function AddParents<U>(c: Col<U>, t: Tid, ps: seq<Tid>): Col<U>
    decreases |ps|
  {
    if ps == [] then c else AddParents(AddParent(c, t, ps[0]), t, ps[1..])
  }

  ghost function OrderMsg<U>(c: Col<U>, t: Tid, est: nat, ps: seq<Tid>): Col<U> {
    AddParents(AddOrdered(c, t, est), t, ps)
  }

  /** The declared parents that are recorded: `t` itself, and every other one that `t` does not lead to. */
  ghost function Recorded<U>(c: Col<U>, t: Tid, ps: seq<Tid>): set<Tid> {
    set p | p in ps && (p == t || !Ancestor(c.g, t, p))
  }

  lemma AddParentParents<U>(c: Col<U>, t: Tid, p: Tid)
    requires t in c.g
    ensures var d := AddParent(c, t, p);
            && Parents(d.g, t) == Parents(c.g, t) + Recorded(c, t, [p]) && d.g.Keys == c.g.Keys + {p}
            && (forall x :: x != t ==> Parents(d.g, x) == Parents(c.g, x))
  {
    var g := WithVertex(c.g, p);
    WithVertexParents(c.g, p);
    WithEdgeParents(g, p, t);
    if p != t {
      AncestorElsewhere(c.g, g, t, p);
    }
  }

  lemma RecordedSplit<U>(c: Col<U>, b: Col<U>, t: Tid, ps: seq<Tid>)
    requires ps != [] && forall x :: x != t ==> Parents(b.g, x) == Parents(c.g, x)
    ensures Recorded(c, t, ps) == Recorded(c, t, [ps[0]]) + Recorded(b, t, ps[1..])
  {
    forall p | p != t ensures Ancestor(b.g, t, p) <==> Ancestor(c.g, t, p) {
      AncestorElsewhere(b.g, c.g, t, p);
    }
    assert forall p :: p in ps <==> p == ps[0] || p in ps[1..];
  }

  lemma {:induction false} AddParentsParents<U>(c: Col<U>, t: Tid, ps: seq<Tid>)
    requires t in c.g
    ensures var d := AddParents(c, t, ps);
            && Parents(d.g, t) == Parents(c.g, t) + Recorded(c, t, ps) && d.g.Keys == c.g.Keys + (set p | p in ps)
            && (forall x :: x != t ==> Parents(d.g, x) == Parents(c.g, x))
    decreases |ps|
  {
    if ps != [] {
      var b := AddParent(c, t, ps[0]);
      AddParentParents(c, t, ps[0]);
      AddParentsParents(b, t, ps[1..]);
      RecordedSplit(c, b, t, ps);
      assert (set p | p in ps) == {ps[0]} + (set p | p in ps[1..]);
    }
  }

  /** What an order message does to the graph, whether `t` is new or known: of the declared parents exactly those
      are added that `t` does not lead to, so an edge is refused only if it would close a cycle; nothing else changes.
      */
  lemma OrderMsgParents<U>(c: Col<U>, t: Tid, est: nat, ps: seq<Tid>)
    ensures var d := OrderMsg(c, t, est, ps);
            && Parents(d.g, t) == Parents(c.g, t) + (set p | p in ps && (p == t || !Ancestor(c.g, t, p)))
            && (forall p :: p in ps ==> p in Parents(d.g, t) || Ancestor(d.g, t, p))
            && (forall x :: x != t ==> Parents(d.g, x) == Parents(c.g, x))
            && d.g.Keys == c.g.Keys + {t} + (set p | p in ps)
  {
    var b, d := AddOrdered(c, t, est), OrderMsg(c, t, est, ps);
    WithVertexParents(c.g, t);
    AddParentsParents(b, t, ps);
    forall p | p in ps && p != t
      ensures (Ancestor(b.g, t, p) <==> Ancestor(c.g, t, p)) && (Ancestor(d.g, t, p) <==> Ancestor(c.g, t, p))
    {
      AncestorElsewhere(b.g, c.g, t, p);
      AncestorElsewhere(d.g, c.g, t, p);
    }
  }

  ghost predicate StatusAfter<U>(c: Col<U>, ps: seq<Tid>, d: Col<U>) {
    && d == c.(g := d.g, order := d.order, foreign := d.foreign)
    && d.order.Keys == c.order.Keys + (set p | p in ps)
    && (forall x :: x in d.order ==> d.order[x] == if x in c.order then c.order[x] else OdVertex(1, 1, 0))
    && d.foreign == c.foreign + (set p | p in ps && p !in c.order)
  }

  lemma StatusTrans<U>(c: Col<U>, ps: seq<Tid>, b: Col<U>, d: Col<U>)
    requires ps != [] && StatusAfter(c, [ps[0]], b) && StatusAfter(b, ps[1..], d)
    ensures StatusAfter(c, ps, d)
  {
    assert forall p :: p in ps <==> p == ps[0] || p in ps[1..];
  }

  lemma {:induction false} AddParentsStatus<U>(c: Col<U>, t: Tid, ps: seq<Tid>)
    ensures StatusAfter(c, ps, AddParents(c, t, ps))
    decreases |ps|
  {
    if ps != [] {
      var b := AddParent(c, t, ps[0]);
      assert StatusAfter(c, [ps[0]], b);
      AddParentsStatus(b, t, ps[1..]);
      StatusTrans(c, ps, b, AddParents(b, t, ps[1..]));
    }
  }

  /** What an order message does to the rest: known vertices keep their status, `t` starts with status 0 and a parent
      that was not known with status 1. */
  lemma OrderMsgStatus<U>(c: Col<U>, t: Tid, est: nat, ps: seq<Tid>)
    ensures var d := OrderMsg(c, t, est, ps);
            && d == c.(g := d.g, order := d.order, foreign := d.foreign)
            && d.order.Keys == c.order.Keys + {t} + (set p | p in ps)
            && (forall x :: x in c.order ==> d.order[x] == c.order[x])
            && (t !in c.order ==> d.order[t] == OdVertex(0, 1, est))
            && (forall p :: p in ps && p != t && p !in c.order ==> d.order[p] == OdVertex(1, 1, 0))
            && d.foreign == c.foreign + (set p | p in ps && p != t && p !in c.order)
  {
    AddParentsStatus(AddOrdered(c, t, est), t, ps);
  }

  function BufferMsg<U>(c: Col<U>, t: Tid, u: U): Col<U> {
    if t in c.updates then c else c.(updates := c.updates[t := [u]])
  }

  /** A query round puts every transaction that is not done on the waitlist. */
  function Scan<U>(c: Col<U>): Col<U> {
    c.(waiting := (map t | t in c.g && t in c.order && c.order[t].status == 0 :: 0) + c.waiting)
  }

  function Erase<U>(c: Col<U>, t: Tid): Col<U> {
    if t in c.waiting && c.waiting[t] != 0 then c.(waiting := c.waiting - {t}) else c
  }

  lemma AddOrderedInv<U>(c: Col<U>, t: Tid, est: nat)
    requires Inv(c)
    ensures Inv(AddOrdered(c, t, est)) && t in AddOrdered(c, t, est).order
  {
    var d := AddOrdered(c, t, est);
    WithVertexWellFormed(c.g, t);
    WithVertexAcyclic(c.g, t);
    forall x | Done(d, x) ensures Logged(d, x) || x in d.foreign {
      assert Done(c, x);
      if Logged(c, x) {
        LogGrows(c, d, [], x);
      }
    }
  }

  lemma AddParentGraph<U>(c: Col<U>, t: Tid, p: Tid)
    requires WellFormed(c.g) && Acyclic(c.g) && t in c.g
    ensures WellFormed(AddParent(c, t, p).g)
    ensures AddParent(c, t, p).g.Keys == c.g.Keys + {p}
    ensures Acyclic(AddParent(c, t, p).g) <==> t != p
  {
    var g := WithVertex(c.g, p);
    WithVertexWellFormed(c.g, p);
    WithVertexAcyclic(c.g, p);
    WithEdgeWellFormed(g, p, t);
    WithEdgeParents(g, p, t);
    WithEdgeAcyclic(g, p, t);
  }

  lemma AddParentInv<U>(c: Col<U>, t: Tid, p: Tid)
    requires Inv(c) && t in c.order && t != p
    ensures Inv(AddParent(c, t, p))
  {
    var d := AddParent(c, t, p);
    AddParentGraph(c, t, p);
    forall x | Done(d, x) ensures Logged(d, x) || x in d.foreign {
      if Done(c, x) && Logged(c, x) {
        LogGrows(c, d, [], x);
      }
    }
  }

  lemma {:induction false} AddParentsInv<U>(c: Col<U>, t: Tid, ps: seq<Tid>)
    requires Inv(c) && t in c.order && t !in ps
    ensures Inv(AddParents(c, t, ps))
    decreases |ps|
  {
    if ps != [] {
      AddParentInv(c, t, ps[0]);
      AddParentsInv(AddParent(c, t, ps[0]), t, ps[1..]);
    }
  }

  lemma OrderMsgInv<U>(c: Col<U>, t: Tid, est: nat, ps: seq<Tid>)
    requires Inv(c) && t !in ps
    ensures Inv(OrderMsg(c, t, est, ps))
  {
    AddOrderedInv(c, t, est);
    AddParentsInv(AddOrdered(c, t, est), t, ps);
  }

  /** Edges are never removed, so a cycle stays. */
  lemma {:induction false} CycleStays<U>(c: Col<U>, t: Tid, ps: seq<Tid>)
    requires !Acyclic(c.g)
    ensures !Acyclic(AddParents(c, t, ps).g)
    decreases |ps|
  {
    if ps != [] {
      var d := AddParent(c, t, ps[0]);
      WithVertexParents(c.g, ps[0]);
      WithEdgeParents(WithVertex(c.g, ps[0]), ps[0], t);
      var v :| Ancestor(c.g, v, v);
      SameParentsSameAncestors(c.g, d.g, v, v);
      CycleStays(d, t, ps[1..]);
    }
  }

  lemma {:induction false} SelfParentCycle<U>(c: Col<U>, t: Tid, ps: seq<Tid>)
    requires Inv(c) && t in c.order && t in ps
    ensures !Acyclic(AddParents(c, t, ps).g)
    decreases |ps|
  {
    if ps[0] == t {
      AddParentGraph(c, t, t);
      CycleStays(AddParent(c, t, t), t, ps[1..]);
    } else {
      AddParentInv(c, t, ps[0]);
      SelfParentCycle(AddParent(c, t, ps[0]), t, ps[1..]);
    }
  }

  /** An order message keeps the graph acyclic if and only if the transaction does not name itself as a parent:
      the ancestor search never reports its own vertex, so the guard lets a loop through. */
  lemma OrderMsgAcyclic<U>(c: Col<U>, t: Tid, est: nat, ps: seq<Tid>)
    requires Inv(c)
    ensures Acyclic(OrderMsg(c, t, est, ps).g) <==> t !in ps
  {
    AddOrderedInv(c, t, est);
    if t in ps {
      SelfParentCycle(AddOrdered(c, t, est), t, ps);
    } else {
      OrderMsgInv(c, t, est, ps);
    }
  }

  lemma BufferMsgInv<U>(c: Col<U>, t: Tid, u: U)
    requires Inv(c)
    ensures Inv(BufferMsg(c, t, u))
  {
  }

  /** The waitlist of a round: what was on it, and everything that is not done. */
  lemma ScanInv<U>(c: Col<U>)
    requires Inv(c)
    ensures Inv(Scan(c)) && Scan(c) == c.(waiting := Scan(c).waiting)
    ensures forall t :: t in Scan(c).waiting <==> t in c.waiting || (t in c.order && !Done(c, t))
  {
  }

  /** An entry leaves the waitlist if and only if it is done. */
  lemma EraseInv<U>(c: Col<U>, t: Tid)
    requires Inv(c)
    ensures Inv(Erase(c, t)) && Erase(c, t) == c.(waiting := Erase(c, t).waiting)
    ensures forall x :: x in Erase(c, t).waiting <==> x in c.waiting && (x == t ==> !Done(c, t))
  {
  }
}
