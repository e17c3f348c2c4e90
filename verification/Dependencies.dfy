/** Which declared dependencies the log respects. A parent that was never ordered counts as done, so the order of the
    log follows a dependency only under a condition on the moment the dependency is declared. */
module Dependencies {
  import opened Graphs
  import opened Columns
  import opened Runs
  import opened ApServer

  // -------------------- what every run keeps --------------------

  /** Whatever is in the log is in the graph, and a vertex first mentioned as a parent counts as done. */
  ghost predicate Traced<U>(c: Col<U>) {
    (forall x :: Logged(c, x) ==> x in c.g) && (forall x :: x in c.foreign ==> Done(c, x))
  }

  lemma IngestOneLogged<U>(c: Col<U>, t: Tid, x: Tid)
    requires Inv(c) && CanIngest(c, t)
    ensures Logged(IngestOne(c, t), x) <==> Logged(c, x) || x == t
  {
    var d := IngestOne(c, t);
    assert d.log[|c.log|].0 == t;
    if Logged(c, x) {
      LogGrows(c, d, Tagged(t, c.updates[t]), x);
    }
    if i :| 0 <= i < |d.log| && d.log[i].0 == x && i < |c.log| {
      assert c.log[i].0 == x;
    }
  }

  lemma {:induction false} IngestLogged<U>(c: Col<U>, ext: seq<Tid>, x: Tid)
    requires Inv(c) && Safe(c, ext)
    ensures Logged(IngestAll(c, ext), x) <==> Logged(c, x) || x in ext
    decreases |ext|
  {
    if ext != [] {
      IngestOneInv(c, ext[0]);
      IngestOneLogged(c, ext[0], x);
      IngestLogged(IngestOne(c, ext[0]), ext[1..], x);
    }
  }

  lemma IngestTraced<U>(c: Col<U>, ext: seq<Tid>)
    requires Inv(c) && Traced(c) && Safe(c, ext)
    ensures Traced(IngestAll(c, ext))
  {
    IngestEffect(c, ext);
    forall x | Logged(IngestAll(c, ext), x) ensures x in c.g {
      IngestLogged(c, ext, x);
    }
  }

  lemma {:induction false} ParentsTraced<U>(c: Col<U>, t: Tid, ps: seq<Tid>)
    requires Traced(c)
    ensures Traced(AddParents(c, t, ps))
    decreases |ps|
  {
    if ps != [] {
      var d := AddParent(c, t, ps[0]);
      assert d.log == c.log;
      assert forall x :: Logged(d, x) <==> Logged(c, x);
      ParentsTraced(d, t, ps[1..]);
    }
  }

  lemma DoTraced<U>(c: Col<U>, ev: Ev<U>)
    requires Inv(c) && Traced(c) && Enabled(c, ev)
    ensures Traced(Do(c, ev))
  {
    match ev
    case EvOrder(t, est, ps) =>
      var b := AddOrdered(c, t, est);
      assert forall x :: Logged(b, x) <==> Logged(c, x);
      ParentsTraced(b, t, ps);
    case EvApply(ext) => IngestTraced(c, ext);
    case _ =>
      var d := Do(c, ev);
      assert d.log == c.log && d.order == c.order;
      assert forall x :: Logged(d, x) <==> Logged(c, x);
  }

  lemma {:induction false} RunTraced<U>(c: Col<U>, evs: seq<Ev<U>>)
    requires Inv(c) && Traced(c) && EnabledAll(c, evs)
    ensures Traced(DoAll(c, evs))
    decreases |evs|
  {
    if evs != [] {
      DoInv(c, evs[0]);
      DoTraced(c, evs[0]);
      RunTraced(Do(c, evs[0]), evs[1..]);
    }
  }

  // -------------------- ingest-order safety over all runs --------------------

  lemma {:induction false} SafePrefix<U>(c: Col<U>, ext: seq<Tid>, i: nat)
    requires Safe(c, ext) && i < |ext|
    ensures Safe(c, ext[..i]) && CanIngest(IngestAll(c, ext[..i]), ext[i])
    decreases i
  {
    if i > 0 {
      SafePrefix(IngestOne(c, ext[0]), ext[1..], i - 1);
      assert ext[..i][1..] == ext[1..][..i - 1];
    }
  }

  /** In every run, at the moment a transaction is ingested each of its current parents has status 1, and is already in
      the log or was first mentioned as a parent. */
  lemma IngestOrder<U>(evs: seq<Ev<U>>, c: Col<U>, ext: seq<Tid>, i: nat, d: Col<U>, p: Tid)
    requires EnabledAll(Init(), evs) && c == DoAll(Init(), evs) && Safe(c, ext) && i < |ext|
    requires Safe(c, ext[..i]) && d == IngestAll(c, ext[..i]) && p in Parents(d.g, ext[i])
    ensures Done(d, p) && (Logged(d, p) || p in d.foreign)
  {
    InitInv<U>();
    RunInv(Init(), evs);
    SafePrefix(c, ext, i);
    IngestInv(c, ext[..i]);
  }

  // -------------------- a dependency that is respected --------------------

  /** The dependency of `t` on `p` is recorded and protected. */
  ghost predicate Guarded<U>(c: Col<U>, p: Tid, t: Tid) {
    && p in c.g && p in Parents(c.g, t) && (p !in c.foreign || Logged(c, p))
    && (Logged(c, t) ==> Before(c.log, p, t))
  }

  lemma IngestOneGuarded<U>(c: Col<U>, x: Tid, p: Tid, t: Tid)
    requires Inv(c) && CanIngest(c, x) && Guarded(c, p, t)
    ensures Guarded(IngestOne(c, x), p, t)
  {
    var d := IngestOne(c, x);
    var more := Tagged(x, c.updates[x]);
    IngestOneLogged(c, x, p);
    IngestOneLogged(c, x, t);
    if Logged(c, t) {
      BeforeGrows(c.log, more, p, t);
    } else if x == t {
      assert Done(c, p) && Logged(c, p);
      BeforeGrows(c.log, more, p, t);
    }
  }

  lemma {:induction false} IngestGuarded<U>(c: Col<U>, ext: seq<Tid>, p: Tid, t: Tid)
    requires Inv(c) && Safe(c, ext) && Guarded(c, p, t)
    ensures Guarded(IngestAll(c, ext), p, t)
    decreases |ext|
  {
    if ext != [] {
      IngestOneInv(c, ext[0]);
      IngestOneGuarded(c, ext[0], p, t);
      IngestGuarded(IngestOne(c, ext[0]), ext[1..], p, t);
    }
  }

  lemma SameGuarded<U>(c: Col<U>, d: Col<U>, p: Tid, t: Tid)
    requires Guarded(c, p, t) && d.log == c.log && p in d.g && p in Parents(d.g, t)
             && (p in d.foreign ==> p in c.foreign)
    ensures Guarded(d, p, t)
  {
    assert Logged(d, p) <==> Logged(c, p);
    assert Logged(d, t) <==> Logged(c, t);
  }

  lemma {:induction false} ParentsGuarded<U>(c: Col<U>, x: Tid, ps: seq<Tid>, p: Tid, t: Tid)
    requires Guarded(c, p, t) && p in c.order
    ensures Guarded(AddParents(c, x, ps), p, t)
    decreases |ps|
  {
    if ps != [] {
      var d := AddParent(c, x, ps[0]);
      WithVertexParents(c.g, ps[0]);
      WithEdgeParents(WithVertex(c.g, ps[0]), ps[0], x);
      SameGuarded(c, d, p, t);
      ParentsGuarded(d, x, ps[1..], p, t);
    }
  }

  lemma DoGuarded<U>(c: Col<U>, ev: Ev<U>, p: Tid, t: Tid)
    requires Inv(c) && Enabled(c, ev) && Guarded(c, p, t)
    ensures Guarded(Do(c, ev), p, t)
  {
    match ev
    case EvOrder(x, est, ps) =>
      WithVertexParents(c.g, x);
      SameGuarded(c, AddOrdered(c, x, est), p, t);
      ParentsGuarded(AddOrdered(c, x, est), x, ps, p, t);
    case EvApply(ext) => IngestGuarded(c, ext, p, t);
    case _ => SameGuarded(c, Do(c, ev), p, t);
  }

  lemma {:induction false} RunGuarded<U>(c: Col<U>, evs: seq<Ev<U>>, p: Tid, t: Tid)
    requires Inv(c) && EnabledAll(c, evs) && Guarded(c, p, t)
    ensures Guarded(DoAll(c, evs), p, t)
    decreases |evs|
  {
    if evs != [] {
      DoInv(c, evs[0]);
      DoGuarded(c, evs[0], p, t);
      RunGuarded(Do(c, evs[0]), evs[1..], p, t);
    }
  }

  // -------------------- the exact condition --------------------

  /** The condition on a parent at the moment a dependency on it is declared: it is known, and if it is known only as
      a parent it has been ingested nevertheless. */
  ghost predicate Respected<U>(c: Col<U>, p: Tid) {
    p in c.g && (p !in c.foreign || Logged(c, p))
  }

  /** The state after the first order of `t`, for a declared parent `p`. */
  lemma Declared<U>(c: Col<U>, t: Tid, est: nat, ps: seq<Tid>, p: Tid)
    requires Inv(c) && Traced(c) && t !in c.g && t !in ps && p in ps
    ensures var d := OrderMsg(c, t, est, ps);
            && Inv(d) && Traced(d) && d.log == c.log && t in d.g && !Done(d, t) && p in d.g && p in Parents(d.g, t)
            && (Respected(c, p) ==> Guarded(d, p, t)) && (!Respected(c, p) ==> Done(d, p) && !Logged(d, p))
  {
    var d := OrderMsg(c, t, est, ps);
    OrderMsgInv(c, t, est, ps);
    DoTraced(c, EvOrder(t, est, ps));
    NewParents(c, t, est, ps);
    OrderMsgStatus(c, t, est, ps);
    assert forall x :: Logged(d, x) <==> Logged(c, x);
    assert p in Parents(d.g, t);
  }

  /** A search for everything `t` still needs, as a sequence: what the recursive search of the server ingests. */
  lemma {:induction false} ApplyExists<U>(c: Col<U>, t: Tid) returns (ext: seq<Tid>)
    requires Inv(c) && t in c.g && Ready(c, t)
    ensures Safe(c, ext) && Applied(c, t, true, ext, IngestAll(c, ext))
    decreases |AncestorSet(c.g, t)|
  {
    var d, rest := c, Parents(c.g, t);
    ext := [];
    while rest != {}
      invariant rest <= Parents(c.g, t) && Checking(c, t, ext, d, rest) && d.g == c.g && Inv(d)
      decreases rest
    {
      var p :| p in rest;
      if !Done(d, p) {
        FewerAncestors(c.g, p, t);
        ParentReady(c, t, ext, p);
        var more := ApplyExists(d, p);
        IngestInv(d, more);
        IngestEffect(d, more);
        CheckedParent(c, t, ext, d, rest, p, true, more, IngestAll(d, more));
        ext, d := ext + more, IngestAll(d, more);
      }
      rest := rest - {p};
    }
    NeedsSelf(c, t);
    CheckedAll(c, t, ext, d);
    ext := ext + [t];
  }

  lemma ParentReady<U>(c: Col<U>, t: Tid, ext: seq<Tid>, p: Tid)
    requires Inv(c) && Ready(c, t) && Safe(c, ext) && p in Parents(c.g, t) && !Done(IngestAll(c, ext), p)
    ensures Ready(IngestAll(c, ext), p) && p in c.g
  {
    IngestEffect(c, ext);
    forall u | Needs(c, u, p) ensures u in c.updates {
      NeedsParent(c, u, p, t);
    }
    ReadyAfter(c, ext, p);
  }

  /** Buffering an update for every transaction of a set. */
  lemma {:induction false} BufferEach<U>(c: Col<U>, s: set<Tid>, u: U) returns (evs: seq<Ev<U>>)
    ensures EnabledAll(c, evs) && DoAll(c, evs) == c.(updates := DoAll(c, evs).updates)
            && s <= DoAll(c, evs).updates.Keys
    decreases |s|
  {
    if s == {} {
      evs := [];
    } else {
      var x :| x in s;
      var rest := BufferEach(c, s - {x}, u);
      DoAllAppend(c, rest, EvBuffer(x, u));
      evs := rest + [EvBuffer(x, u)];
    }
  }

  lemma AllReady<U>(d: Col<U>, t: Tid)
    requires Inv(d) && t in d.g && d.g.Keys <= d.updates.Keys
    ensures Ready(d, t)
  {
    forall x | Needs(d, x, t) ensures x in d.updates {
      if x != t {
        AncestorIsVertex(d.g, x, t);
      }
    }
  }

  /** A continuation that ingests `t` and leaves a parent that counts as done out of the log. */
  lemma Overtakes<U>(c: Col<U>, t: Tid, p: Tid, u: U) returns (evs: seq<Ev<U>>)
    requires Inv(c) && t in c.g && !Done(c, t) && Done(c, p) && !Logged(c, p)
    ensures EnabledAll(c, evs) && Logged(DoAll(c, evs), t) && !Before(DoAll(c, evs).log, p, t)
  {
    var bufs := BufferEach(c, c.g.Keys, u);
    var d := DoAll(c, bufs);
    RunInv(c, bufs);
    AllReady(d, t);
    var ext := ApplyExists(d, t);
    NeedsSelf(d, t);
    assert p in ext ==> Needs(d, p, t);
    IngestLogged(d, ext, t);
    IngestLogged(d, ext, p);
    assert Logged(d, p) <==> Logged(c, p);
    DoAllAppend(c, bufs, EvApply(ext));
    evs := bufs + [EvApply(ext)];
    assert !Logged(DoAll(c, evs), p);
  }

  /** `p` precedes `t` in the log of every continuation that ingests `t`. */
  ghost predicate Always<U(!new)>(c: Col<U>, p: Tid, t: Tid) {
    forall evs :: EnabledAll(c, evs) && Logged(DoAll(c, evs), t) ==> Before(DoAll(c, evs).log, p, t)
  }

  /** The exact condition: a dependency declared by the first order of `t` is respected by every continuation if and
      only if its parent is known at that moment, and known not only as a parent unless it is in the log. */
  lemma ExactDependency<U(!new)>(c: Col<U>, t: Tid, est: nat, ps: seq<Tid>, p: Tid, u: U)
    requires Inv(c) && Traced(c) && t !in c.g && t !in ps && p in ps
    ensures Always(OrderMsg(c, t, est, ps), p, t) <==> Respected(c, p)
  {
    var d := OrderMsg(c, t, est, ps);
    Declared(c, t, est, ps, p);
    if Respected(c, p) {
      forall evs | EnabledAll(d, evs) && Logged(DoAll(d, evs), t) ensures Before(DoAll(d, evs).log, p, t) {
        RunGuarded(d, evs, p, t);
      }
    } else {
      var evs := Overtakes(d, t, p, u);
    }
  }

  /** The condition applies to every moment of every run. */
  lemma RunExactDependency<U(!new)>(before: seq<Ev<U>>, c: Col<U>, t: Tid, est: nat, ps: seq<Tid>, p: Tid, u: U)
    requires EnabledAll(Init(), before) && c == DoAll(Init(), before) && t !in c.g && t !in ps && p in ps
    ensures Always(OrderMsg(c, t, est, ps), p, t) <==> Respected(c, p)
  {
    InitInv<U>();
    RunInv(Init(), before);
    RunTraced(Init(), before);
    ExactDependency(c, t, est, ps, p, u);
  }

  // -------------------- a failing run --------------------

  lemma LateParentStart<U>()
    ensures var c := OrderMsg(Init<U>(), 2, 0, [1]);
            && Inv(c) && c.log == [] && c.updates == map[] && Parents(c.g, 2) == {1} && Parents(c.g, 1) == {}
            && 1 in c.g && 2 in c.g && Done(c, 1) && !Done(c, 2)
  {
    InitInv<U>();
    Declared(Init<U>(), 2, 0, [1], 1);
    NewParents(Init<U>(), 2, 0, [1]);
    assert (set p | p in [1]) == {1};
    assert AddParents(AddParent(AddOrdered(Init<U>(), 2, 0), 2, 1), 2, [])
        == AddParent(AddOrdered(Init<U>(), 2, 0), 2, 1);
    assert [1][1..] == [];
  }

  /** An update arrives for `t`, whose parents are done, and is applied. */
  lemma ApplyNow<U>(c: Col<U>, t: Tid, u: U, evs: seq<Ev<U>>, d: Col<U>)
    requires t in c.g && t in c.order && t !in c.updates && (forall p :: p in Parents(c.g, t) ==> Done(c, p))
    requires d == IngestOne(BufferMsg(c, t, u), t) && EnabledAll(d, evs)
    ensures EnabledAll(c, [EvBuffer(t, u)] + ([EvApply([t])] + evs))
    ensures DoAll(c, [EvBuffer(t, u)] + ([EvApply([t])] + evs)) == DoAll(d, evs)
    ensures d.g == c.g && d.log == c.log + [(t, u)] && d.order == c.order[t := c.order[t].(status := 1)]
            && t !in d.updates
  {
    var b := BufferMsg(c, t, u);
    assert CanIngest(b, t);
    SafeOne(b, t);
    assert Tagged(t, [u]) == [(t, u)];
  }

  /** Then 1 is ordered, and its update arrives and is applied. */
  function LateTail<U>(u: U): seq<Ev<U>> {
    [EvOrder(1, 0, [])] + ([EvBuffer(1, u)] + ([EvApply([1])] + []))
  }

  lemma LateTailRuns<U>(d: Col<U>, u: U)
    requires 1 in d.g && 1 in d.order && 1 !in d.updates && Parents(d.g, 1) == {}
    ensures EnabledAll(d, LateTail(u)) && DoAll(d, LateTail(u)).log == d.log + [(1, u)]
  {
    assert OrderMsg(d, 1, 0, []) == d;
    ApplyNow(d, 1, u, [], IngestOne(BufferMsg(d, 1, u), 1));
  }

  /** The update of 2 arrives and is applied. */
  function LateBody<U>(u: U): seq<Ev<U>> {
    [EvBuffer(2, u)] + ([EvApply([2])] + LateTail(u))
  }

  lemma LateBodyRuns<U>(c: Col<U>, u: U)
    requires c.log == [] && c.updates == map[] && Parents(c.g, 2) == {1} && Parents(c.g, 1) == {}
    requires 1 in c.g && 2 in c.g && 1 in c.order && 2 in c.order && Done(c, 1)
    ensures EnabledAll(c, LateBody(u)) && DoAll(c, LateBody(u)).log == [(2, u), (1, u)]
  {
    var d := IngestOne(BufferMsg(c, 2, u), 2);
    LateTailRuns(d, u);
    ApplyNow(c, 2, u, LateTail(u), d);
  }

  lemma NotBefore<U>(u: U)
    ensures !Before([(2, u), (1, u)], 1, 2)
  {
    assert [(2, u), (1, u)][0].0 == 2;
  }

  /** 2 is ordered with parent 1 and applied before 1 itself is ordered. */
  function LateParent<U>(u: U): seq<Ev<U>> {
    [EvOrder(2, 0, [1])] + LateBody(u)
  }

  /** The run is possible and leaves 2 in the log before its declared parent 1. */
  lemma LateParentFails<U>(u: U)
    ensures EnabledAll(Init(), LateParent(u)) && DoAll(Init(), LateParent(u)).log == [(2, u), (1, u)]
    ensures !Before(DoAll(Init(), LateParent(u)).log, 1, 2)
  {
    LateParentStart<U>();
    LateBodyRuns(OrderMsg(Init<U>(), 2, 0, [1]), u);
    NotBefore(u);
  }
}
