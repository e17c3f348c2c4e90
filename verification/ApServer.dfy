/** One column of the analytical server as an object: the message handlers and the mutually recursive
    search that ingests a buffered update after everything it depends on. */
module ApServer {
  import opened Graphs
  import opened Columns
  import opened Runs

  /** The outcome of trying to apply `t`: the transactions of `ext` have been ingested, in a safe order. */
  ghost predicate Applied<U>(c: Col<U>, t: Tid, r: bool, ext: seq<Tid>, d: Col<U>) {
    && Safe(c, ext) && d == IngestAll(c, ext)
    && (forall x :: x in ext ==> Needs(c, x, t))
    && (r <==> t in c.g && Ready(c, t))
    && (r ==> forall u :: Needs(c, u, t) ==> u in ext)
    && (!r ==> t !in ext)
  }

  class Column<U> {
    const graph: Graph<Tid>
    var order: map<Tid, OdVertex>
    var updates: map<Tid, seq<U>>
    var waiting: map<Tid, int>
    var log: seq<(Tid, U)>
    ghost var foreign: set<Tid>

    ghost function C(): Col<U>
      reads this, graph
    {
      Col(graph.edges, order, updates, waiting, log, foreign)
    }

    constructor ()
      ensures Inv(C()) && C() == Col(map[], map[], map[], map[], [], {}) && fresh(graph)
    {
      graph := new Graph();
      order, updates, waiting, log, foreign := map[], map[], map[], [], {};
      new;
      assert forall p: seq<Tid> :: |p| >= 2 && Path(graph.edges, p) ==> p[0] in Parents(graph.edges, p[0 + 1]);
    }

    // -------------------- ingestion --------------------

    /** Hands the buffered updates of `t` to the delta store and marks it done. */
    method Ingest(t: Tid)
      requires t in order && t in updates
      modifies this
      ensures C() == IngestOne(old(C()), t)
    {
      var ups := updates[t];
      var i := 0;
      while i < |ups|
        invariant 0 <= i <= |ups| && log == old(log) + Tagged(t, ups[..i])
        invariant order == old(order) && updates == old(updates) && waiting == old(waiting) && foreign == old(foreign)
      {
        log := log + [(t, ups[i])];
        i := i + 1;
        assert Tagged(t, ups[..i]) == Tagged(t, ups[..i - 1]) + [(t, ups[i - 1])];
      }
      assert ups[..i] == ups;
      if t in waiting {
        waiting := waiting[t := 1];
      }
      order := order[t := order[t].(status := 1)];
      updates := updates - {t};
    }

    method ApplyUpdateByOrder(t: Tid) returns (r: bool, ghost ext: seq<Tid>)
      requires Inv(C())
      modifies this
      ensures Applied(old(C()), t, r, ext, C())
      decreases |AncestorSet(graph.edges, t)|, 1
    {
      NeedsSelf(C(), t);
      if t !in graph.edges || t !in updates {
        return false, [];
      }
      if order[t].upCnt != |updates[t]| {
        return false, [];
      }
      r, ext := TriggerCheckParent(t);
    }

    method TriggerCheckParent(t: Tid) returns (r: bool, ghost ext: seq<Tid>)
      requires Inv(C()) && t in graph.edges && t in updates
      modifies this
      ensures Applied(old(C()), t, r, ext, C())
      decreases |AncestorSet(graph.edges, t)|, 0
    {
      ghost var c := C();
      var rest := graph.edges[t].parents;
      ext := [];
      while rest != {}
        invariant rest <= Parents(c.g, t) && Checking(c, t, ext, C(), rest)
        invariant graph.edges == c.g && Inv(C())
        decreases rest
      {
        var p :| p in rest;
        if order[p].status == 0 {
          FewerAncestors(c.g, p, t);
          ghost var d := C();
          ghost var more;
          var ok;
          ok, more := ApplyUpdateByOrder(p);
          IngestInv(d, more);
          CheckedParent(c, t, ext, d, rest, p, ok, more, C());
          ext := ext + more;
          if !ok {
            return false, ext;
          }
        }
        rest := rest - {p};
      }
      CheckedAll(c, t, ext, C());
      Ingest(t);
      ext := ext + [t];
      r := true;
    }

    // -------------------- message handlers --------------------

    /** One order message for this column. */
    method AddOrder(t: Tid, est: nat, ps: seq<Tid>)
      requires WellFormed(graph.edges)
      modifies this, graph
      ensures C() == OrderMsg(old(C()), t, est, ps)
      ensures Parents(graph.edges, t)
           == old(Parents(graph.edges, t)) + (set p | p in ps && (p == t || !old(Ancestor(graph.edges, t, p))))
      ensures forall x :: x != t ==> Parents(graph.edges, x) == old(Parents(graph.edges, x))
    {
      OrderMsgParents(C(), t, est, ps);
      WithVertexWellFormed(graph.edges, t);
      graph.AddVertex(t);
      if t !in order {
        order := order[t := OdVertex(0, 1, est)];
      }
      ghost var c := C();
      var k := 0;
      while k < |ps|
        invariant 0 <= k <= |ps| && WellFormed(graph.edges)
        invariant AddParents(C(), t, ps[k..]) == AddParents(c, t, ps)
      {
        assert ps[k..][0] == ps[k] && ps[k..][1..] == ps[k + 1..];
        AddOneParent(t, ps[k]);
        k := k + 1;
      }
    }

    method AddOneParent(t: Tid, p: Tid)
      requires WellFormed(graph.edges)
      modifies this, graph
      ensures C() == AddParent(old(C()), t, p) && WellFormed(graph.edges)
    {
      WithVertexWellFormed(graph.edges, p);
      graph.AddVertex(p);
      if p !in order {
        order := order[p := OdVertex(1, 1, 0)];
        foreign := foreign + {p};
      }
      var known := graph.ParentExist(t, p);
      if !known {
        WithEdgeWellFormed(graph.edges, p, t);
        graph.AddEdge(p, t);
      }
    }

    /** One update message: updates (type 0) are buffered unless one is buffered already; inserts (type 1)
        and anything else are dropped. */
    method AddUpdate(t: Tid, u: U, opType: int) returns (buffered: bool)
      modifies this
      ensures C() == if opType == 0 then BufferMsg(old(C()), t, u) else old(C())
      ensures buffered <==> opType == 0 && t !in old(updates)
      ensures updates == if buffered then old(updates)[t := [u]] else old(updates)
    {
      buffered := opType == 0 && t !in updates;
      if buffered {
        updates := updates[t := [u]];
      }
    }

    // -------------------- query rounds --------------------

    /** Puts every vertex that is not done on the waitlist. */
    method ScanForQuery()
      modifies this
      ensures C() == Scan(old(C()))
    {
      var rest := graph.edges.Keys;
      ghost var w := waiting;
      while rest != {}
        invariant rest <= graph.edges.Keys && order == old(order) && updates == old(updates) && log == old(log)
            && foreign == old(foreign)
        invariant waiting == (map t | t in graph.edges && t !in rest && t in order && order[t].status == 0 :: 0) + w
      {
        var t :| t in rest;
        rest := rest - {t};
        if t in order && order[t].status == 0 && t !in waiting {
          waiting := waiting[t := 0];
        }
      }
    }

    /** One entry of the waitlist is tried, and removed once it is done. */
    method CleanOne(t: Tid) returns (ghost ext: seq<Tid>)
      requires Inv(C()) && t in waiting
      modifies this
      ensures Safe(old(C()), ext) && C() == Erase(IngestAll(old(C()), ext), t)
      ensures Cleaned(old(C()), t, C())
    {
      ghost var c := C();
      var ok;
      ok, ext := ApplyUpdateByOrder(t);
      CleanedOne(c, t, ok, ext, C());
      if waiting[t] != 0 {
        waiting := waiting - {t};
      }
    }

    /** One pass over the waitlist. What leaves the list is done, and every entry whose needs were all buffered
        when the pass began leaves it. */
    method CleanWaitlist() returns (ghost evs: seq<Ev<U>>)
      requires Inv(C())
      modifies this
      ensures EnabledAll(old(C()), evs) && C() == DoAll(old(C()), evs)
      ensures Passed(old(C()), {}, C())
    {
      ghost var c := C();
      var rest := waiting.Keys;
      evs := [];
      while rest != {}
        invariant Passed(c, rest, C())
        invariant EnabledAll(c, evs) && C() == DoAll(c, evs)
        decreases rest
      {
        var t :| t in rest;
        rest := rest - {t};
        ghost var d := C();
        ghost var ext := CleanOne(t);
        PassedOne(c, rest + {t}, d, t, C());
        CleanedEvents(c, evs, ext, t);
        evs := evs + [EvApply(ext)] + [EvErase(t)];
        assert rest + {t} - {t} == rest;
      }
    }
  }

  /** The effect of trying entry `t` of the waitlist. */
  ghost predicate Cleaned<U>(c: Col<U>, t: Tid, d: Col<U>) {
    && Inv(d) && d.waiting.Keys <= c.waiting.Keys && c.waiting.Keys - {t} <= d.waiting.Keys
    && (t !in d.waiting ==> Done(d, t)) && (Done(c, t) || Ready(c, t) ==> t !in d.waiting)
    && (forall x :: Done(c, x) ==> Done(d, x))
    && (forall x :: Ready(c, x) && !Done(d, x) ==> Ready(d, x))
  }

  /** The effect of a pass that began in `c` and still has the entries of `rest` to try. */
  ghost predicate Passed<U>(c: Col<U>, rest: set<Tid>, d: Col<U>) {
    && Inv(d) && rest <= d.waiting.Keys <= c.waiting.Keys
    && (forall x :: x in c.waiting && x !in d.waiting ==> Done(d, x))
    && (forall x :: x in c.waiting && Ready(c, x) && x !in rest ==> x !in d.waiting)
    && (forall x :: Ready(c, x) && !Done(d, x) ==> Ready(d, x))
  }

  lemma CleanedOne<U>(c: Col<U>, t: Tid, r: bool, ext: seq<Tid>, d: Col<U>)
    requires Inv(c) && t in c.waiting && Applied(c, t, r, ext, d)
    ensures t in d.waiting && Cleaned(c, t, Erase(d, t))
  {
    IngestInv(c, ext);
    IngestEffect(c, ext);
    EraseInv(d, t);
    NeedsSelf(c, t);
    forall x | Ready(c, x) && !Done(d, x) ensures Ready(Erase(d, t), x) {
      ReadyAfter(c, ext, x);
    }
  }

  lemma CleanedEvents<U>(c: Col<U>, evs: seq<Ev<U>>, ext: seq<Tid>, t: Tid)
    requires EnabledAll(c, evs) && Safe(DoAll(c, evs), ext)
    ensures var more := evs + [EvApply(ext)] + [EvErase(t)];
            EnabledAll(c, more) && DoAll(c, more) == Erase(IngestAll(DoAll(c, evs), ext), t)
  {
    DoAllAppend(c, evs, EvApply(ext));
    DoAllAppend(c, evs + [EvApply(ext)], EvErase(t));
  }

  lemma PassedOne<U>(c: Col<U>, rest: set<Tid>, d: Col<U>, t: Tid, e: Col<U>)
    requires Passed(c, rest, d) && t in rest && Cleaned(d, t, e)
    ensures Passed(c, rest - {t}, e)
  {
  }

  /** The state of the loop over the parents of `t`: those not in `rest` are done. */
  ghost predicate Checking<U>(c: Col<U>, t: Tid, ext: seq<Tid>, d: Col<U>, rest: set<Tid>) {
    && Safe(c, ext) && d == IngestAll(c, ext)
    && (forall x :: x in ext ==> x != t && Needs(c, x, t))
    && (forall p :: p in Parents(c.g, t) && p !in rest ==> Done(d, p))
  }

  /** Trying one parent `p`: if it fails `t` cannot be ready, otherwise the loop goes on. */
  lemma CheckedParent<U>(c: Col<U>, t: Tid, ext: seq<Tid>, d: Col<U>, rest: set<Tid>, p: Tid, ok: bool, more: seq<Tid>,
                         e: Col<U>)
    requires Inv(c) && Checking(c, t, ext, d, rest) && p in Parents(c.g, t) && p in rest && !Done(d, p)
    requires Applied(d, p, ok, more, e)
    ensures ok ==> Checking(c, t, ext + more, e, rest - {p})
    ensures !ok ==> Applied(c, t, false, ext + more, e)
  {
    IngestEffect(c, ext);
    SafeAppend(c, ext, more);
    IngestEffect(d, more);
    ReadyAfter(c, ext, p);
    forall x | x in more ensures x != t && Needs(c, x, t) {
      NeedsLess(c, ext, x, p);
      NeedsParent(c, x, p, t);
      NotSelf(c, x, p, t);
    }
    if !ok {
      var u :| Needs(c, u, p) && u !in c.updates;
      NeedsParent(c, u, p, t);
    } else {
      NeedsSelf(d, p);
    }
  }

  /** Nothing that a parent needs is the transaction itself. */
  lemma NotSelf<U>(c: Col<U>, x: Tid, p: Tid, t: Tid)
    requires Inv(c) && Needs(c, x, p) && p in Parents(c.g, t)
    ensures x != t
  {
    AncestorEdge(c.g, p, t);
    if x != p {
      AncestorTrans(c.g, x, p, t);
    }
  }

  /** All parents are done: `t` can be ingested, and that completes what it needed. */
  lemma CheckedAll<U>(c: Col<U>, t: Tid, ext: seq<Tid>, d: Col<U>)
    requires Inv(c) && t in c.g && t in c.updates && Checking(c, t, ext, d, {})
    ensures CanIngest(d, t) && Applied(c, t, true, ext + [t], IngestOne(d, t))
  {
    IngestEffect(c, ext);
    assert CanIngest(d, t);
    SafeOne(d, t);
    SafeAppend(c, ext, [t]);
    NeedsSelf(c, t);
    forall u | Needs(c, u, t) ensures u in ext + [t] && u in c.updates {
      if u != t {
        var p := NeedsSplit(c, u, t);
        assert p in ext;
        NeededIngested(c, ext, u, p);
      }
    }
  }
}
