/** Runs of the analytical server: any interleaving of order messages, update messages, attempts to apply,
    and query rounds, over any number of columns. */
module Runs {
  import opened Graphs
  import opened Columns

  datatype Ev<U> =
    | EvOrder(t: Tid, est: nat, ps: seq<Tid>)
    | EvBuffer(t: Tid, u: U)
    | EvApply(ext: seq<Tid>)
    | EvScan
    | EvErase(t: Tid)

  /** Transactions do not name themselves as parents; an attempt to apply ingests a safe sequence. */
  ghost predicate Enabled<U>(c: Col<U>, ev: Ev<U>) {
    match ev
    case EvOrder(t, _, ps) => t !in ps
    case EvApply(ext) => Safe(c, ext)
    case _ => true
  }

  ghost function Do<U>(c: Col<U>, ev: Ev<U>): Col<U>
    requires Enabled(c, ev)
  {
    match ev
    case EvOrder(t, est, ps) => OrderMsg(c, t, est, ps)
    case EvBuffer(t, u) => BufferMsg(c, t, u)
    case EvApply(ext) => IngestAll(c, ext)
    case EvScan => Scan(c)
    case EvErase(t) => Erase(c, t)
  }

  lemma DoInv<U>(c: Col<U>, ev: Ev<U>)
    requires Inv(c) && Enabled(c, ev)
    ensures Inv(Do(c, ev))
  {
    match ev
    case EvOrder(t, est, ps) => OrderMsgInv(c, t, est, ps);
    case EvBuffer(t, u) => BufferMsgInv(c, t, u);
    case EvApply(ext) => IngestInv(c, ext);
    case EvScan => ScanInv(c);
    case EvErase(t) => EraseInv(c, t);
  }

  ghost predicate EnabledAll<U>(c: Col<U>, evs: seq<Ev<U>>)
    decreases |evs|
  {
    evs == [] || (Enabled(c, evs[0]) && EnabledAll(Do(c, evs[0]), evs[1..]))
  }

  ghost function DoAll<U>(c: Col<U>, evs: seq<Ev<U>>): Col<U>
    requires EnabledAll(c, evs)
    decreases |evs|
  {
    if evs == [] then c else DoAll(Do(c, evs[0]), evs[1..])
  }

  ghost function Init<U>(): Col<U> {
    Col(map[], map[], map[], map[], [], {})
  }

  lemma InitInv<U>()
    ensures Inv(Init<U>())
  {
    var c := Init<U>();
    forall v ensures !Ancestor(c.g, v, v) {
      if Ancestor(c.g, v, v) {
        AncestorIsVertex(c.g, v, v);
      }
    }
  }

  /** In every reachable state of a column the graph is acyclic and symmetric, and a waitlist flag is 1
      exactly when its transaction is done. */
  lemma {:induction false} RunInv<U>(c: Col<U>, evs: seq<Ev<U>>)
    requires Inv(c) && EnabledAll(c, evs)
    ensures Inv(DoAll(c, evs))
    decreases |evs|
  {
    if evs != [] {
      DoInv(c, evs[0]);
      RunInv(Do(c, evs[0]), evs[1..]);
    }
  }

  lemma {:induction false} DoAllAppend<U>(c: Col<U>, evs: seq<Ev<U>>, ev: Ev<U>)
    requires EnabledAll(c, evs) && Enabled(DoAll(c, evs), ev)
    ensures EnabledAll(c, evs + [ev]) && DoAll(c, evs + [ev]) == Do(DoAll(c, evs), ev)
    decreases |evs|
  {
    if evs == [] {
      assert evs + [ev] == [ev];
    } else {
      assert (evs + [ev])[1..] == evs[1..] + [ev];
      DoAllAppend(Do(c, evs[0]), evs[1..], ev);
    }
  }

  // -------------------- topological order --------------------

  /** Each transaction is ordered once, after its parents have been ordered. */
  ghost predicate Orderly<U>(c: Col<U>, ev: Ev<U>) {
    ev.EvOrder? ==> ev.t !in c.g && forall p :: p in ev.ps ==> p in c.g
  }

  ghost predicate OrderlyAll<U>(c: Col<U>, evs: seq<Ev<U>>)
    requires EnabledAll(c, evs)
    decreases |evs|
  {
    evs == [] || (Orderly(c, evs[0]) && OrderlyAll(Do(c, evs[0]), evs[1..]))
  }

  /** `p` occurs in the log before the first occurrence of `t`. */
  ghost predicate Before<U>(log: seq<(Tid, U)>, p: Tid, t: Tid) {
    exists i :: 0 <= i < |log| && log[i].0 == p && forall j :: 0 <= j <= i ==> log[j].0 != t
  }

  ghost predicate Topological<U>(c: Col<U>) {
    && c.foreign == {}
    && (forall x :: Logged(c, x) ==> x in c.g)
    && (forall p, t :: p in Parents(c.g, t) && Logged(c, t) ==> Before(c.log, p, t))
  }

  lemma BeforeGrows<U>(log: seq<(Tid, U)>, more: seq<(Tid, U)>, p: Tid, t: Tid)
    requires Before(log, p, t)
    ensures Before(log + more, p, t)
  {
    var i :| 0 <= i < |log| && log[i].0 == p && forall j :: 0 <= j <= i ==> log[j].0 != t;
    assert forall j :: 0 <= j <= i ==> (log + more)[j] == log[j];
    assert (log + more)[i].0 == p;
  }

  lemma IngestOneTopological<U>(c: Col<U>, t: Tid)
    requires Inv(c) && Topological(c) && CanIngest(c, t)
    ensures Topological(IngestOne(c, t))
  {
    var d := IngestOne(c, t);
    var more := Tagged(t, c.updates[t]);
    forall x | Logged(d, x) ensures x == t || Logged(c, x) {
      var i :| 0 <= i < |d.log| && d.log[i].0 == x;
      if i < |c.log| {
        assert c.log[i].0 == x;
      }
    }
    forall p, x | p in Parents(d.g, x) && Logged(d, x) ensures Before(d.log, p, x) {
      if Logged(c, x) {
        BeforeGrows(c.log, more, p, x);
      } else {
        BeforeGrows(c.log, more, p, t);
      }
    }
  }

  lemma {:induction false} IngestTopological<U>(c: Col<U>, ext: seq<Tid>)
    requires Inv(c) && Topological(c) && Safe(c, ext)
    ensures Topological(IngestAll(c, ext))
    decreases |ext|
  {
    if ext != [] {
      IngestOneInv(c, ext[0]);
      IngestOneTopological(c, ext[0]);
      IngestTopological(IngestOne(c, ext[0]), ext[1..]);
    }
  }

  // -------------------- orders --------------------

  /** The parents of a transaction that is ordered for the first time are those it declares, known or not. */
  lemma NewParents<U>(c: Col<U>, t: Tid, est: nat, ps: seq<Tid>)
    requires Inv(c) && t !in c.g && t !in ps
    ensures Parents(OrderMsg(c, t, est, ps).g, t) == (set p | p in ps)
    ensures forall x :: x != t ==> Parents(OrderMsg(c, t, est, ps).g, x) == Parents(c.g, x)
  {
    forall p ensures !Ancestor(c.g, t, p) {
      if Ancestor(c.g, t, p) {
        AncestorIsVertex(c.g, t, p);
      }
    }
    OrderMsgParents(c, t, est, ps);
  }

  /** A transaction that is ordered once, after its parents, gets exactly the declared parents: the cycle
      guard never drops an edge. */
  lemma OrderMsgOrderly<U>(c: Col<U>, t: Tid, est: nat, ps: seq<Tid>)
    requires Inv(c) && t !in c.g && t !in ps && forall p :: p in ps ==> p in c.g
    ensures var d := OrderMsg(c, t, est, ps);
            && Parents(d.g, t) == (set p | p in ps)
            && (forall x :: x != t ==> Parents(d.g, x) == Parents(c.g, x))
            && d.g.Keys == c.g.Keys + {t} && d.log == c.log && d.foreign == c.foreign
  {
    NewParents(c, t, est, ps);
    OrderMsgParents(c, t, est, ps);
    OrderMsgStatus(c, t, est, ps);
  }

  lemma OrderTopological<U>(c: Col<U>, t: Tid, est: nat, ps: seq<Tid>)
    requires Inv(c) && Topological(c) && t !in ps && t !in c.g && forall p :: p in ps ==> p in c.g
    ensures Topological(OrderMsg(c, t, est, ps))
  {
    var d := OrderMsg(c, t, est, ps);
    OrderMsgOrderly(c, t, est, ps);
    assert forall x :: Logged(d, x) <==> Logged(c, x);
  }

  lemma DoTopological<U>(c: Col<U>, ev: Ev<U>)
    requires Inv(c) && Enabled(c, ev) && Orderly(c, ev) && Topological(c)
    ensures Topological(Do(c, ev))
    ensures forall x :: x in c.g ==> x in Do(c, ev).g && Parents(Do(c, ev).g, x) == Parents(c.g, x)
  {
    var d := Do(c, ev);
    match ev
    case EvOrder(t, est, ps) =>
      OrderTopological(c, t, est, ps);
      OrderMsgOrderly(c, t, est, ps);
    case EvApply(ext) =>
      IngestTopological(c, ext);
      IngestEffect(c, ext);
    case _ =>
      assert d.log == c.log && d.g == c.g && d.foreign == c.foreign;
      assert forall x :: Logged(d, x) <==> Logged(c, x);
  }

  /** Over a whole orderly run the log is in topological order, and the graph holds exactly the dependencies
      that were declared. */
  lemma {:induction false} RunTopological<U>(c: Col<U>, evs: seq<Ev<U>>)
    requires Inv(c) && Topological(c) && EnabledAll(c, evs) && OrderlyAll(c, evs)
    ensures Topological(DoAll(c, evs))
    ensures forall x :: x in c.g ==> x in DoAll(c, evs).g && Parents(DoAll(c, evs).g, x) == Parents(c.g, x)
    ensures forall i :: 0 <= i < |evs| && evs[i].EvOrder? ==>
              Parents(DoAll(c, evs).g, evs[i].t) == (set p | p in evs[i].ps)
    decreases |evs|
  {
    if evs != [] {
      var d := Do(c, evs[0]);
      DoInv(c, evs[0]);
      DoTopological(c, evs[0]);
      RunTopological(d, evs[1..]);
      if evs[0].EvOrder? {
        OrderMsgOrderly(c, evs[0].t, evs[0].est, evs[0].ps);
      }
      assert forall i :: 1 <= i < |evs| ==> evs[i] == evs[1..][i - 1];
    }
  }

  /** So, from the initial state: a transaction is first ingested after each of its declared parents. */
  lemma DeclaredBefore<U>(evs: seq<Ev<U>>, i: nat, p: Tid)
    requires EnabledAll(Init(), evs) && OrderlyAll(Init(), evs)
    requires i < |evs| && evs[i].EvOrder? && p in evs[i].ps && Logged(DoAll(Init(), evs), evs[i].t)
    ensures Before(DoAll(Init(), evs).log, p, evs[i].t)
  {
    InitInv<U>();
    RunTopological(Init(), evs);
  }

  // -------------------- query freshness --------------------

  /** Something was ingested for `t` at position `n` of the log or later. */
  ghost predicate LoggedSince<U>(c: Col<U>, n: nat, t: Tid) {
    exists i :: n <= i < |c.log| && c.log[i].0 == t
  }

  /** Of the transactions in `undone`, which were not done when the log had length `n`, each has been ingested
      since or is still on the waitlist. */
  ghost predicate Awaited<U>(c: Col<U>, n: nat, undone: set<Tid>) {
    && n <= |c.log|
    && forall t :: t in undone ==> LoggedSince(c, n, t) || (t in c.waiting && t in c.order && !Done(c, t))
  }

  lemma SinceGrows<U>(c: Col<U>, d: Col<U>, n: nat, t: Tid)
    requires c.log <= d.log && LoggedSince(c, n, t)
    ensures LoggedSince(d, n, t)
  {
  }

  lemma IngestOneAwaited<U>(c: Col<U>, n: nat, undone: set<Tid>, t: Tid)
    requires Inv(c) && Awaited(c, n, undone) && CanIngest(c, t)
    ensures Awaited(IngestOne(c, t), n, undone)
  {
    var d := IngestOne(c, t);
    assert d.log[|c.log|].0 == t;
    forall x | x in undone && LoggedSince(c, n, x) ensures LoggedSince(d, n, x) {
      SinceGrows(c, d, n, x);
    }
  }

  lemma {:induction false} IngestAwaited<U>(c: Col<U>, n: nat, undone: set<Tid>, ext: seq<Tid>)
    requires Inv(c) && Awaited(c, n, undone) && Safe(c, ext)
    ensures Awaited(IngestAll(c, ext), n, undone)
    decreases |ext|
  {
    if ext != [] {
      IngestOneInv(c, ext[0]);
      IngestOneAwaited(c, n, undone, ext[0]);
      IngestAwaited(IngestOne(c, ext[0]), n, undone, ext[1..]);
    }
  }

  lemma SameAwaited<U>(c: Col<U>, d: Col<U>, n: nat, undone: set<Tid>)
    requires Awaited(c, n, undone) && d.log == c.log
    requires forall t :: t in c.waiting && !Done(c, t) && t in c.order ==> t in d.waiting && !Done(d, t) && t in d.order
    ensures Awaited(d, n, undone)
  {
  }

  lemma DoAwaited<U>(c: Col<U>, n: nat, undone: set<Tid>, ev: Ev<U>)
    requires Inv(c) && Awaited(c, n, undone) && Enabled(c, ev)
    ensures Awaited(Do(c, ev), n, undone)
  {
    match ev
    case EvOrder(t, est, ps) =>
      OrderMsgStatus(c, t, est, ps);
      SameAwaited(c, Do(c, ev), n, undone);
    case EvApply(ext) => IngestAwaited(c, n, undone, ext);
    case _ => SameAwaited(c, Do(c, ev), n, undone);
  }

  // -------------------- the server --------------------

  /** A column is a shard number and a column name. A column that was never mentioned is empty. */
  type Key = (nat, string)

  ghost function At<U>(s: map<Key, Col<U>>, k: Key): Col<U> {
    if k in s then s[k] else Init()
  }

  datatype Step<U> = Step(k: Key, ev: Ev<U>)

  ghost predicate CanRun<U>(s: map<Key, Col<U>>, run: seq<Step<U>>)
    decreases |run|
  {
    run == [] || (Enabled(At(s, run[0].k), run[0].ev) && CanRun(Serve(s, run[0]), run[1..]))
  }

  ghost function Serve<U>(s: map<Key, Col<U>>, a: Step<U>): map<Key, Col<U>>
    requires Enabled(At(s, a.k), a.ev)
  {
    s[a.k := Do(At(s, a.k), a.ev)]
  }

  ghost function ServeAll<U>(s: map<Key, Col<U>>, run: seq<Step<U>>): map<Key, Col<U>>
    requires CanRun(s, run)
    decreases |run|
  {
    if run == [] then s else ServeAll(Serve(s, run[0]), run[1..])
  }

  ghost predicate ServerInv<U>(s: map<Key, Col<U>>) {
    forall k :: Inv(At(s, k))
  }

  ghost predicate WaitlistEmpty<U>(s: map<Key, Col<U>>) {
    forall k :: At(s, k).waiting == map[]
  }

  lemma ServeInv<U>(s: map<Key, Col<U>>, a: Step<U>)
    requires ServerInv(s) && Enabled(At(s, a.k), a.ev)
    ensures ServerInv(Serve(s, a))
  {
    DoInv(At(s, a.k), a.ev);
    forall k ensures Inv(At(Serve(s, a), k)) {
      assert k != a.k ==> At(Serve(s, a), k) == At(s, k);
    }
  }

  lemma {:induction false} ServerRunInv<U>(s: map<Key, Col<U>>, run: seq<Step<U>>)
    requires ServerInv(s) && CanRun(s, run)
    ensures ServerInv(ServeAll(s, run))
    decreases |run|
  {
    if run != [] {
      ServeInv(s, run[0]);
      ServerRunInv(Serve(s, run[0]), run[1..]);
    }
  }

  lemma {:induction false} RunAwaited<U>(s: map<Key, Col<U>>, run: seq<Step<U>>, k: Key, n: nat, undone: set<Tid>)
    requires ServerInv(s) && CanRun(s, run) && Awaited(At(s, k), n, undone)
    ensures Awaited(At(ServeAll(s, run), k), n, undone)
    decreases |run|
  {
    if run != [] {
      ServeInv(s, run[0]);
      if run[0].k == k {
        DoAwaited(At(s, k), n, undone, run[0].ev);
      }
      RunAwaited(Serve(s, run[0]), run[1..], k, n, undone);
    }
  }

  lemma ScanFresh<U>(s: map<Key, Col<U>>, k: Key, after: seq<Step<U>>, t: Tid)
    requires ServerInv(s) && CanRun(Serve(s, Step(k, EvScan)), after) && t in At(s, k).order && !Done(At(s, k), t)
    requires WaitlistEmpty(ServeAll(Serve(s, Step(k, EvScan)), after))
    ensures LoggedSince(At(ServeAll(Serve(s, Step(k, EvScan)), after), k), |At(s, k).log|, t)
  {
    ScanInv(At(s, k));
    ServeInv(s, Step(k, EvScan));
    RunAwaited(Serve(s, Step(k, EvScan)), after, k, |At(s, k).log|, {t});
  }

  /** Query freshness. A round scans column `k` at some point `s` of a run; whatever follows, on this column and
      on the others, when the waitlist is seen empty in `e` every transaction that was not done at the scan has
      been ingested since the scan. */
  lemma QueryFresh<U>(before: seq<Step<U>>, s: map<Key, Col<U>>, k: Key, after: seq<Step<U>>, e: map<Key, Col<U>>,
                      t: Tid)
    requires CanRun(map[], before) && s == ServeAll(map[], before)
    requires CanRun(Serve(s, Step(k, EvScan)), after) && e == ServeAll(Serve(s, Step(k, EvScan)), after)
    requires WaitlistEmpty(e) && t in At(s, k).order && !Done(At(s, k), t)
    ensures LoggedSince(At(e, k), |At(s, k).log|, t)
  {
    InitInv<U>();
    ServerRunInv(map[], before);
    ScanFresh(s, k, after, t);
  }
}
