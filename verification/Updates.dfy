/** Which update of a transaction is ingested, over whole runs of a column. */
module Updates {
  import opened Graphs
  import opened Columns
  import opened Runs

  predicate Arrives<U>(ev: Ev<U>, t: Tid) {
    ev.EvBuffer? && ev.t == t
  }

  predicate Ingests<U>(ev: Ev<U>, t: Tid) {
    ev.EvApply? && t in ev.ext
  }

  /** `t` has not been ingested since event `i`. */
  ghost predicate Open<U>(evs: seq<Ev<U>>, t: Tid, i: int) {
    forall m :: 0 <= m < |evs| && i < m ==> !Ingests(evs[m], t)
  }

  /** Event `i` is the first update for `t` that has arrived since `t` was last ingested, or since the start: `t` has
      not been ingested after it, and was ingested between any earlier arrival and this one. */
  ghost predicate First<U>(evs: seq<Ev<U>>, t: Tid, i: int) {
    && 0 <= i < |evs| && Arrives(evs[i], t) && Open(evs, t, i)
    && forall j :: 0 <= j < i && Arrives(evs[j], t) ==> !Open(evs[..i], t, j)
  }

  ghost predicate Due<U>(evs: seq<Ev<U>>, t: Tid, u: U) {
    exists i :: First(evs, t, i) && evs[i].u == u
  }

  /** If something has arrived since the last ingestion, something has arrived first. */
  lemma {:induction false} FirstExists<U>(evs: seq<Ev<U>>, t: Tid, j: nat) returns (i: nat)
    requires j < |evs| && Arrives(evs[j], t) && Open(evs, t, j)
    ensures First(evs, t, i)
  {
    if n: nat :| n < j && Arrives(evs[n], t) && Open(evs[..j], t, n) {
      forall m | n < m < |evs| ensures !Ingests(evs[m], t) {
        assert m < j ==> evs[..j][m] == evs[m];
      }
      i := FirstExists(evs, t, n);
    } else {
      i := j;
    }
  }

  /** How one more event changes which update is the first. */
  lemma FirstStep<U>(evs: seq<Ev<U>>, ev: Ev<U>, t: Tid, i: nat)
    requires i < |evs|
    ensures First(evs + [ev], t, i) <==> First(evs, t, i) && !Ingests(ev, t)
  {
    var all := evs + [ev];
    assert all[..i] == evs[..i];
    assert forall m :: 0 <= m < |evs| ==> all[m] == evs[m];
    if First(all, t, i) {
      assert all[|evs|] == ev;
    }
  }

  lemma FirstNew<U>(evs: seq<Ev<U>>, ev: Ev<U>, t: Tid)
    ensures First(evs + [ev], t, |evs|) <==> Arrives(ev, t) && forall i :: !First(evs, t, i)
  {
    var all := evs + [ev];
    assert all[..|evs|] == evs && all[|evs|] == ev;
    if j: nat :| j < |evs| && Arrives(evs[j], t) && Open(evs, t, j) {
      var i := FirstExists(evs, t, j);
      assert Arrives(all[j], t);
    } else {
      forall j | 0 <= j < |evs| && Arrives(all[j], t) ensures !Open(evs, t, j) {
        assert all[j] == evs[j];
      }
    }
  }

  /** The buffer holds the update that arrived first, for every transaction. */
  ghost predicate Buffers<U>(evs: seq<Ev<U>>, c: Col<U>) {
    && (forall t :: t in c.updates ==> exists i :: First(evs, t, i))
    && (forall t, i :: First(evs, t, i) ==> t in c.updates && c.updates[t] == [evs[i].u])
  }

  lemma {:induction false} LastEvent<U>(c: Col<U>, evs: seq<Ev<U>>)
    requires EnabledAll(c, evs) && evs != []
    ensures var n := |evs| - 1;
            && EnabledAll(c, evs[..n]) && Enabled(DoAll(c, evs[..n]), evs[n])
            && DoAll(c, evs) == Do(DoAll(c, evs[..n]), evs[n])
    decreases |evs|
  {
    var n := |evs| - 1;
    if n > 0 {
      assert evs[1..][..n - 1] == evs[..n][1..];
      LastEvent(Do(c, evs[0]), evs[1..]);
    } else {
      assert evs[..n] == [] && evs[1..] == [];
    }
  }

  lemma FirstAfter<U>(evs: seq<Ev<U>>, ev: Ev<U>, c: Col<U>, d: Col<U>, t: Tid)
    requires Buffers(evs, c)
    requires Ingests(ev, t) ==> t !in d.updates
    requires Arrives(ev, t) && t !in c.updates ==> t in d.updates && d.updates[t] == [ev.u]
    requires !Ingests(ev, t) && t in c.updates ==> t in d.updates && d.updates[t] == c.updates[t]
    requires !Arrives(ev, t) && t !in c.updates ==> t !in d.updates
    ensures t in d.updates ==> exists i :: First(evs + [ev], t, i)
    ensures forall i :: First(evs + [ev], t, i) ==> t in d.updates && d.updates[t] == [(evs + [ev])[i].u]
  {
    var all := evs + [ev];
    FirstNew(evs, ev, t);
    forall i | First(all, t, i) ensures t in d.updates && d.updates[t] == [all[i].u] {
      if i < |evs| {
        FirstStep(evs, ev, t, i);
      }
    }
    if t in d.updates && t in c.updates {
      var i :| First(evs, t, i);
      FirstStep(evs, ev, t, i);
    }
  }

  lemma DoBuffers<U>(evs: seq<Ev<U>>, c: Col<U>, ev: Ev<U>)
    requires Buffers(evs, c) && Enabled(c, ev)
    ensures Buffers(evs + [ev], Do(c, ev))
  {
    var d := Do(c, ev);
    if ev.EvOrder? {
      OrderMsgStatus(c, ev.t, ev.est, ev.ps);
    } else if ev.EvApply? {
      IngestEffect(c, ev.ext);
    }
    forall t ensures t in d.updates ==> exists i :: First(evs + [ev], t, i) {
      FirstAfter(evs, ev, c, d, t);
    }
    forall t, i | First(evs + [ev], t, i) ensures t in d.updates && d.updates[t] == [(evs + [ev])[i].u] {
      FirstAfter(evs, ev, c, d, t);
    }
  }

  /** At every moment of every run: an update is buffered for a transaction if and only if one has arrived since the
      transaction was last ingested, or since the start, and it is the one that arrived first. */
  lemma {:induction false} RunBuffers<U>(evs: seq<Ev<U>>, c: Col<U>)
    requires EnabledAll(Init(), evs) && c == DoAll(Init(), evs)
    ensures Buffers(evs, c)
    decreases |evs|
  {
    if evs != [] {
      var n := |evs| - 1;
      LastEvent(Init(), evs);
      var b := DoAll(Init(), evs[..n]);
      RunBuffers(evs[..n], b);
      DoBuffers(evs[..n], b, evs[n]);
      assert evs == evs[..n] + [evs[n]];
    }
  }

  /** Event `m` of the run ingests `u` for `t`. */
  ghost predicate Payload<U>(evs: seq<Ev<U>>, m: int, t: Tid, u: U) {
    0 <= m < |evs| && Ingests(evs[m], t) && Due(evs[..m], t, u)
  }

  ghost predicate Explained<U>(evs: seq<Ev<U>>, x: (Tid, U)) {
    exists m :: Payload(evs, m, x.0, x.1)
  }

  lemma ExplainedStays<U>(evs: seq<Ev<U>>, ev: Ev<U>, x: (Tid, U))
    requires Explained(evs, x)
    ensures Explained(evs + [ev], x)
  {
    var m :| Payload(evs, m, x.0, x.1);
    assert (evs + [ev])[..m] == evs[..m];
    assert Payload(evs + [ev], m, x.0, x.1);
  }

  lemma NewlyExplained<U>(evs: seq<Ev<U>>, ext: seq<Tid>, t: Tid, u: U)
    requires t in ext && Due(evs, t, u)
    ensures Explained(evs + [EvApply(ext)], (t, u))
  {
    var all := evs + [EvApply(ext)];
    assert all[..|evs|] == evs && all[|evs|] == EvApply(ext);
    assert Payload(all, |evs|, t, u);
  }

  /** The log `a` has been extended by the updates that were due, in the order of `ext`. */
  ghost predicate Extended<U>(evs: seq<Ev<U>>, ext: seq<Tid>, a: seq<(Tid, U)>, log: seq<(Tid, U)>) {
    && |log| == |a| + |ext| && a <= log
    && forall k :: 0 <= k < |ext| ==> log[|a| + k].0 == ext[k] && Due(evs, ext[k], log[|a| + k].1)
  }

  /** What one attempt to apply adds to the log. */
  lemma AppliedPayload<U>(evs: seq<Ev<U>>, c: Col<U>, ext: seq<Tid>)
    requires Inv(c) && Buffers(evs, c) && Safe(c, ext)
    ensures Extended(evs, ext, c.log, IngestAll(c, ext).log)
  {
    forall t | t in c.updates ensures Due(evs, t, c.updates[t][0]) {
      var i :| First(evs, t, i);
    }
    IngestLog(c, ext);
  }

  ghost predicate AllExplained<U>(evs: seq<Ev<U>>, log: seq<(Tid, U)>) {
    forall n :: 0 <= n < |log| ==> Explained(evs, log[n])
  }

  lemma AllStays<U>(evs: seq<Ev<U>>, ev: Ev<U>, log: seq<(Tid, U)>)
    requires AllExplained(evs, log)
    ensures AllExplained(evs + [ev], log)
  {
    forall n | 0 <= n < |log| ensures Explained(evs + [ev], log[n]) {
      ExplainedStays(evs, ev, log[n]);
    }
  }

  lemma LogExplained<U>(evs: seq<Ev<U>>, ext: seq<Tid>, a: seq<(Tid, U)>, log: seq<(Tid, U)>)
    requires AllExplained(evs, a) && Extended(evs, ext, a, log)
    ensures AllExplained(evs + [EvApply(ext)], log)
  {
    var all, m := evs + [EvApply(ext)], |a|;
    AllStays(evs, EvApply(ext), a);
    forall n | 0 <= n < |log| ensures Explained(all, log[n]) {
      if n < m {
        assert log[n] == a[n];
      } else {
        assert log[m + (n - m)] == log[n];
        NewlyExplained(evs, ext, ext[n - m], log[n].1);
      }
    }
  }

  lemma DoExplained<U>(evs: seq<Ev<U>>, c: Col<U>, ev: Ev<U>)
    requires Inv(c) && Buffers(evs, c) && Enabled(c, ev) && AllExplained(evs, c.log)
    ensures AllExplained(evs + [ev], Do(c, ev).log)
  {
    if ev.EvApply? {
      AppliedPayload(evs, c, ev.ext);
      LogExplained(evs, ev.ext, c.log, IngestAll(c, ev.ext).log);
    } else {
      if ev.EvOrder? {
        OrderMsgStatus(c, ev.t, ev.est, ev.ps);
      }
      AllStays(evs, ev, c.log);
    }
  }

  /** Over every run: whatever is in the log was put there when its transaction was ingested, and is the first update
      for it that had arrived since it was last ingested before, or since the start. */
  lemma {:induction false} RunLog<U>(evs: seq<Ev<U>>, c: Col<U>)
    requires EnabledAll(Init(), evs) && c == DoAll(Init(), evs)
    ensures AllExplained(evs, c.log)
    decreases |evs|
  {
    if evs != [] {
      var n := |evs| - 1;
      LastEvent(Init(), evs);
      var b := DoAll(Init(), evs[..n]);
      InitInv<U>();
      RunInv(Init(), evs[..n]);
      RunBuffers(evs[..n], b);
      RunLog(evs[..n], b);
      DoExplained(evs[..n], b, evs[n]);
      assert evs == evs[..n] + [evs[n]];
    }
  }
}
