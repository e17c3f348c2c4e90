/** The sweep over horizontal segments: the events are the end points from left to right, and the result for a
    prefix of the events is the map of the places where a segment has begun and none has ended. */
module Segments {
  import opened Trees
  import opened Maps
  import Bulk
  import opened Sweeps

  /** An end point. The left end of a segment has x1 < x2; in the right end the two are exchanged. */
  datatype Segment = Segment(x1: int, x2: int, y: int, w: int)

  /** Keys are y and x1, compared in this order; x2 and the weight travel in the value. */
  type Key = (int, int)
  type Val = (int, int)
  type SegMap = Tree<Entry<Key, Val>>
  type Sorter = seq<Entry<Key, Val>> -> seq<Entry<Key, Val>>

  predicate Begins(p: Segment) {
    p.x1 < p.x2
  }

  function KeyOf(p: Segment): Key {
    (p.y, if Begins(p) then p.x1 else p.x2)
  }

  function EntryOf(p: Segment): Entry<Key, Val> {
    Entry(KeyOf(p), (if Begins(p) then p.x2 else p.x1, p.w))
  }

  function Newer(a: Val, b: Val): Val {
    b
  }

  // -------------------- the closures of the sweep --------------------

  function Add(s: Scheme<Entry<Key, Val>>): (SegMap, Segment) -> SegMap {
    (m: SegMap, p: Segment) =>
      if Begins(p) then Insert(s, Lex, m, EntryOf(p), Newer) else Delete(s, Lex, m, KeyOf(p))
  }

  /** The entries of the events of one kind. */
  function Part(ev: seq<Segment>, begins: bool): seq<Entry<Key, Val>> {
    if ev == [] then []
    else Part(ev[..|ev| - 1], begins) + if Begins(ev[|ev| - 1]) == begins then [EntryOf(ev[|ev| - 1])] else []
  }

  /** The loop that collects the segments that begin and those that end; a closure needs it as the function Part. */
  method Collect(ev: seq<Segment>) returns (add: seq<Entry<Key, Val>>, remove: seq<Entry<Key, Val>>)
    ensures add == Part(ev, true) && remove == Part(ev, false)
  {
    add, remove := [], [];
    var i := 0;
    while i < |ev|
      invariant 0 <= i <= |ev| && add == Part(ev[..i], true) && remove == Part(ev[..i], false)
    {
      assert ev[..i + 1][..i] == ev[..i];
      if Begins(ev[i]) {
        add := add + [EntryOf(ev[i])];
      } else {
        remove := remove + [EntryOf(ev[i])];
      }
      i := i + 1;
    }
    assert ev[..i] == ev;
  }

  function Built(s: Scheme<Entry<Key, Val>>, sort: Sorter, ev: seq<Segment>, begins: bool): SegMap {
    Bulk.MapOf(s, Lex, sort, Part(ev, begins))
  }

  function Build(s: Scheme<Entry<Key, Val>>, sort: Sorter): seq<Segment> -> (SegMap, SegMap) {
    (ev: seq<Segment>) => (Built(s, sort, ev, true), Built(s, sort, ev, false))
  }

  function Merge(s: Scheme<Entry<Key, Val>>): (SegMap, (SegMap, SegMap)) -> SegMap {
    (m: SegMap, p: (SegMap, SegMap)) => Difference(s, Lex, Union(s, Lex, m, p.0, Newer), p.1)
  }

  // -------------------- open places --------------------

  // What the results mean is said in the fields of the segments.

  function Lo(p: Segment): int {
    if p.x1 < p.x2 then p.x1 else p.x2
  }

  function Hi(p: Segment): int {
    if p.x1 < p.x2 then p.x2 else p.x1
  }

  /** Both have their left end at the same point. */
  predicate SamePlace(p: Segment, q: Segment) {
    p.y == q.y && Lo(p) == Lo(q)
  }

  ghost predicate Occurs(ev: seq<Segment>, begins: bool, k: Key) {
    exists p :: p in ev && (p.x1 < p.x2 <==> begins) && (p.y, Lo(p)) == k
  }

  /** A segment has begun at this place, and none that began there has ended. */
  ghost predicate Open(ev: seq<Segment>, k: Key) {
    Occurs(ev, true, k) && !Occurs(ev, false, k)
  }

  ghost predicate Begun(ev: seq<Segment>, k: Key, v: Val) {
    exists p :: p in ev && p.x1 < p.x2 && (p.y, p.x1) == k && (p.x2, p.w) == v
  }

  /** At no place does a segment begin after one that began there has ended. */
  ghost predicate Proper(ev: seq<Segment>) {
    forall i, j :: 0 <= i < j < |ev| && SamePlace(ev[i], ev[j]) && ev[j].x1 < ev[j].x2 ==> ev[i].x1 < ev[i].x2
  }

  /** `m` is the map of the open places, each with a segment that has begun there. */
  ghost predicate Holds(m: SegMap, ev: seq<Segment>) {
    && Ordered(Lex, m)
    && (forall k :: Get(m, k).Some? <==> Open(ev, k))
    && (forall k, v :: Get(m, k) == Some(v) ==> Begun(ev, k, v))
  }

  lemma ProperParts(a: seq<Segment>, b: seq<Segment>, p: Segment, q: Segment)
    requires Proper(a + b) && p in a && q in b && KeyOf(p) == KeyOf(q) && Begins(q)
    ensures Begins(p)
  {
    var i :| 0 <= i < |a| && a[i] == p;
    var j :| 0 <= j < |b| && b[j] == q;
    assert (a + b)[i] == p && (a + b)[|a| + j] == q;
  }

  lemma ProperSlice(ev: seq<Segment>, l: nat, r: nat)
    requires Proper(ev) && l <= r <= |ev|
    ensures Proper(ev[..l] + ev[l..r]) && ev[..l] + ev[l..r] == ev[..r]
  {
    assert ev[..l] + ev[l..r] == ev[..r];
    assert forall i :: 0 <= i < r ==> ev[..r][i] == ev[i];
  }

  // -------------------- one event at a time --------------------

  /** How one event changes which places are open. */
  lemma AddOpen(ev: seq<Segment>, p: Segment, k: Key)
    requires Proper(ev + [p])
    ensures Open(ev + [p], k) <==> if k == KeyOf(p) then Begins(p) else Open(ev, k)
  {
    var all := ev + [p];
    assert forall q :: q in all <==> q in ev || q == p;
    if k == KeyOf(p) && Begins(p) {
      assert p in all;
      forall q | q in ev && KeyOf(q) == k ensures Begins(q) {
        ProperParts(ev, [p], q, p);
      }
    }
  }

  lemma BegunMore(a: seq<Segment>, b: seq<Segment>, k: Key, v: Val)
    requires Begun(a, k, v) || Begun(b, k, v)
    ensures Begun(a + b, k, v)
  {
    var p :| (p in a || p in b) && Begins(p) && EntryOf(p) == Entry(k, v);
    assert p in a + b;
  }

  lemma AddHolds(s: Scheme<Entry<Key, Val>>, m: SegMap, ev: seq<Segment>, p: Segment)
    requires Holds(m, ev) && Proper(ev + [p])
    ensures Holds(Add(s)(m, p), ev + [p])
  {
    LexIsOrder();
    var d := Add(s)(m, p);
    if Begins(p) {
      InsertCorrect(s, Lex, m, EntryOf(p), Newer);
    } else {
      DeleteCorrect(s, Lex, m, KeyOf(p));
    }
    forall k ensures Get(d, k).Some? <==> Open(ev + [p], k) {
      AddOpen(ev, p, k);
    }
    forall k, v | Get(d, k) == Some(v) ensures Begun(ev + [p], k, v) {
      if k == KeyOf(p) {
        assert p in [p] && EntryOf(p) == Entry(k, v);
      }
      BegunMore(ev, [p], k, v);
    }
  }

  // -------------------- a block at a time --------------------

  lemma {:induction false} PartMember(ev: seq<Segment>, begins: bool, e: Entry<Key, Val>)
    ensures e in Part(ev, begins) <==> exists p :: p in ev && Begins(p) == begins && EntryOf(p) == e
  {
    if ev != [] {
      var n := |ev| - 1;
      PartMember(ev[..n], begins, e);
      assert ev == ev[..n] + [ev[n]];
    }
  }

  /** The map of the events of one kind in a block. */
  lemma BuiltHas(s: Scheme<Entry<Key, Val>>, sort: Sorter, ev: seq<Segment>, begins: bool, k: Key)
    requires Bulk.Sorts(Lex, sort)
    ensures var m := Built(s, sort, ev, begins);
            && (Get(m, k).Some? <==> Occurs(ev, begins, k))
            && (begins && Get(m, k).Some? ==> Begun(ev, k, Get(m, k).value))
  {
    LexIsOrder();
    var q, m := Part(ev, begins), Built(s, sort, ev, begins);
    Bulk.MapOfIs(s, Lex, sort, q);
    if Get(m, k).Some? {
      var e := Entry(k, Get(m, k).value);
      assert Get(m, k) == Some(e.val) && e in q;
      PartMember(ev, begins, e);
      var p :| p in ev && Begins(p) == begins && EntryOf(p) == e;
      assert KeyOf(p) == k;
    }
    if p :| p in ev && Begins(p) == begins && KeyOf(p) == k {
      PartMember(ev, begins, EntryOf(p));
      assert EntryOf(p) in q;
    }
  }

  /** Which places are open after a further block. */
  lemma BlockOpen(a: seq<Segment>, b: seq<Segment>, k: Key)
    requires Proper(a + b)
    ensures Open(a + b, k) <==> !Occurs(b, false, k) && (Occurs(b, true, k) || Open(a, k))
  {
    if q :| q in b && Begins(q) && KeyOf(q) == k {
      forall p | p in a && KeyOf(p) == k ensures Begins(p) {
        ProperParts(a, b, p, q);
      }
    }
  }

  /** Merging a block into the map of open places gives the map of open places after the block. */
  lemma MergeHolds(s: Scheme<Entry<Key, Val>>, sort: Sorter, m: SegMap, a: seq<Segment>, b: seq<Segment>)
    requires Bulk.Sorts(Lex, sort) && Holds(m, a) && Proper(a + b)
    ensures Holds(Merge(s)(m, Build(s, sort)(b)), a + b)
  {
    LexIsOrder();
    var add, remove := Built(s, sort, b, true), Built(s, sort, b, false);
    Bulk.MapOfIs(s, Lex, sort, Part(b, true));
    Bulk.MapOfIs(s, Lex, sort, Part(b, false));
    UnionCorrect(s, Lex, m, add, Newer);
    var u := Union(s, Lex, m, add, Newer);
    DifferenceCorrect(s, Lex, u, remove);
    forall k ensures MergedAt(a, b, Difference(s, Lex, u, remove), k) {
      MergeAt(s, sort, m, a, b, Difference(s, Lex, u, remove), k);
    }
    MergedAll(a, b, Difference(s, Lex, u, remove));
  }

  ghost predicate MergedAt(a: seq<Segment>, b: seq<Segment>, d: SegMap, k: Key) {
    && (Get(d, k).Some? <==> Open(a + b, k))
    && (Get(d, k).Some? ==> Begun(a + b, k, Get(d, k).value))
  }

  lemma MergeAt(s: Scheme<Entry<Key, Val>>, sort: Sorter, m: SegMap, a: seq<Segment>, b: seq<Segment>, d: SegMap,
                k: Key)
    requires Bulk.Sorts(Lex, sort) && Holds(m, a) && Proper(a + b)
    requires Get(d, k) == if Get(Built(s, sort, b, false), k).Some? then None
                          else Both(Newer, Get(m, k), Get(Built(s, sort, b, true), k))
    ensures MergedAt(a, b, d, k)
  {
    BuiltHas(s, sort, b, true, k);
    BuiltHas(s, sort, b, false, k);
    BlockOpen(a, b, k);
    if Get(d, k).Some? {
      BegunMore(a, b, k, Get(d, k).value);
    }
  }

  lemma MergedAll(a: seq<Segment>, b: seq<Segment>, d: SegMap)
    requires Ordered(Lex, d) && forall k :: MergedAt(a, b, d, k)
    ensures Holds(d, a + b)
  {
    forall k ensures Get(d, k).Some? <==> Open(a + b, k) {
      assert MergedAt(a, b, d, k);
    }
    forall k, v | Get(d, k) == Some(v) ensures Begun(a + b, k, v) {
      assert MergedAt(a, b, d, k);
    }
  }

  // -------------------- the events of a list of segments --------------------

  function Swap(p: Segment): Segment {
    Segment(p.x2, p.x1, p.y, p.w)
  }

  /** Both end points of every segment. */
  function Endpoints(segs: seq<Segment>): seq<Segment> {
    if segs == [] then [] else Endpoints(segs[..|segs| - 1]) + [segs[|segs| - 1], Swap(segs[|segs| - 1])]
  }

  ghost predicate SortedEvents(ev: seq<Segment>) {
    forall i, j :: 0 <= i < j < |ev| ==> ev[i].x1 < ev[j].x1 || (ev[i].x1 == ev[j].x1 && ev[i].y <= ev[j].y)
  }

  /** A segment of length 0 is two ends and no beginning. Here none lies where another segment begins. */
  ghost predicate Input(segs: seq<Segment>) {
    forall i, j :: 0 <= i < |segs| && 0 <= j < |segs| && SamePlace(segs[i], segs[j]) ==>
      (segs[i].x1 == segs[i].x2 <==> segs[j].x1 == segs[j].x2)
  }

  /** The events of a list of segments, from left to right. */
  ghost predicate Events(segs: seq<Segment>, ev: seq<Segment>) {
    multiset(ev) == multiset(Endpoints(segs)) && SortedEvents(ev)
  }

  lemma {:induction false} EndpointsMember(segs: seq<Segment>, p: Segment)
    ensures p in Endpoints(segs) <==> exists i :: 0 <= i < |segs| && (p == segs[i] || p == Swap(segs[i]))
  {
    if segs != [] {
      var n := |segs| - 1;
      EndpointsMember(segs[..n], p);
      assert forall i :: 0 <= i < n ==> segs[..n][i] == segs[i];
    }
  }

  /** Every event is an end of a segment that has its key. */
  lemma EventOf(segs: seq<Segment>, ev: seq<Segment>, p: Segment) returns (u: nat)
    requires multiset(ev) == multiset(Endpoints(segs)) && p in ev
    ensures u < |segs| && (p == segs[u] || p == Swap(segs[u])) && KeyOf(p) == KeyOf(segs[u])
  {
    var i :| 0 <= i < |ev| && ev[i] == p;
    Bulk.InBoth(ev, Endpoints(segs), i);
    EndpointsMember(segs, p);
    u :| 0 <= u < |segs| && (p == segs[u] || p == Swap(segs[u]));
  }

  /** Then the events are proper, however those at the same point are ordered. */
  lemma EventsProper(segs: seq<Segment>, ev: seq<Segment>)
    requires Input(segs) && Events(segs, ev)
    ensures Proper(ev)
  {
    forall i, j | 0 <= i < j < |ev| && KeyOf(ev[i]) == KeyOf(ev[j]) && Begins(ev[j]) ensures Begins(ev[i]) {
      var u := EventOf(segs, ev, ev[i]);
      var v := EventOf(segs, ev, ev[j]);
      assert segs[u].x1 != segs[u].x2;
    }
  }

  ghost function Reps(events: seq<Segment>): (SegMap, nat) -> bool {
    (m: SegMap, j: nat) => j <= |events| && Holds(m, events[..j])
  }

  lemma AddSound(s: Scheme<Entry<Key, Val>>, events: seq<Segment>, m: SegMap, j: nat)
    requires Proper(events) && j < |events| && Reps(events)(m, j)
    ensures Reps(events)(Add(s)(m, events[j]), j + 1)
  {
    ProperSlice(events, j, j + 1);
    assert events[j..j + 1] == [events[j]];
    AddHolds(s, m, events[..j], events[j]);
  }

  lemma MergeSound(s: Scheme<Entry<Key, Val>>, sort: Sorter, events: seq<Segment>, m: SegMap, l: nat, r: nat)
    requires Bulk.Sorts(Lex, sort) && Proper(events) && l <= r <= |events| && Reps(events)(m, l)
    ensures Reps(events)(Merge(s)(m, Build(s, sort)(events[l..r])), r)
  {
    ProperSlice(events, l, r);
    MergeHolds(s, sort, m, events[..l], events[l..r]);
  }

  /** The law of the sweep: adding a block by union and difference agrees with adding its events one by one. */
  lemma SegmentsSound(s: Scheme<Entry<Key, Val>>, sort: Sorter, events: seq<Segment>)
    requires Bulk.Sorts(Lex, sort) && Proper(events)
    ensures Sound(events, Leaf, Add(s), Build(s, sort), Merge(s), Reps(events))
  {
    assert events[..0] == [];
    forall m, j: nat | j < |events| && Reps(events)(m, j) ensures Reps(events)(Add(s)(m, events[j]), j + 1) {
      AddSound(s, events, m, j);
    }
    forall m, l: nat, r: nat | l <= r <= |events| && Reps(events)(m, l)
      ensures Reps(events)(Merge(s)(m, Build(s, sort)(events[l..r])), r)
    {
      MergeSound(s, sort, events, m, l, r);
    }
  }

  // -------------------- from places to segments --------------------

  /** The left end of a segment, in whichever order its ends are given. */
  function LeftEnd(p: Segment): Segment {
    if Begins(p) then p else Swap(p)
  }

  /** The sweep line is on the segment: its left end has been passed and its right end has not. */
  ghost predicate Active(ev: seq<Segment>, p: Segment) {
    Segment(Lo(p), Hi(p), p.y, p.w) in ev && Segment(Hi(p), Lo(p), p.y, p.w) !in ev
  }

  /** The map holds exactly the active segments: under y and the left end, the right end and the weight. */
  ghost predicate HoldsSegments(m: SegMap, segs: seq<Segment>, ev: seq<Segment>) {
    forall u :: 0 <= u < |segs| && segs[u].x1 != segs[u].x2 ==>
      (Active(ev, segs[u]) <==> Get(m, (segs[u].y, Lo(segs[u]))) == Some((Hi(segs[u]), segs[u].w)))
  }

  /** Segments that begin at the same place are the same. */
  ghost predicate Coherent(segs: seq<Segment>) {
    forall u, v :: 0 <= u < |segs| && 0 <= v < |segs| && SamePlace(segs[u], segs[v]) && segs[u].x1 != segs[u].x2 ==>
      Hi(segs[u]) == Hi(segs[v]) && segs[u].w == segs[v].w
  }

  lemma CoherentActive(segs: seq<Segment>, events: seq<Segment>, j: nat, m: SegMap, u: nat)
    requires Events(segs, events) && Coherent(segs) && j <= |events| && Holds(m, events[..j])
    requires u < |segs| && segs[u].x1 != segs[u].x2
    ensures Active(events[..j], segs[u]) <==> Get(m, (segs[u].y, Lo(segs[u]))) == Some((Hi(segs[u]), segs[u].w))
  {
    var ev, k, l := events[..j], KeyOf(segs[u]), LeftEnd(segs[u]);
    assert KeyOf(l) == k && KeyOf(Swap(l)) == k;
    forall p | p in ev && KeyOf(p) == k ensures p == if Begins(p) then l else Swap(l) {
      var v := EventOf(segs, events, p);
    }
    assert Open(ev, k) <==> Active(ev, segs[u]) by {
      if Active(ev, segs[u]) {
        assert l in ev && Begins(l);
      }
    }
    if Get(m, k).Some? {
      var x := Get(m, k).value;
      assert Get(m, k) == Some(x) && Begun(ev, k, x);
    }
  }

  lemma LeftEndOccurs(segs: seq<Segment>, events: seq<Segment>, u: nat) returns (i: nat)
    requires multiset(events) == multiset(Endpoints(segs)) && u < |segs|
    ensures i < |events| && events[i] == LeftEnd(segs[u])
  {
    EndpointsMember(segs, LeftEnd(segs[u]));
    assert LeftEnd(segs[u]) in multiset(Endpoints(segs));
    assert LeftEnd(segs[u]) in multiset(events);
    i :| 0 <= i < |events| && events[i] == LeftEnd(segs[u]);
  }

  /** As long as only points at or before its left end have been passed, a segment that has begun is active. */
  lemma StillActive(ev: seq<Segment>, p: Segment)
    requires Begins(LeftEnd(p)) && LeftEnd(p) in ev && forall i :: 0 <= i < |ev| ==> ev[i].x1 <= LeftEnd(p).x1
    ensures Active(ev, p)
  {
  }

  /** Different segments at one place: there is a moment when both have been met, and then no map of the open places
      holds exactly the active segments, since a place has room for one. */
  lemma NoRoom(segs: seq<Segment>, events: seq<Segment>, u: nat, v: nat) returns (j: nat)
    requires Events(segs, events) && u < |segs| && v < |segs| && SamePlace(segs[u], segs[v])
    requires segs[u].x1 != segs[u].x2 && (Hi(segs[u]) != Hi(segs[v]) || segs[u].w != segs[v].w)
    ensures j <= |events| && forall m :: Holds(m, events[..j]) ==> !HoldsSegments(m, segs, events[..j])
  {
    var a := LeftEndOccurs(segs, events, u);
    var b := LeftEndOccurs(segs, events, v);
    var last := if a < b then b else a;
    j := last + 1;
    var ev := events[..j];
    assert ev[a] == events[a] && ev[b] == events[b];
    StillActive(ev, segs[u]);
    forall m | Holds(m, ev) ensures !HoldsSegments(m, segs, ev) {
      if Begins(LeftEnd(segs[v])) {
        StillActive(ev, segs[v]);
        assert EntryOf(LeftEnd(segs[u])).val != EntryOf(LeftEnd(segs[v])).val;
      } else {
        assert LeftEnd(segs[v]) in ev && KeyOf(LeftEnd(segs[v])) == KeyOf(segs[u]);
        assert Occurs(ev, false, KeyOf(segs[u]));
      }
    }
  }

  /** Maps of the open places at every moment hold exactly the active segments if and only if segments that begin at
      the same place are the same. */
  lemma ExactSegments(segs: seq<Segment>, events: seq<Segment>, xt: seq<SegMap>)
    requires Events(segs, events) && |xt| == |events| + 1
    requires forall j: nat :: j <= |events| ==> Holds(xt[j], events[..j])
    ensures (forall j: nat :: j <= |events| ==> HoldsSegments(xt[j], segs, events[..j])) <==> Coherent(segs)
  {
    if Coherent(segs) {
      forall j: nat | j <= |events| ensures HoldsSegments(xt[j], segs, events[..j]) {
        forall u | 0 <= u < |segs| && segs[u].x1 != segs[u].x2
          ensures Active(events[..j], segs[u])
             <==> Get(xt[j], (segs[u].y, Lo(segs[u]))) == Some((Hi(segs[u]), segs[u].w))
        {
          CoherentActive(segs, events, j, xt[j], u);
        }
      }
    } else {
      var u, v :| 0 <= u < |segs| && 0 <= v < |segs| && SamePlace(segs[u], segs[v]) && segs[u].x1 != segs[u].x2
                  && (Hi(segs[u]) != Hi(segs[v]) || segs[u].w != segs[v].w);
      var j := NoRoom(segs, events, u, v);
      assert Holds(xt[j], events[..j]);
    }
  }

  // -------------------- the sweep --------------------

  /** What the sweep keeps when the events are proper; otherwise nothing is claimed of the maps. */
  ghost function IfProper(events: seq<Segment>): (SegMap, nat) -> bool {
    (m: SegMap, j: nat) => Proper(events) ==> Reps(events)(m, j)
  }

  lemma SweepSound(s: Scheme<Entry<Key, Val>>, sort: Sorter, events: seq<Segment>)
    requires Bulk.Sorts(Lex, sort)
    ensures Sound(events, Leaf, Add(s), Build(s, sort), Merge(s), IfProper(events))
  {
    if Proper(events) {
      SegmentsSound(s, sort, events);
    }
  }

  /** With proper events the result for the first `j` of them is the map of the open places, for every number of blocks,
      and all results hold exactly the active segments if and only if segments that begin at the same place are the
      same. */
  method SegmentSweep(s: Scheme<Entry<Key, Val>>, sort: Sorter, segs: seq<Segment>, events: seq<Segment>, blocks: nat,
                      workers: nat) returns (xt: array<SegMap>)
    requires Bulk.Sorts(Lex, sort) && Events(segs, events)
    requires workers >= 1 && (events != [] || blocks == 1 || (blocks == 0 && workers == 1))
    ensures xt.Length == |events| + 1
    ensures Input(segs) ==> Proper(events)
    ensures Proper(events) ==> forall j: nat :: j <= |events| ==> Holds(xt[j], events[..j])
    ensures Proper(events) ==>
            ((forall j: nat :: j <= |events| ==> HoldsSegments(xt[j], segs, events[..j])) <==> Coherent(segs))
  {
    SweepSound(s, sort, events);
    xt := Sweep(events, Leaf, Add(s), Build(s, sort), Merge(s), blocks, workers, IfProper(events));
    if Input(segs) {
      EventsProper(segs, events);
    }
    if Proper(events) {
      forall j: nat | j <= |events| ensures Holds(xt[j], events[..j]) {
        assert IfProper(events)(xt[j], j) && Reps(events)(xt[j], j);
      }
      ExactSegments(segs, events, xt[..]);
    }
  }

  // -------------------- where it fails --------------------

  /** Two segments from (0, 0), one longer than the other: the sweep cannot hold both. */
  lemma SharedStart()
    ensures var segs := [Segment(0, 2, 0, 1), Segment(0, 3, 0, 1)]; Input(segs) && !Coherent(segs)
  {
    var segs := [Segment(0, 2, 0, 1), Segment(0, 3, 0, 1)];
    assert SamePlace(segs[0], segs[1]) && Hi(segs[0]) != Hi(segs[1]);
  }

  /** What the last event at a place leaves there. */
  predicate LastAt(ev: seq<Segment>, k: Key, before: bool) {
    if ev == [] then before
    else if KeyOf(ev[|ev| - 1]) == k then Begins(ev[|ev| - 1])
    else LastAt(ev[..|ev| - 1], k, before)
  }

  lemma {:induction false} FoldKeys(s: Scheme<Entry<Key, Val>>, m: SegMap, ev: seq<Segment>, k: Key)
    requires Ordered(Lex, m)
    ensures Ordered(Lex, Foldl(Add(s), m, ev))
    ensures Get(Foldl(Add(s), m, ev), k).Some? <==> LastAt(ev, k, Get(m, k).Some?)
  {
    if ev != [] {
      var n := |ev| - 1;
      FoldKeys(s, m, ev[..n], k);
      LexIsOrder();
      InsertCorrect(s, Lex, Foldl(Add(s), m, ev[..n]), EntryOf(ev[n]), Newer);
      DeleteCorrect(s, Lex, Foldl(Add(s), m, ev[..n]), KeyOf(ev[n]));
    }
  }

  lemma MergeKeys(s: Scheme<Entry<Key, Val>>, sort: Sorter, m: SegMap, b: seq<Segment>, k: Key)
    requires Bulk.Sorts(Lex, sort) && Ordered(Lex, m)
    ensures Get(Merge(s)(m, Build(s, sort)(b)), k).Some? <==>
            !Occurs(b, false, k) && (Occurs(b, true, k) || Get(m, k).Some?)
  {
    LexIsOrder();
    var add, remove := Built(s, sort, b, true), Built(s, sort, b, false);
    Bulk.MapOfIs(s, Lex, sort, Part(b, true));
    Bulk.MapOfIs(s, Lex, sort, Part(b, false));
    UnionCorrect(s, Lex, m, add, Newer);
    DifferenceCorrect(s, Lex, Union(s, Lex, m, add, Newer), remove);
    BuiltHas(s, sort, b, true, k);
    BuiltHas(s, sort, b, false, k);
  }

  lemma {:induction false} LastProper(ev: seq<Segment>, k: Key, before: bool)
    requires Proper(ev)
    ensures LastAt(ev, k, before) <==> !Occurs(ev, false, k) && (Occurs(ev, true, k) || before)
  {
    if ev != [] {
      var n := |ev| - 1;
      var a, p := ev[..n], ev[n];
      assert ev == a + [p];
      LastProper(a, k, before);
      AddOpen(a, p, k);
      assert forall q :: q in ev <==> q in a || q == p;
      assert KeyOf(p) == k ==> p in ev;
    }
  }

  /** A block merged at once leaves the same places as its events added one by one. */
  ghost predicate Agrees(s: Scheme<Entry<Key, Val>>, sort: Sorter, m: SegMap, b: seq<Segment>, k: Key) {
    Get(Merge(s)(m, Build(s, sort)(b)), k).Some? <==> Get(Foldl(Add(s), m, b), k).Some?
  }

  lemma BlockAgrees(s: Scheme<Entry<Key, Val>>, sort: Sorter, m: SegMap, b: seq<Segment>, k: Key)
    requires Bulk.Sorts(Lex, sort) && Ordered(Lex, m) && Proper(b)
    ensures Agrees(s, sort, m, b, k)
  {
    FoldKeys(s, m, b, k);
    MergeKeys(s, sort, m, b, k);
    LastProper(b, k, Get(m, k).Some?);
  }

  /** A block that ends a segment and then begins one at the same place loses it. */
  lemma BlockDisagrees(s: Scheme<Entry<Key, Val>>, sort: Sorter, b: seq<Segment>)
    requires Bulk.Sorts(Lex, sort) && |b| >= 2 && KeyOf(b[0]) == KeyOf(b[|b| - 1])
    requires !Begins(b[0]) && Begins(b[|b| - 1])
    ensures !Agrees(s, sort, Leaf, b, KeyOf(b[0]))
  {
    FoldKeys(s, Leaf, b, KeyOf(b[0]));
    MergeKeys(s, sort, Leaf, b, KeyOf(b[0]));
  }

  /** Blocks can replace single events, wherever they are cut and whatever map they meet, if and only if the events are
      proper. */
  lemma BlocksExact(s: Scheme<Entry<Key, Val>>, sort: Sorter, ev: seq<Segment>)
    requires Bulk.Sorts(Lex, sort)
    ensures (forall l: nat, r: nat, m, k :: l <= r <= |ev| && Ordered(Lex, m) ==> Agrees(s, sort, m, ev[l..r], k))
            <==> Proper(ev)
  {
    if Proper(ev) {
      forall l: nat, r: nat, m, k | l <= r <= |ev| && Ordered(Lex, m) ensures Agrees(s, sort, m, ev[l..r], k) {
        assert forall i :: 0 <= i < r - l ==> ev[l..r][i] == ev[l + i];
        BlockAgrees(s, sort, m, ev[l..r], k);
      }
    } else {
      var i, j :| 0 <= i < j < |ev| && KeyOf(ev[i]) == KeyOf(ev[j]) && Begins(ev[j]) && !Begins(ev[i]);
      BlockDisagrees(s, sort, ev[i..j + 1]);
    }
  }
}
