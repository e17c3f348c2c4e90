/** The node heap: cells with cached fields and a reference count, and the invariant that ties
    them to trees. Ghost state records which references are held from outside (`owned`) and the
    linked tree that starts at each attached cell (`view`). */
module Heap {
  import opened Trees

  /** 0 is the null pointer. */
  type Ref = nat

  datatype Cell<E, A> = Cell(lc: Ref, rc: Ref, entry: E, size: nat, height: nat, aug: A, cnt: nat)

  /** What an augmented map caches: `fromEntry` and `combine` give the value of a node, `empty` that of null. */
  datatype Augment<!E, !A> = Augment(fromEntry: E -> A, combine: (A, A) -> A, empty: A)

  /** The augmented value of a tree, by the equation that `update` maintains. */
  function AugVal<E, A>(g: Augment<E, A>, t: Tree<E>): A {
    if t.Leaf? then g.empty
    else
      var a := g.fromEntry(t.entry);
      var b := if t.lc.Leaf? then a else g.combine(AugVal(g, t.lc), a);
      if t.rc.Leaf? then b else g.combine(b, AugVal(g, t.rc))
  }

  /** A tree together with the cells that hold it. */
  datatype Spine<E> = Null | At(ref: Ref, lc: Spine<E>, entry: E, rc: Spine<E>)

  function Val<E>(sp: Spine<E>): Tree<E> {
    match sp
    case Null => Leaf
    case At(_, l, e, r) => Node(Val(l), e, Val(r))
  }

  datatype Sys<E, A> = Sys(mem: map<Ref, Cell<E, A>>, view: map<Ref, Spine<E>>, owned: multiset<Ref>)

  /** The reference held through a pointer that may be null. */
  function Tok(r: Ref): multiset<Ref> {
    if r == 0 then multiset{} else multiset{r}
  }

  /** The linked tree a pointer leads to. */
  function At0<E>(view: map<Ref, Spine<E>>, r: Ref): Spine<E> {
    if r in view then view[r] else Null
  }

  function TreeAt<E>(view: map<Ref, Spine<E>>, r: Ref): Tree<E> {
    Val(At0(view, r))
  }

  /** Cells that are allocated but not part of any tree: their child fields do not count. */
  function Loose<E, A>(s: Sys<E, A>): set<Ref> {
    s.mem.Keys - s.view.Keys
  }

  ghost function LeftParents<E, A>(s: Sys<E, A>, r: Ref): set<Ref> {
    set p | p in s.view && p in s.mem && s.mem[p].lc == r
  }

  ghost function RightParents<E, A>(s: Sys<E, A>, r: Ref): set<Ref> {
    set p | p in s.view && p in s.mem && s.mem[p].rc == r
  }

  /** The number of child pointers to `r` in attached cells. */
  ghost function InDegree<E, A>(s: Sys<E, A>, r: Ref): nat {
    |LeftParents(s, r)| + |RightParents(s, r)|
  }

  ghost predicate Cached<E, A>(g: Augment<E, A>, c: Cell<E, A>, t: Tree<E>) {
    c.size == Size(t) && c.height == Height(t) && c.aug == AugVal(g, t)
  }

  predicate Points<E>(view: map<Ref, Spine<E>>, r: Ref) {
    r == 0 || r in view
  }

  /** The cell at `r` agrees with the tree recorded for it. */
  ghost predicate LinkedAt<E, A>(g: Augment<E, A>, s: Sys<E, A>, r: Ref) {
    && r in s.view && r in s.mem
    && Points(s.view, s.mem[r].lc) && Points(s.view, s.mem[r].rc)
    && s.view[r] == At(r, At0(s.view, s.mem[r].lc), s.mem[r].entry, At0(s.view, s.mem[r].rc))
    && Cached(g, s.mem[r], Val(s.view[r]))
  }

  /** The reference count at `r` is exact. A loose cell is held by one local variable and nothing else. */
  ghost predicate CountAt<E, A>(s: Sys<E, A>, r: Ref) {
    && r in s.mem
    && s.mem[r].cnt >= 1
    && s.mem[r].cnt == s.owned[r] + InDegree(s, r) + (if r in s.view then 0 else 1)
    && (r !in s.view ==> s.mem[r].cnt == 1)
  }

  ghost predicate Linked<E, A>(g: Augment<E, A>, s: Sys<E, A>) {
    forall r {:trigger LinkedAt(g, s, r)} :: r in s.view ==> LinkedAt(g, s, r)
  }

  ghost predicate Exact<E, A>(s: Sys<E, A>) {
    forall r {:trigger CountAt(s, r)} :: r in s.mem ==> CountAt(s, r)
  }

  ghost predicate Held<E, A>(s: Sys<E, A>) {
    forall r {:trigger s.owned[r]} :: r in s.owned ==> r in s.view
  }

  ghost predicate Valid<E, A>(g: Augment<E, A>, s: Sys<E, A>) {
    0 !in s.mem && s.view.Keys <= s.mem.Keys && Linked(g, s) && Exact(s) && Held(s)
  }

  /** What a step must leave alone: the linked trees of all references in `frame`, and the cells in `lf`. */
  ghost predicate Kept<E, A>(s0: Sys<E, A>, s1: Sys<E, A>, frame: multiset<Ref>, lf: set<Ref>) {
    && (forall h :: h in frame ==> h in s0.view && h in s1.view && s1.view[h] == s0.view[h])
    && (forall q :: q in lf ==> q in s0.mem && q in s1.mem && s1.mem[q] == s0.mem[q])
  }

  // -------------------- elementary steps --------------------

  lemma LeftParentsDiffer<E, A>(s: Sys<E, A>, s': Sys<E, A>, p: Ref, r: Ref)
    requires p !in s.view && p in s.mem && s'.mem == s.mem && s'.view.Keys == s.view.Keys + {p}
    ensures |LeftParents(s', r)| == |LeftParents(s, r)| + if s.mem[p].lc == r then 1 else 0
  {
    if s.mem[p].lc == r {
      assert LeftParents(s', r) == LeftParents(s, r) + {p};
    } else {
      assert LeftParents(s', r) == LeftParents(s, r);
    }
  }

  lemma RightParentsDiffer<E, A>(s: Sys<E, A>, s': Sys<E, A>, p: Ref, r: Ref)
    requires p !in s.view && p in s.mem && s'.mem == s.mem && s'.view.Keys == s.view.Keys + {p}
    ensures |RightParents(s', r)| == |RightParents(s, r)| + if s.mem[p].rc == r then 1 else 0
  {
    if s.mem[p].rc == r {
      assert RightParents(s', r) == RightParents(s, r) + {p};
    } else {
      assert RightParents(s', r) == RightParents(s, r);
    }
  }

  /** Attaching or detaching `p` changes the parents of its two children only. */
  lemma ParentsDiffer<E, A>(s: Sys<E, A>, s': Sys<E, A>, p: Ref, r: Ref)
    requires p !in s.view && p in s.mem && s'.mem == s.mem && s'.view.Keys == s.view.Keys + {p}
    ensures InDegree(s', r) == InDegree(s, r)
              + (if s.mem[p].lc == r then 1 else 0) + (if s.mem[p].rc == r then 1 else 0)
  {
    LeftParentsDiffer(s, s', p, r);
    RightParentsDiffer(s, s', p, r);
  }

  /** Changing a cell that is not attached, or a count, changes no parents. */
  lemma ParentsSame<E, A>(s: Sys<E, A>, s': Sys<E, A>, r: Ref)
    requires s'.view.Keys == s.view.Keys
    requires forall p :: p in s.view ==>
             p in s.mem && p in s'.mem && s'.mem[p].lc == s.mem[p].lc && s'.mem[p].rc == s.mem[p].rc
    ensures InDegree(s', r) == InDegree(s, r)
  {
    assert LeftParents(s', r) == LeftParents(s, r);
    assert RightParents(s', r) == RightParents(s, r);
  }

  function Attached<E, A>(s: Sys<E, A>, p: Ref, frame: multiset<Ref>): Sys<E, A>
    requires p in s.mem
  {
    var c := s.mem[p];
    Sys(s.mem, s.view[p := At(p, At0(s.view, c.lc), c.entry, At0(s.view, c.rc))], frame + Tok(p))
  }

  lemma AttachLinks<E, A>(g: Augment<E, A>, s: Sys<E, A>, p: Ref, frame: multiset<Ref>)
    requires Valid(g, s) && p in Loose(s)
    requires Points(s.view, s.mem[p].lc) && Points(s.view, s.mem[p].rc)
    requires Cached(g, s.mem[p], Val(At(p, At0(s.view, s.mem[p].lc), s.mem[p].entry, At0(s.view, s.mem[p].rc))))
    ensures Linked(g, Attached(s, p, frame))
  {
    var s' := Attached(s, p, frame);
    forall r | r in s'.view ensures LinkedAt(g, s', r) {
      if r != p {
        assert LinkedAt(g, s, r);
      }
    }
  }

  lemma AttachCounts<E, A>(g: Augment<E, A>, s: Sys<E, A>, p: Ref, frame: multiset<Ref>)
    requires Valid(g, s) && p in Loose(s)
    requires s.owned == frame + Tok(s.mem[p].lc) + Tok(s.mem[p].rc)
    ensures Exact(Attached(s, p, frame))
  {
    var s' := Attached(s, p, frame);
    forall r | r in s.mem ensures CountAt(s', r) {
      assert CountAt(s, r);
      ParentsDiffer(s, s', p, r);
    }
  }

  lemma AttachValid<E, A>(g: Augment<E, A>, s: Sys<E, A>, p: Ref, frame: multiset<Ref>)
    requires Valid(g, s) && p in Loose(s)
    requires s.owned == frame + Tok(s.mem[p].lc) + Tok(s.mem[p].rc)
    requires Cached(g, s.mem[p], Val(At(p, At0(s.view, s.mem[p].lc), s.mem[p].entry, At0(s.view, s.mem[p].rc))))
    ensures Valid(g, Attached(s, p, frame))
    ensures Loose(Attached(s, p, frame)) == Loose(s) - {p}
  {
    var s' := Attached(s, p, frame);
    OwnedPoints(g, s, s.mem[p].lc);
    OwnedPoints(g, s, s.mem[p].rc);
    AttachLinks(g, s, p, frame);
    AttachCounts(g, s, p, frame);
    forall r | r in s'.owned ensures r in s'.view {
      assert r == p || s.owned[r] > 0;
    }
  }

  lemma OwnedPoints<E, A>(g: Augment<E, A>, s: Sys<E, A>, r: Ref)
    requires Valid(g, s) && Tok(r) <= s.owned
    ensures Points(s.view, r)
  {
  }

  function Detached<E, A>(s: Sys<E, A>, p: Ref, frame: multiset<Ref>): Sys<E, A>
    requires p in s.mem
  {
    Sys(s.mem, s.view - {p}, frame + Tok(s.mem[p].lc) + Tok(s.mem[p].rc))
  }

  /** A cell held by exactly one reference has no parent. */
  lemma UniqueHasNoParent<E, A>(g: Augment<E, A>, s: Sys<E, A>, p: Ref, r: Ref)
    requires Valid(g, s) && p in s.view && s.owned[p] >= s.mem[p].cnt && r in s.view
    ensures s.mem[r].lc != p && s.mem[r].rc != p
  {
    assert CountAt(s, p);
    assert LeftParents(s, p) == {} && RightParents(s, p) == {};
    assert r in s.mem && r !in LeftParents(s, p) && r !in RightParents(s, p);
  }

  lemma DetachCounts<E, A>(g: Augment<E, A>, s: Sys<E, A>, p: Ref, frame: multiset<Ref>)
    requires Valid(g, s) && p in s.view && s.owned == frame + Tok(p) && s.mem[p].cnt == 1 && s.owned[p] == 1
    ensures Exact(Detached(s, p, frame))
  {
    var s' := Detached(s, p, frame);
    UniqueHasNoParent(g, s, p, p);
    forall r | r in s.mem ensures CountAt(s', r) {
      assert CountAt(s, r);
      ParentsDiffer(s', s, p, r);
    }
  }

  lemma DetachLinks<E, A>(g: Augment<E, A>, s: Sys<E, A>, p: Ref, frame: multiset<Ref>)
    requires Valid(g, s) && p in s.view && s.owned[p] == s.mem[p].cnt
    ensures Linked(g, Detached(s, p, frame))
  {
    var s' := Detached(s, p, frame);
    forall r | r in s'.view ensures LinkedAt(g, s', r) {
      assert LinkedAt(g, s, r);
      UniqueHasNoParent(g, s, p, r);
    }
  }

  lemma DetachValid<E, A>(g: Augment<E, A>, s: Sys<E, A>, p: Ref, frame: multiset<Ref>)
    requires Valid(g, s) && p != 0 && s.owned == frame + Tok(p) && p in s.mem && s.mem[p].cnt == 1
    ensures Valid(g, Detached(s, p, frame))
    ensures Loose(Detached(s, p, frame)) == Loose(s) + {p}
    ensures p in s.view && p !in frame
  {
    var s' := Detached(s, p, frame);
    assert s.owned[p] > 0;
    assert CountAt(s, p);
    DetachCounts(g, s, p, frame);
    DetachLinks(g, s, p, frame);
    assert LinkedAt(g, s, p);
    UniqueHasNoParent(g, s, p, p);
    forall r | r in s'.owned ensures r in s'.view {
      assert r == s.mem[p].lc || r == s.mem[p].rc || s.owned[r] > 0;
    }
  }

  lemma WriteValid<E, A>(g: Augment<E, A>, s: Sys<E, A>, p: Ref, c: Cell<E, A>)
    requires Valid(g, s) && p in Loose(s) && c.cnt == s.mem[p].cnt
    ensures Valid(g, s.(mem := s.mem[p := c]))
  {
    var s' := s.(mem := s.mem[p := c]);
    forall r | r in s'.mem ensures CountAt(s', r) {
      assert CountAt(s, r);
      ParentsSame(s, s', r);
    }
    forall r | r in s'.view ensures LinkedAt(g, s', r) {
      assert LinkedAt(g, s, r);
    }
  }

  lemma AllocCounts<E, A>(g: Augment<E, A>, s: Sys<E, A>, p: Ref, c: Cell<E, A>)
    requires Valid(g, s) && p != 0 && p !in s.mem && c.cnt == 1
    ensures Exact(s.(mem := s.mem[p := c]))
  {
    var s' := s.(mem := s.mem[p := c]);
    forall r | r in s'.mem ensures CountAt(s', r) {
      ParentsSame(s, s', r);
      if r != p {
        assert CountAt(s, r);
      } else {
        NoParents(g, s, p);
        assert p !in s.owned;
      }
    }
  }

  lemma AllocValid<E, A>(g: Augment<E, A>, s: Sys<E, A>, p: Ref, c: Cell<E, A>)
    requires Valid(g, s) && p != 0 && p !in s.mem && c.cnt == 1
    ensures Valid(g, s.(mem := s.mem[p := c]))
    ensures Loose(s.(mem := s.mem[p := c])) == Loose(s) + {p}
  {
    var s' := s.(mem := s.mem[p := c]);
    AllocCounts(g, s, p, c);
    forall r | r in s'.view ensures LinkedAt(g, s', r) {
      assert LinkedAt(g, s, r);
    }
  }

  lemma NoParents<E, A>(g: Augment<E, A>, s: Sys<E, A>, p: Ref)
    requires Valid(g, s) && p != 0 && p !in s.view
    ensures InDegree(s, p) == 0
  {
    forall r | r in s.view ensures s.mem[r].lc != p && s.mem[r].rc != p {
      assert LinkedAt(g, s, r);
    }
    assert LeftParents(s, p) == {} && RightParents(s, p) == {};
  }

  lemma FreeValid<E, A>(g: Augment<E, A>, s: Sys<E, A>, p: Ref)
    requires Valid(g, s) && p in Loose(s)
    ensures Valid(g, s.(mem := s.mem - {p}))
    ensures Loose(s.(mem := s.mem - {p})) == Loose(s) - {p}
  {
    var s' := s.(mem := s.mem - {p});
    forall r | r in s'.mem ensures CountAt(s', r) {
      assert CountAt(s, r);
      ParentsSame(s, s', r);
    }
    forall r | r in s'.view ensures LinkedAt(g, s', r) {
      assert LinkedAt(g, s, r);
    }
  }

  function Counted<E, A>(s: Sys<E, A>, r: Ref, cnt: nat, owned: multiset<Ref>): Sys<E, A>
    requires r in s.mem
  {
    Sys(s.mem[r := s.mem[r].(cnt := cnt)], s.view, owned)
  }

  lemma CountValid<E, A>(g: Augment<E, A>, s: Sys<E, A>, p: Ref, cnt: nat, owned: multiset<Ref>)
    requires Valid(g, s) && p in s.view && cnt >= 1
    requires cnt + s.owned[p] == s.mem[p].cnt + owned[p]
    requires owned == s.owned[p := owned[p]]
    ensures Valid(g, Counted(s, p, cnt, owned))
  {
    var s' := Counted(s, p, cnt, owned);
    forall r | r in s'.mem ensures CountAt(s', r) {
      assert CountAt(s, r);
      ParentsSame(s, s', r);
    }
    forall r | r in s'.view ensures LinkedAt(g, s', r) {
      assert LinkedAt(g, s, r);
    }
    forall r | r in s'.owned ensures r in s'.view {
      assert r == p || r in s.owned;
    }
  }

  /** Whatever is held is attached, in particular the part of it that an operation is not handed. */
  lemma FrameHeld<E, A>(g: Augment<E, A>, s: Sys<E, A>, frame: multiset<Ref>)
    requires Valid(g, s) && frame <= s.owned
    ensures forall h :: h in frame ==> h in s.view
  {
  }

  /** What is held in the frame leads to the same tree before and after. */
  lemma TreeKept<E, A>(g: Augment<E, A>, s0: Sys<E, A>, s1: Sys<E, A>, frame: multiset<Ref>, lf: set<Ref>, x: Ref)
    requires Valid(g, s0) && Valid(g, s1) && Kept(s0, s1, frame, lf) && Tok(x) <= frame
    ensures At0(s1.view, x) == At0(s0.view, x) && Points(s0.view, x) && Points(s1.view, x)
  {
  }

  // -------------------- reachability --------------------

  /** `b` is one of the cells of the linked tree. */
  predicate Reaches<E>(sp: Spine<E>, b: Ref) {
    sp.At? && (sp.ref == b || Reaches(sp.lc, b) || Reaches(sp.rc, b))
  }

  function SubAt<E>(sp: Spine<E>, b: Ref): Spine<E>
    requires Reaches(sp, b)
  {
    if sp.ref == b then sp else if Reaches(sp.lc, b) then SubAt(sp.lc, b) else SubAt(sp.rc, b)
  }

  /** Every cell of a recorded tree is live and has the matching subtree recorded for it. */
  lemma {:induction false} SubIsView<E, A>(g: Augment<E, A>, s: Sys<E, A>, h: Ref, b: Ref)
    requires Valid(g, s) && h in s.view && Reaches(s.view[h], b)
    ensures b in s.view && s.view[b] == SubAt(s.view[h], b)
    decreases s.view[h]
  {
    assert LinkedAt(g, s, h);
    var sp := s.view[h];
    if sp.ref == b {
    } else if Reaches(sp.lc, b) {
      SubIsView(g, s, s.mem[h].lc, b);
    } else {
      SubIsView(g, s, s.mem[h].rc, b);
    }
  }

  lemma {:induction false} ReachesTrans<E>(sp: Spine<E>, b: Ref, c: Ref)
    requires Reaches(sp, b) && Reaches(SubAt(sp, b), c)
    ensures Reaches(sp, c)
  {
    if sp.ref == b {
    } else if Reaches(sp.lc, b) {
      ReachesTrans(sp.lc, b, c);
    } else {
      ReachesTrans(sp.rc, b, c);
    }
  }

  /** A bound on the sizes of all recorded trees. */
  lemma {:induction false} SizeBound<E>(view: map<Ref, Spine<E>>, keys: set<Ref>) returns (b: nat)
    requires keys <= view.Keys
    ensures forall r :: r in keys ==> Size(Val(view[r])) <= b
  {
    if keys == {} {
      b := 0;
    } else {
      var r :| r in keys;
      var c := SizeBound(view, keys - {r});
      b := Max(c, Size(Val(view[r])));
      assert forall q :: q in keys ==> q == r || q in keys - {r};
    }
  }

  /** Counts are exact and trees are finite, so following parents from a live cell ends at a held reference. */
  lemma {:induction false} HeldAbove<E, A>(g: Augment<E, A>, s: Sys<E, A>, r: Ref, bound: nat) returns (h: Ref)
    requires Valid(g, s) && r in s.view && forall q :: q in s.view ==> Size(Val(s.view[q])) <= bound
    ensures h in s.owned && h in s.view && Reaches(s.view[h], r)
    decreases bound - Size(Val(s.view[r]))
  {
    assert CountAt(s, r) && LinkedAt(g, s, r);
    if s.owned[r] > 0 {
      h := r;
    } else {
      var p :| p in LeftParents(s, r) + RightParents(s, r);
      assert LinkedAt(g, s, p);
      h := HeldAbove(g, s, p, bound);
      SubIsView(g, s, h, p);
      ReachesTrans(s.view[h], p, r);
    }
  }

  /** Every attached cell is reachable from a held reference: nothing is leaked. */
  lemma NoLeak<E, A>(g: Augment<E, A>, s: Sys<E, A>, r: Ref)
    requires Valid(g, s) && r in s.view
    ensures exists h :: h in s.owned && h in s.view && Reaches(s.view[h], r)
  {
    var b := SizeBound(s.view, s.view.Keys);
    var h := HeldAbove(g, s, r, b);
  }
}
