/** The copy-on-write discipline that the map operations share. A node is handed over either with the
    reference to it, or lent (`extra`): then the caller keeps it alive through the reference `h`. */
module HeapOps {
  import opened Trees
  import opened Heap
  import opened Stores
  import opened Joins

  /** The reference handed over with `b`, if any. */
  function TokIf(b: Ref, extra: bool): multiset<Ref> {
    if extra then multiset{} else Tok(b)
  }

  /** What stays held of `b` while its children are worked on, and the loose cell if it is reused. */
  function Hold(b: Ref, copy: bool, extra: bool): multiset<Ref> {
    if copy && !extra then Tok(b) else multiset{}
  }

  function HoldL(b: Ref, copy: bool): set<Ref> {
    if copy then {} else {b}
  }

  /** The reference that keeps the children of `b` alive while they are lent. */
  function Keeper(b: Ref, extra: bool, h: Ref): Ref {
    if extra then h else b
  }

  /** `b` is reachable from the reference `h` of the frame. */
  ghost predicate Lent<E>(view: map<Ref, Spine<E>>, b: Ref, h: Ref, frame: multiset<Ref>) {
    b == 0 || (h in frame && h in view && Reaches(view[h], b))
  }

  ghost predicate OpPre<E, A>(st: Store<E, A>, b: Ref, extra: bool, h: Ref, frame: multiset<Ref>, lf: set<Ref>)
    reads st
  {
    && Valid(st.g, st.S()) && Loose(st.S()) == lf && st.owned == frame + TokIf(b, extra)
    && (extra ==> Lent(st.view, b, h, frame))
  }

  /** The cell `b` can still be read, and holds the entry `e`. */
  ghost predicate Hand<E, A>(s: Sys<E, A>, b: Ref, copy: bool, k: Ref, frame: multiset<Ref>, lf: set<Ref>, e: E) {
    && b != 0 && b in s.mem && s.mem[b].entry == e
    && if copy then b in s.view && Lent(s.view, b, k, frame) else b in lf
  }

  /** A node that is to be copied and then given up is held elsewhere too, so that it can still be read. */
  ghost predicate Outlives<E, A>(s: Sys<E, A>, b: Ref, copy: bool, extra: bool) {
    b in s.mem && (copy && !extra ==> s.mem[b].cnt > 1)
  }

  lemma LentKept<E, A>(g: Augment<E, A>, s0: Sys<E, A>, s1: Sys<E, A>, b: Ref, h: Ref, frame: multiset<Ref>,
                       lf: set<Ref>)
    requires Valid(g, s0) && Valid(g, s1) && Kept(s0, s1, frame, lf) && Lent(s0.view, b, h, frame)
    ensures Lent(s1.view, b, h, frame)
    ensures Points(s0.view, b) && Points(s1.view, b) && At0(s1.view, b) == At0(s0.view, b)
  {
    if b == 0 {
      assert 0 !in s0.mem && 0 !in s1.mem;
    } else {
      SubIsView(g, s0, h, b);
      SubIsView(g, s1, h, b);
    }
  }

  lemma LentChild<E, A>(g: Augment<E, A>, s: Sys<E, A>, b: Ref, h: Ref, frame: multiset<Ref>)
    requires Valid(g, s) && b != 0 && Lent(s.view, b, h, frame)
    ensures b in s.view && Lent(s.view, s.mem[b].lc, h, frame) && Lent(s.view, s.mem[b].rc, h, frame)
  {
    SubIsView(g, s, h, b);
    assert LinkedAt(g, s, b);
    if s.mem[b].lc != 0 {
      assert LinkedAt(g, s, s.mem[b].lc);
      ReachesTrans(s.view[h], b, s.mem[b].lc);
    }
    if s.mem[b].rc != 0 {
      assert LinkedAt(g, s, s.mem[b].rc);
      ReachesTrans(s.view[h], b, s.mem[b].rc);
    }
  }

  lemma HandKept<E, A>(g: Augment<E, A>, s0: Sys<E, A>, s1: Sys<E, A>, b: Ref, copy: bool, k: Ref, frame: multiset<Ref>,
                       lf: set<Ref>, e: E)
    requires Valid(g, s0) && Valid(g, s1) && Kept(s0, s1, frame, lf) && Hand(s0, b, copy, k, frame, lf, e)
    ensures Hand(s1, b, copy, k, frame, lf, e)
  {
    if copy {
      LentKept(g, s0, s1, b, k, frame, lf);
      assert LinkedAt(g, s0, b) && LinkedAt(g, s1, b);
    }
  }

  // -------------------- entering a node --------------------

  /** Decides whether `b` must be copied. If not, it becomes a loose cell and its children are handed over. */
  method Enter<E, A>(st: Store<E, A>, b: Ref, extra: bool, ghost h: Ref, ghost frame: multiset<Ref>, ghost lf: set<Ref>)
    returns (copy: bool)
    requires OpPre(st, b, extra, h, frame, lf) && b != 0
    modifies st`view, st`owned
    ensures Valid(st.g, st.S()) && b in st.mem && Loose(st.S()) == lf + HoldL(b, copy)
    ensures st.owned == frame + Hold(b, copy, extra) + TokIf(st.mem[b].lc, copy) + TokIf(st.mem[b].rc, copy)
    ensures Kept(old(st.S()), st.S(), frame, lf) && Pending(st.S(), b) == old(TreeAt(st.view, b))
    ensures Points(st.view, st.mem[b].lc) && Points(st.view, st.mem[b].rc) && (extra ==> copy)
    ensures Entered(st.S(), b, copy, Keeper(b, extra, h), frame + Hold(b, copy, extra), lf)
    ensures Outlives(st.S(), b, copy, extra)
  {
    ghost var s0 := st.S();
    if extra {
      LentChild(st.g, s0, b, h, frame);
    } else {
      OwnedPoints(st.g, s0, b);
    }
    assert LinkedAt(st.g, s0, b);
    copy := extra || st.mem[b].cnt > 1;
    if copy {
      FrameHeld(st.g, s0, frame);
      assert Kept(s0, s0, frame, lf);
      if !extra {
        assert b in frame + Tok(b);
        LentChild(st.g, s0, b, b, frame + Tok(b));
      }
    } else {
      st.Unlink(b, frame, lf);
      OwnedPoints(st.g, st.S(), st.mem[b].lc);
      OwnedPoints(st.g, st.S(), st.mem[b].rc);
    }
  }

  ghost predicate Entered<E, A>(s: Sys<E, A>, b: Ref, copy: bool, k: Ref, frame: multiset<Ref>, lf: set<Ref>) {
    && b in s.mem && Hand(s, b, copy, k, frame, lf + HoldL(b, copy), s.mem[b].entry)
    && (copy ==> Lent(s.view, s.mem[b].lc, k, frame) && Lent(s.view, s.mem[b].rc, k, frame))
    && (!copy ==> b !in lf)
  }

  lemma Swap(a: multiset<Ref>, b: multiset<Ref>, c: multiset<Ref>)
    ensures a + b + c == a + c + b
  {
  }

  lemma Last(a: multiset<Ref>, b: multiset<Ref>, c: multiset<Ref>, d: multiset<Ref>)
    ensures a + b + c + d == a + c + d + b && a + b + c + d == a + d + c + b
  {
  }

  method IncIf<E, A>(st: Store<E, A>, t: Ref, copy: bool, ghost frame: multiset<Ref>, ghost lf: set<Ref>)
    requires Valid(st.g, st.S()) && Points(st.view, t) && st.owned == frame + TokIf(t, copy) && Loose(st.S()) == lf
    modifies st`mem, st`owned
    ensures Yields(st.g, old(st.S()), st.S(), frame, lf, t, old(TreeAt(st.view, t)))
    ensures forall q, c, x :: Outlives(old(st.S()), q, c, x) ==> Outlives(st.S(), q, c, x)
  {
    ghost var s0 := st.S();
    if copy {
      st.Increment(t);
    }
    assert forall q :: q in lf ==> q in Loose(s0);
    WrittenKept(st.g, s0, st.S(), frame, lf);
  }

  /** What holds between entering `b` and putting it back together: `b` is readable, child `x` is held, and child `y`
      is next. */
  ghost predicate Inside<E, A>(st: Store<E, A>, b: Ref, copy: bool, extra: bool, h: Ref, x: Ref, y: Ref, e: E,
                               frame: multiset<Ref>, lf: set<Ref>)
    reads st
  {
    && OpPre(st, y, copy, Keeper(b, extra, h), frame + Hold(b, copy, extra) + Tok(x), lf + HoldL(b, copy))
    && Hand(st.S(), b, copy, Keeper(b, extra, h), frame + Hold(b, copy, extra), lf + HoldL(b, copy), e)
    && (!copy ==> b !in lf)
  }

  /** Enters `b`, keeps its left child and goes on with the right one. */
  method EnterRight<E, A>(st: Store<E, A>, b: Ref, extra: bool, ghost h: Ref, ghost frame: multiset<Ref>,
                          ghost lf: set<Ref>) returns (copy: bool, l: Ref, r: Ref)
    requires OpPre(st, b, extra, h, frame, lf) && b != 0
    modifies st
    ensures b in old(st.mem) && Inside(st, b, copy, extra, h, l, r, old(st.mem[b].entry), frame, lf)
    ensures Outlives(st.S(), b, copy, extra)
    ensures Kept(old(st.S()), st.S(), frame, lf)
    ensures old(TreeAt(st.view, b)) == Node(TreeAt(st.view, l), old(st.mem[b].entry), TreeAt(st.view, r))
  {
    ghost var s0 := st.S();
    copy := Enter(st, b, extra, h, frame, lf);
    l, r := st.mem[b].lc, st.mem[b].rc;
    ghost var s1 := st.S();
    ghost var fr := frame + Hold(b, copy, extra);
    Swap(fr, TokIf(l, copy), TokIf(r, copy));
    IncIf(st, l, copy, fr + TokIf(r, copy), lf + HoldL(b, copy));
    Swap(fr, TokIf(r, copy), Tok(l));
    EnteredKept(st.g, s0, s1, st.S(), b, copy, extra, h, l, r, TokIf(r, copy), frame, lf);
  }

  /** Enters `b`, keeps its right child and goes on with the left one. */
  method EnterLeft<E, A>(st: Store<E, A>, b: Ref, extra: bool, ghost h: Ref, ghost frame: multiset<Ref>,
                         ghost lf: set<Ref>) returns (copy: bool, l: Ref, r: Ref)
    requires OpPre(st, b, extra, h, frame, lf) && b != 0
    modifies st
    ensures b in old(st.mem) && Inside(st, b, copy, extra, h, r, l, old(st.mem[b].entry), frame, lf)
    ensures Kept(old(st.S()), st.S(), frame, lf)
    ensures old(TreeAt(st.view, b)) == Node(TreeAt(st.view, l), old(st.mem[b].entry), TreeAt(st.view, r))
  {
    ghost var s0 := st.S();
    copy := Enter(st, b, extra, h, frame, lf);
    l, r := st.mem[b].lc, st.mem[b].rc;
    ghost var s1 := st.S();
    ghost var fr := frame + Hold(b, copy, extra);
    IncIf(st, r, copy, fr + TokIf(l, copy), lf + HoldL(b, copy));
    Swap(fr, TokIf(l, copy), Tok(r));
    EnteredKept(st.g, s0, s1, st.S(), b, copy, extra, h, l, r, TokIf(l, copy), frame, lf);
  }

  /** What is handed over or lent is a live node. */
  lemma OpReadable<E, A>(st: Store<E, A>, b: Ref, extra: bool, h: Ref, frame: multiset<Ref>, lf: set<Ref>)
    requires OpPre(st, b, extra, h, frame, lf)
    ensures Points(st.view, b)
    ensures b != 0 ==> b in st.mem && TreeAt(st.view, b).Node? && TreeAt(st.view, b).entry == st.mem[b].entry
    ensures b != 0 ==> st.mem[b].size == Size(TreeAt(st.view, b))
    ensures b == 0 ==> TreeAt(st.view, b) == Leaf
  {
    if extra && b != 0 {
      SubIsView(st.g, st.S(), h, b);
    } else if !extra {
      OwnedPoints(st.g, st.S(), b);
    }
    ChildCache(st.g, st.S(), b);
  }

  /** Taking a reference to a child changes nothing that has been entered. */
  lemma EnteredKept<E, A>(g: Augment<E, A>, s0: Sys<E, A>, s1: Sys<E, A>, s2: Sys<E, A>, b: Ref, copy: bool,
                          extra: bool, h: Ref, l: Ref, r: Ref, rest: multiset<Ref>, frame: multiset<Ref>, lf: set<Ref>)
    requires Valid(g, s1) && Valid(g, s2) && s2.view == s1.view
    requires Kept(s1, s2, frame + Hold(b, copy, extra) + rest, lf + HoldL(b, copy)) && Kept(s0, s1, frame, lf)
    requires Entered(s1, b, copy, Keeper(b, extra, h), frame + Hold(b, copy, extra), lf)
    requires l == s1.mem[b].lc && r == s1.mem[b].rc
    ensures Kept(s0, s2, frame, lf)
    ensures Hand(s2, b, copy, Keeper(b, extra, h), frame + Hold(b, copy, extra), lf + HoldL(b, copy), s1.mem[b].entry)
    ensures copy ==> Lent(s2.view, l, Keeper(b, extra, h), frame + Hold(b, copy, extra))
    ensures copy ==> Lent(s2.view, r, Keeper(b, extra, h), frame + Hold(b, copy, extra))
  {
    var fr := frame + Hold(b, copy, extra);
    assert Kept(s1, s2, fr, lf + HoldL(b, copy));
    HandKept(g, s1, s2, b, copy, Keeper(b, extra, h), fr, lf + HoldL(b, copy), s1.mem[b].entry);
    KeptTrans(s0, s1, s2, frame, lf, frame, lf);
  }

  // -------------------- leaving a node --------------------

  /** A loose cell with the entry of `b`: `b` itself, or a fresh cell, and then what was held of `b` is given up. */
  method CopyIf<E, A>(st: Store<E, A>, b: Ref, copy: bool, extra: bool, ghost k: Ref, ghost e: E,
                      ghost frame: multiset<Ref>, ghost lf: set<Ref>) returns (o: Ref)
    requires Valid(st.g, st.S()) && st.owned == frame + Hold(b, copy, extra) && Loose(st.S()) == lf + HoldL(b, copy)
    requires Hand(st.S(), b, copy, k, frame + Hold(b, copy, extra), lf + HoldL(b, copy), e) && (!copy ==> b !in lf)
    modifies st
    ensures Valid(st.g, st.S()) && st.owned == frame && o in st.mem && o !in lf && Loose(st.S()) == lf + {o}
    ensures st.mem[o].entry == e && Kept(old(st.S()), st.S(), frame, lf)
    ensures old(Outlives(st.S(), b, copy, extra)) ==> b in st.mem && st.mem[b].entry == e
  {
    ghost var s0 := st.S();
    if copy {
      o := st.MakeNode(st.mem[b].entry);
      ghost var s1 := st.S();
      MadeKept(st.g, s0, s1, o, frame + Hold(b, copy, extra), lf);
      if !extra {
        st.DecrementRecursive(b, frame);
      }
    } else {
      o := b;
      FrameHeld(st.g, s0, frame);
      assert forall q :: q in lf ==> q in Loose(s0);
      assert Kept(s0, s0, frame, lf);
    }
  }

  lemma MadeKept<E, A>(g: Augment<E, A>, s0: Sys<E, A>, s1: Sys<E, A>, o: Ref, frame: multiset<Ref>, lf: set<Ref>)
    requires Valid(g, s0) && s0.owned == frame && Loose(s0) == lf && o !in s0.mem && o in s1.mem
    requires s1 == s0.(mem := s0.mem[o := s1.mem[o]])
    ensures Kept(s0, s1, frame, lf) && o !in lf
  {
  }

  /** Gives up what is held of `b` when it is not needed any more. */
  method DecIf<E, A>(st: Store<E, A>, b: Ref, copy: bool, extra: bool, ghost frame: multiset<Ref>, ghost lf: set<Ref>)
    requires Valid(st.g, st.S()) && st.owned == frame + Hold(b, copy, extra) && Loose(st.S()) == lf + HoldL(b, copy)
    requires !copy ==> b !in lf && !extra
    modifies st
    ensures Valid(st.g, st.S()) && st.owned == frame && Loose(st.S()) == lf && Kept(old(st.S()), st.S(), frame, lf)
  {
    ghost var s0 := st.S();
    assert forall q :: q in lf ==> q in Loose(s0);
    if extra {
      FrameHeld(st.g, s0, frame);
    } else if copy {
      st.DecrementRecursive(b, frame);
    } else {
      assert b in Loose(s0);
      st.FreeNode(b);
      WrittenKept(st.g, s0, st.S(), frame, lf);
    }
  }

  /** Puts a node back together over the trees `l` and `r` that its children have become, with entry `e'`. */
  method Rejoin<E, A>(st: Store<E, A>, b: Ref, copy: bool, extra: bool, l: Ref, r: Ref, e': E,
                      ghost k: Ref, ghost e: E, ghost s0: Sys<E, A>, ghost frame: multiset<Ref>, ghost lf: set<Ref>)
    returns (t: Ref)
    requires Valid(st.g, st.S()) && st.owned == frame + Tok(l) + Tok(r) + Hold(b, copy, extra)
             && Loose(st.S()) == lf + HoldL(b, copy)
    requires Hand(st.S(), b, copy, k, frame + Hold(b, copy, extra), lf + HoldL(b, copy), e) && (!copy ==> b !in lf)
    requires Kept(s0, st.S(), frame, lf)
    modifies st
    ensures Yields(st.g, s0, st.S(), frame, lf, t,
            Join(st.scheme, old(TreeAt(st.view, l)), e', old(TreeAt(st.view, r))))
    ensures Unique(st.S(), t)
  {
    ghost var s1 := st.S();
    ghost var fr := frame + Tok(l) + Tok(r);
    assert Hand(s1, b, copy, k, fr + Hold(b, copy, extra), lf + HoldL(b, copy), e);
    var o := CopyIf(st, b, copy, extra, k, e, fr, lf);
    ghost var s2 := st.S();
    RejoinKept(st.g, s0, s1, s2, l, r, frame, lf);
    t := JoinAt(st, o, l, r, e', s0, frame, lf);
  }

  /** Sets the entry of the loose cell `o` and joins the trees `l` and `r` around it. */
  method JoinAt<E, A>(st: Store<E, A>, o: Ref, l: Ref, r: Ref, e: E, ghost s0: Sys<E, A>,
                      ghost frame: multiset<Ref>, ghost lf: set<Ref>) returns (t: Ref)
    requires Valid(st.g, st.S()) && st.owned == frame + Tok(l) + Tok(r)
    requires o in st.mem && o !in lf && Loose(st.S()) == lf + {o} && Kept(s0, st.S(), frame, lf)
    modifies st
    ensures Yields(st.g, s0, st.S(), frame, lf, t,
            Join(st.scheme, old(TreeAt(st.view, l)), e, old(TreeAt(st.view, r))))
    ensures Unique(st.S(), t)
  {
    ghost var s2 := st.S();
    assert o in Loose(s2);
    st.Write(o, st.mem[o].(entry := e));
    ghost var s3 := st.S();
    assert Kept(s0, s3, frame, lf) by {
      assert forall q :: q in lf ==> q in Loose(s2);
      WrittenKept(st.g, s2, s3, frame, lf);
      KeptTrans(s0, s2, s3, frame, lf, frame, lf);
    }
    t := NodeJoin(st, l, r, o, frame, lf);
    YieldsAfter(st.g, s0, s3, st.S(), frame, lf, t, TreeAt(st.view, t));
  }

  lemma RejoinKept<E, A>(g: Augment<E, A>, s0: Sys<E, A>, s1: Sys<E, A>, s2: Sys<E, A>, l: Ref, r: Ref,
                         frame: multiset<Ref>, lf: set<Ref>)
    requires Valid(g, s1) && Valid(g, s2) && Kept(s0, s1, frame, lf) && Kept(s1, s2, frame + Tok(l) + Tok(r), lf)
    ensures TreeAt(s2.view, l) == TreeAt(s1.view, l) && TreeAt(s2.view, r) == TreeAt(s1.view, r)
    ensures Kept(s0, s2, frame, lf) && (forall q :: q in lf ==> q in s2.mem)
  {
  }

  /** After the work on one child has returned `y`, the node `b` and its other child `x` are as they were. */
  lemma Returned<E, A>(g: Augment<E, A>, s0: Sys<E, A>, s1: Sys<E, A>, s2: Sys<E, A>, b: Ref, copy: bool, extra: bool,
                       h: Ref, x: Ref, y: Ref, e: E, tree: Tree<E>, frame: multiset<Ref>, lf: set<Ref>)
    requires Valid(g, s1) && Kept(s0, s1, frame, lf)
    requires Hand(s1, b, copy, Keeper(b, extra, h), frame + Hold(b, copy, extra), lf + HoldL(b, copy), e)
    requires Yields(g, s1, s2, frame + Hold(b, copy, extra) + Tok(x), lf + HoldL(b, copy), y, tree)
    ensures Kept(s0, s2, frame, lf) && TreeAt(s2.view, x) == TreeAt(s1.view, x)
    ensures Hand(s2, b, copy, Keeper(b, extra, h), frame + Hold(b, copy, extra), lf + HoldL(b, copy), e)
    ensures s2.owned == frame + Tok(x) + Tok(y) + Hold(b, copy, extra)
    ensures s2.owned == frame + Tok(y) + Tok(x) + Hold(b, copy, extra)
  {
    var fr, l := frame + Hold(b, copy, extra), lf + HoldL(b, copy);
    Last(frame, Hold(b, copy, extra), Tok(x), Tok(y));
    TreeKept(g, s1, s2, fr + Tok(x), l, x);
    HandKept(g, s1, s2, b, copy, Keeper(b, extra, h), fr, l, e);
    KeptTrans(s0, s1, s2, frame, lf, frame, lf);
  }

  // -------------------- two trees at once --------------------

  ghost predicate OpPre2<E, A>(st: Store<E, A>, b1: Ref, b2: Ref, extra1: bool, extra2: bool, h1: Ref, h2: Ref,
                               frame: multiset<Ref>, lf: set<Ref>)
    reads st
  {
    && Valid(st.g, st.S()) && Loose(st.S()) == lf && st.owned == frame + TokIf(b1, extra1) + TokIf(b2, extra2)
    && (extra1 ==> Lent(st.view, b1, h1, frame)) && (extra2 ==> Lent(st.view, b2, h2, frame))
  }

  /** A tree that is waiting for its turn, handed over or lent, is not touched meanwhile. */
  lemma WaitingKept<E, A>(g: Augment<E, A>, s0: Sys<E, A>, s1: Sys<E, A>, b: Ref, extra: bool, h: Ref,
                          frame: multiset<Ref>, lf: set<Ref>)
    requires Valid(g, s0) && Valid(g, s1) && Kept(s0, s1, frame + TokIf(b, extra), lf)
             && (extra ==> Lent(s0.view, b, h, frame))
    ensures At0(s1.view, b) == At0(s0.view, b) && (extra ==> Lent(s1.view, b, h, frame))
    ensures Kept(s0, s1, frame, lf)
  {
    if extra {
      LentKept(g, s0, s1, b, h, frame, lf);
    } else {
      TreeKept(g, s0, s1, frame + TokIf(b, extra), lf, b);
    }
  }

  /** Entering one of two trees: the other one waits. */
  ghost predicate Inside2<E, A>(st: Store<E, A>, b: Ref, copy: bool, extra: bool, h: Ref, x: Ref, y: Ref, e: E,
                                w: Ref, extraw: bool, hw: Ref, frame: multiset<Ref>, lf: set<Ref>)
    reads st
  {
    && OpPre2(st, y, w, copy, extraw, Keeper(b, extra, h), hw, frame + Hold(b, copy, extra) + Tok(x),
        lf + HoldL(b, copy))
    && Hand(st.S(), b, copy, Keeper(b, extra, h), frame + Hold(b, copy, extra), lf + HoldL(b, copy), e)
    && (!copy ==> b !in lf)
  }

  lemma InsideBoth<E, A>(st: Store<E, A>, s0: Sys<E, A>, b: Ref, copy: bool, extra: bool, h: Ref, x: Ref, y: Ref, e: E,
                         w: Ref, extraw: bool, hw: Ref, frame: multiset<Ref>, lf: set<Ref>)
    requires Valid(st.g, s0) && (extraw ==> Lent(s0.view, w, hw, frame)) && (extra ==> h in frame)
    requires Kept(s0, st.S(), frame + TokIf(w, extraw), lf)
    requires Inside(st, b, copy, extra, h, x, y, e, frame + TokIf(w, extraw), lf)
    ensures Inside2(st, b, copy, extra, h, x, y, e, w, extraw, hw, frame, lf)
    ensures Kept(s0, st.S(), frame, lf) && At0(st.view, w) == At0(s0.view, w)
  {
    WaitingKept(st.g, s0, st.S(), w, extraw, hw, frame, lf);
    var k := Keeper(b, extra, h);
    assert copy ==> k in frame + Hold(b, copy, extra);
  }

  lemma Readable2<E, A>(st: Store<E, A>, b1: Ref, b2: Ref, extra1: bool, extra2: bool, h1: Ref, h2: Ref,
                        frame: multiset<Ref>, lf: set<Ref>)
    requires OpPre2(st, b1, b2, extra1, extra2, h1, h2, frame, lf)
    ensures OpPre(st, b2, extra2, h2, frame + TokIf(b1, extra1), lf)
            && OpPre(st, b1, extra1, h1, frame + TokIf(b2, extra2), lf)
    ensures Points(st.view, b1) && Points(st.view, b2)
    ensures b1 != 0 ==> b1 in st.mem && TreeAt(st.view, b1).Node? && st.mem[b1].size == Size(TreeAt(st.view, b1))
    ensures b2 != 0 ==> b2 in st.mem && TreeAt(st.view, b2).Node? && st.mem[b2].size == Size(TreeAt(st.view, b2))
    ensures b1 == 0 ==> TreeAt(st.view, b1) == Leaf
    ensures b2 == 0 ==> TreeAt(st.view, b2) == Leaf
  {
    Swap(frame, TokIf(b1, extra1), TokIf(b2, extra2));
    OpReadable(st, b1, extra1, h1, frame + TokIf(b2, extra2), lf);
    OpReadable(st, b2, extra2, h2, frame + TokIf(b1, extra1), lf);
  }

  /** The result `t` of the work on the children survives giving up their parent. */
  lemma Dropped<E, A>(g: Augment<E, A>, s0: Sys<E, A>, s1: Sys<E, A>, s2: Sys<E, A>, s3: Sys<E, A>, t: Ref,
                      tree: Tree<E>, big: multiset<Ref>, bigl: set<Ref>, frame: multiset<Ref>, lf: set<Ref>)
    requires Kept(s0, s1, frame, lf) && Yields(g, s1, s2, big, bigl, t, tree) && frame <= big && lf <= bigl
    requires Valid(g, s3) && s3.owned == frame + Tok(t) && Loose(s3) == lf && Kept(s2, s3, frame + Tok(t), lf)
    ensures Yields(g, s0, s3, frame, lf, t, tree)
  {
    TreeKept(g, s2, s3, frame + Tok(t), lf, t);
    KeptTrans(s0, s1, s2, frame, lf, frame, lf);
    KeptTrans(s0, s2, s3, frame, lf, frame, lf);
  }
}
