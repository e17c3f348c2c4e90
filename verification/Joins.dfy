/** Join on the mutable store: the balance tests on cached fields, rebalancing, and the joins of the three schemes. */
module Joins {
  import opened Trees
  import opened Heap
  import opened Stores

  /** The balance test on cached sizes and heights. */
  predicate IsLeftHeavy<E, A>(st: Store<E, A>, t1: Ref, t2: Ref)
    reads st
  {
    match st.scheme
    case WeightBalanced => 29 * (st.SizeOf(t1) + 1) > 71 * (st.SizeOf(t2) + 1)
    case Avl => st.HeightOf(t1) > st.HeightOf(t2) + 1
    case Treap(_) => false
  }

  predicate IsSingleRotation<E, A>(st: Store<E, A>, t: Ref, dir: bool)
    requires t in st.mem
    reads st
  {
    var c := st.mem[t];
    match st.scheme
    case WeightBalanced => 71 * (st.SizeOf(if dir then c.rc else c.lc) + 1) <= 42 * (c.size + 1)
    case Avl => if dir then st.HeightOf(c.lc) > st.HeightOf(c.rc) else st.HeightOf(c.lc) <= st.HeightOf(c.rc)
    case Treap(_) => true
  }

  lemma LeftHeavyCached<E, A>(st: Store<E, A>, t1: Ref, t2: Ref)
    requires Valid(st.g, st.S()) && Points(st.view, t1) && Points(st.view, t2)
    ensures IsLeftHeavy(st, t1, t2) == LeftHeavy(st.scheme, TreeAt(st.view, t1), TreeAt(st.view, t2))
  {
    ChildCache(st.g, st.S(), t1);
    ChildCache(st.g, st.S(), t2);
  }

  lemma SingleRotationCached<E, A>(st: Store<E, A>, t: Ref, dir: bool)
    requires Valid(st.g, st.S()) && t in st.view
    ensures TreeAt(st.view, t).Node?
    ensures IsSingleRotation(st, t, dir) == SingleRotation(st.scheme, TreeAt(st.view, t), dir)
  {
    assert LinkedAt(st.g, st.S(), t);
    ChildCache(st.g, st.S(), t);
    ChildCache(st.g, st.S(), st.mem[t].lc);
    ChildCache(st.g, st.S(), st.mem[t].rc);
  }

  /** Rebalances the loose cell `t` after its right child has grown. */
  method FixRight<E, A>(st: Store<E, A>, t: Ref, ghost frame: multiset<Ref>, ghost lf: set<Ref>) returns (root: Ref)
    requires Open(st.g, st.S(), t, frame, lf) && (st.mem[t].rc != 0 ==> Unique(st.S(), st.mem[t].rc))
    modifies st
    ensures Yields(st.g, old(st.S()), st.S(), frame, lf, root, old(Trees.FixRight(st.scheme, Pending(st.S(), t))))
    ensures Unique(st.S(), root)
  {
    var l, r := st.mem[t].lc, st.mem[t].rc;
    OwnedPoints(st.g, st.S(), l);
    OwnedPoints(st.g, st.S(), r);
    LeftHeavyCached(st, r, l);
    if IsLeftHeavy(st, r, l) {
      assert r != 0 by { ChildCache(st.g, st.S(), r); }
      SingleRotationCached(st, r, false);
      if IsSingleRotation(st, r, false) {
        ghost var s0 := st.S();
        OpenChild(st, t, r, l, frame, lf);
        ghost var s1 := st.S();
        root := st.RotateLeft(t, frame, lf);
        YieldsAfter(st.g, s0, s1, st.S(), frame, lf, root, Trees.FixRight(st.scheme, Pending(s0, t)));
      } else {
        ghost var s0 := st.S();
        OpenChild(st, t, r, l, frame, lf);
        ghost var s1 := st.S();
        root := st.DoubleRotateLeft(t, frame, lf);
        YieldsAfter(st.g, s0, s1, st.S(), frame, lf, root, Trees.FixRight(st.scheme, Pending(s0, t)));
      }
    } else {
      st.Update(t, frame, lf);
      root := t;
    }
  }

  /** Rebalances the loose cell `t` after its left child has grown. */
  method FixLeft<E, A>(st: Store<E, A>, t: Ref, ghost frame: multiset<Ref>, ghost lf: set<Ref>) returns (root: Ref)
    requires Open(st.g, st.S(), t, frame, lf) && (st.mem[t].lc != 0 ==> Unique(st.S(), st.mem[t].lc))
    modifies st
    ensures Yields(st.g, old(st.S()), st.S(), frame, lf, root, old(Trees.FixLeft(st.scheme, Pending(st.S(), t))))
    ensures Unique(st.S(), root)
  {
    var l, r := st.mem[t].lc, st.mem[t].rc;
    OwnedPoints(st.g, st.S(), l);
    OwnedPoints(st.g, st.S(), r);
    LeftHeavyCached(st, l, r);
    if IsLeftHeavy(st, l, r) {
      assert l != 0 by { ChildCache(st.g, st.S(), l); }
      SingleRotationCached(st, l, true);
      if IsSingleRotation(st, l, true) {
        ghost var s0 := st.S();
        OpenChild(st, t, l, r, frame, lf);
        ghost var s1 := st.S();
        root := st.RotateRight(t, frame, lf);
        YieldsAfter(st.g, s0, s1, st.S(), frame, lf, root, Trees.FixLeft(st.scheme, Pending(s0, t)));
      } else {
        ghost var s0 := st.S();
        OpenChild(st, t, l, r, frame, lf);
        ghost var s1 := st.S();
        root := st.DoubleRotateRight(t, frame, lf);
        YieldsAfter(st.g, s0, s1, st.S(), frame, lf, root, Trees.FixLeft(st.scheme, Pending(s0, t)));
      }
    } else {
      st.Update(t, frame, lf);
      root := t;
    }
  }

  /** The uniquely held child `c` of the loose cell `t` becomes loose as well. */
  ghost method OpenChild<E, A>(st: Store<E, A>, t: Ref, c: Ref, o: Ref, frame: multiset<Ref>, lf: set<Ref>)
    requires Open(st.g, st.S(), t, frame, lf) && Unique(st.S(), c)
    requires (st.mem[t].lc == c && st.mem[t].rc == o) || (st.mem[t].lc == o && st.mem[t].rc == c)
    modifies st`view, st`owned
    ensures Nested(st.g, st.S(), t, c, o, frame, lf) && Kept(old(st.S()), st.S(), frame, lf)
    ensures Pending(st.S(), c) == old(TreeAt(st.view, c)) && TreeAt(st.view, o) == old(TreeAt(st.view, o))
  {
    ghost var s0 := st.S();
    st.Unlink(c, frame + Tok(o), lf + {t});
    TreeKept(st.g, s0, st.S(), frame + Tok(o), lf + {t}, o);
  }

  // -------------------- join --------------------

  /** What a join is handed: two trees, and a loose cell with the middle entry. */
  ghost predicate JoinPre<E, A>(st: Store<E, A>, t1: Ref, t2: Ref, k: Ref, frame: multiset<Ref>, lf: set<Ref>)
    reads st
  {
    && Valid(st.g, st.S()) && st.owned == frame + Tok(t1) + Tok(t2)
    && k in st.mem && k !in lf && Loose(st.S()) == lf + {k}
  }

  lemma Turn(a: multiset<Ref>, b: multiset<Ref>, c: multiset<Ref>, d: multiset<Ref>)
    ensures a + b + c + d == a + d + b + c && a + b + c == a + c + b
  {
  }

  /** A root `t` has been copied while `x` waited, and a join below it is done while its other child `y` waited. */
  lemma Descended<E, A>(g: Augment<E, A>, s0: Sys<E, A>, s1: Sys<E, A>, s2: Sys<E, A>, t: Ref, k: Ref, x: Ref, y: Ref,
                        frame: multiset<Ref>, lf: set<Ref>)
    requires Valid(g, s1) && Valid(g, s2)
    requires Kept(s0, s1, frame + Tok(x), lf + {k}) && Kept(s1, s2, frame + Tok(y), lf + {t})
    ensures Kept(s0, s2, frame, lf) && t in s1.mem && t in s2.mem && s2.mem[t] == s1.mem[t]
    ensures Points(s2.view, y) && TreeAt(s2.view, y) == TreeAt(s1.view, y)
  {
    TreeKept(g, s1, s2, frame + Tok(y), lf + {t}, y);
  }

  /** Stores both children in a loose cell and rebalances it if the right one is too heavy. */
  method SettleRight<E, A>(st: Store<E, A>, p: Ref, l: Ref, r: Ref, ghost s0: Sys<E, A>, ghost frame: multiset<Ref>,
                      ghost lf: set<Ref>) returns (t: Ref)
    requires JoinPre(st, l, r, p, frame, lf) && Kept(s0, st.S(), frame, lf) && Unique(st.S(), r)
    modifies st
    ensures Yields(st.g, s0, st.S(), frame, lf, t,
            Trees.FixRight(st.scheme, Node(old(TreeAt(st.view, l)), old(st.mem[p].entry), old(TreeAt(st.view, r)))))
    ensures Unique(st.S(), t)
  {
    ghost var s2 := st.S();
    st.SetChildren(p, l, r, frame, lf);
    ghost var s3 := st.S();
    KeptTrans(s0, s2, s3, frame, lf, frame, lf);
    t := FixRight(st, p, frame, lf);
    YieldsAfter(st.g, s0, s3, st.S(), frame, lf, t, TreeAt(st.view, t));
  }

  method RightJoin<E, A>(st: Store<E, A>, t1: Ref, t2: Ref, k: Ref, ghost frame: multiset<Ref>, ghost lf: set<Ref>)
      returns (t: Ref)
    requires JoinPre(st, t1, t2, k, frame, lf)
    modifies st
    ensures Yields(st.g, old(st.S()), st.S(), frame, lf, t,
                   old(Trees.RightJoin(st.scheme, TreeAt(st.view, t1), st.mem[k].entry, TreeAt(st.view, t2))))
    ensures Unique(st.S(), t)
    decreases TreeAt(st.view, t1), 1
  {
    OwnedPoints(st.g, st.S(), t1);
    OwnedPoints(st.g, st.S(), t2);
    LeftHeavyCached(st, t1, t2);
    if !IsLeftHeavy(st, t1, t2) {
      st.BalancedJoin(t1, t2, k, frame, lf);
      t := k;
    } else {
      assert t1 != 0 by { ChildCache(st.g, st.S(), t1); }
      t := RightJoinBelow(st, t1, t2, k, frame, lf);
    }
  }

  /** The case where `t1` is too heavy: `t2` is joined into its right child. */
  method RightJoinBelow<E, A>(st: Store<E, A>, t1: Ref, t2: Ref, k: Ref, ghost frame: multiset<Ref>,
                         ghost lf: set<Ref>) returns (t: Ref)
    requires JoinPre(st, t1, t2, k, frame, lf) && t1 != 0
    modifies st
    ensures Unique(st.S(), t) && old(TreeAt(st.view, t1)).Node?
    ensures Yields(st.g, old(st.S()), st.S(), frame, lf, t,
                   old(var u := TreeAt(st.view, t1);
                       Trees.FixRight(st.scheme,
                           Node(u.lc, u.entry, Trees.RightJoin(st.scheme, u.rc, st.mem[k].entry,
                           TreeAt(st.view, t2))))))
    decreases TreeAt(st.view, t1), 0
  {
    ghost var s0 := st.S();
    t := st.CopyIfNeeded(t1, frame + Tok(t2), lf + {k});
    ghost var s1 := st.S();
    TreeKept(st.g, s0, s1, frame + Tok(t2), lf + {k}, t2);
    var l := st.mem[t].lc;
    var r := RightJoin(st, st.mem[t].rc, t2, k, frame + Tok(l), lf + {t});
    ghost var s2 := st.S();
    Descended(st.g, s0, s1, s2, t, k, t2, l, frame, lf);
    t := SettleRight(st, t, l, r, s0, frame, lf);
  }

  /** Stores both children in a loose cell and rebalances it if the left one is too heavy. */
  method SettleLeft<E, A>(st: Store<E, A>, p: Ref, l: Ref, r: Ref, ghost s0: Sys<E, A>, ghost frame: multiset<Ref>,
                      ghost lf: set<Ref>) returns (t: Ref)
    requires JoinPre(st, l, r, p, frame, lf) && Kept(s0, st.S(), frame, lf) && Unique(st.S(), l)
    modifies st
    ensures Yields(st.g, s0, st.S(), frame, lf, t,
            Trees.FixLeft(st.scheme, Node(old(TreeAt(st.view, l)), old(st.mem[p].entry), old(TreeAt(st.view, r)))))
    ensures Unique(st.S(), t)
  {
    ghost var s2 := st.S();
    st.SetChildren(p, l, r, frame, lf);
    ghost var s3 := st.S();
    KeptTrans(s0, s2, s3, frame, lf, frame, lf);
    t := FixLeft(st, p, frame, lf);
    YieldsAfter(st.g, s0, s3, st.S(), frame, lf, t, TreeAt(st.view, t));
  }

  method LeftJoin<E, A>(st: Store<E, A>, t1: Ref, t2: Ref, k: Ref, ghost frame: multiset<Ref>, ghost lf: set<Ref>)
      returns (t: Ref)
    requires JoinPre(st, t1, t2, k, frame, lf)
    modifies st
    ensures Yields(st.g, old(st.S()), st.S(), frame, lf, t,
                   old(Trees.LeftJoin(st.scheme, TreeAt(st.view, t1), st.mem[k].entry, TreeAt(st.view, t2))))
    ensures Unique(st.S(), t)
    decreases TreeAt(st.view, t2), 1
  {
    OwnedPoints(st.g, st.S(), t1);
    OwnedPoints(st.g, st.S(), t2);
    LeftHeavyCached(st, t2, t1);
    if !IsLeftHeavy(st, t2, t1) {
      st.BalancedJoin(t1, t2, k, frame, lf);
      t := k;
    } else {
      assert t2 != 0 by { ChildCache(st.g, st.S(), t2); }
      t := LeftJoinBelow(st, t1, t2, k, frame, lf);
    }
  }

  /** The case where `t2` is too heavy: `t1` is joined into its left child. */
  method LeftJoinBelow<E, A>(st: Store<E, A>, t1: Ref, t2: Ref, k: Ref, ghost frame: multiset<Ref>,
                         ghost lf: set<Ref>) returns (t: Ref)
    requires JoinPre(st, t1, t2, k, frame, lf) && t2 != 0
    modifies st
    ensures Unique(st.S(), t) && old(TreeAt(st.view, t2)).Node?
    ensures Yields(st.g, old(st.S()), st.S(), frame, lf, t,
                   old(var u := TreeAt(st.view, t2);
                       Trees.FixLeft(st.scheme,
                           Node(Trees.LeftJoin(st.scheme, TreeAt(st.view, t1), st.mem[k].entry, u.lc), u.entry, u.rc))))
    decreases TreeAt(st.view, t2), 0
  {
    ghost var s0 := st.S();
    t := st.CopyIfNeeded(t2, frame + Tok(t1), lf + {k});
    ghost var s1 := st.S();
    TreeKept(st.g, s0, s1, frame + Tok(t1), lf + {k}, t1);
    var r := st.mem[t].rc;
    Turn(frame, Tok(t1), Tok(st.mem[t].lc), Tok(r));
    var l := LeftJoin(st, t1, st.mem[t].lc, k, frame + Tok(r), lf + {t});
    ghost var s2 := st.S();
    Descended(st.g, s0, s1, s2, t, k, t1, r, frame, lf);
    Turn(frame, Tok(r), Tok(l), multiset{});
    t := SettleLeft(st, t, l, r, s0, frame, lf);
  }

  // -------------------- treap join --------------------

  function PriorityOf<E, A>(st: Store<E, A>, hash: E -> nat, t: Ref): nat
    reads st
  {
    if t in st.mem then hash(st.mem[t].entry) else 0
  }

  lemma PriorityCached<E, A>(st: Store<E, A>, hash: E -> nat, t: Ref)
    requires Valid(st.g, st.S()) && Points(st.view, t)
    ensures PriorityOf(st, hash, t) == Priority(hash, TreeAt(st.view, t))
    ensures PriorityOf(st, hash, t) > 0 ==> t != 0
  {
    ChildCache(st.g, st.S(), t);
  }

  method TreapJoin<E, A>(st: Store<E, A>, hash: E -> nat, t1: Ref, t2: Ref, k: Ref,
                         ghost frame: multiset<Ref>, ghost lf: set<Ref>) returns (t: Ref)
    requires JoinPre(st, t1, t2, k, frame, lf)
    modifies st
    ensures Yields(st.g, old(st.S()), st.S(), frame, lf, t,
                   old(Trees.TreapJoin(hash, TreeAt(st.view, t1), st.mem[k].entry, TreeAt(st.view, t2))))
    ensures Unique(st.S(), t)
    decreases Size(TreeAt(st.view, t1)) + Size(TreeAt(st.view, t2)), 1
  {
    OwnedPoints(st.g, st.S(), t1);
    OwnedPoints(st.g, st.S(), t2);
    PriorityCached(st, hash, t1);
    PriorityCached(st, hash, t2);
    var p, p1, p2 := hash(st.mem[k].entry), PriorityOf(st, hash, t1), PriorityOf(st, hash, t2);
    if p >= p1 && p >= p2 {
      st.BalancedJoin(t1, t2, k, frame, lf);
      t := k;
    } else if p1 > p2 {
      t := TreapJoinRight(st, hash, t1, t2, k, frame, lf);
    } else {
      t := TreapJoinLeft(st, hash, t1, t2, k, frame, lf);
    }
  }

  /** The case where the root of `t1` stays on top. */
  method TreapJoinRight<E, A>(st: Store<E, A>, hash: E -> nat, t1: Ref, t2: Ref, k: Ref,
                              ghost frame: multiset<Ref>, ghost lf: set<Ref>) returns (t: Ref)
    requires JoinPre(st, t1, t2, k, frame, lf) && t1 != 0
    modifies st
    ensures Unique(st.S(), t) && old(TreeAt(st.view, t1)).Node?
    ensures Yields(st.g, old(st.S()), st.S(), frame, lf, t,
                   old(var u := TreeAt(st.view, t1);
                       Node(u.lc, u.entry, Trees.TreapJoin(hash, u.rc, st.mem[k].entry, TreeAt(st.view, t2)))))
    decreases Size(TreeAt(st.view, t1)) + Size(TreeAt(st.view, t2)), 0
  {
    ghost var s0 := st.S();
    t := st.CopyIfNeeded(t1, frame + Tok(t2), lf + {k});
    ghost var s1 := st.S();
    TreeKept(st.g, s0, s1, frame + Tok(t2), lf + {k}, t2);
    var l := st.mem[t].lc;
    var r := TreapJoin(st, hash, st.mem[t].rc, t2, k, frame + Tok(l), lf + {t});
    ghost var s2 := st.S();
    Descended(st.g, s0, s1, s2, t, k, t2, l, frame, lf);
    Settle(st, t, l, r, s0, frame, lf);
  }

  /** The case where the root of `t2` stays on top. */
  method TreapJoinLeft<E, A>(st: Store<E, A>, hash: E -> nat, t1: Ref, t2: Ref, k: Ref,
                             ghost frame: multiset<Ref>, ghost lf: set<Ref>) returns (t: Ref)
    requires JoinPre(st, t1, t2, k, frame, lf) && t2 != 0
    modifies st
    ensures Unique(st.S(), t) && old(TreeAt(st.view, t2)).Node?
    ensures Yields(st.g, old(st.S()), st.S(), frame, lf, t,
                   old(var u := TreeAt(st.view, t2);
                       Node(Trees.TreapJoin(hash, TreeAt(st.view, t1), st.mem[k].entry, u.lc), u.entry, u.rc)))
    decreases Size(TreeAt(st.view, t1)) + Size(TreeAt(st.view, t2)), 0
  {
    ghost var s0 := st.S();
    t := st.CopyIfNeeded(t2, frame + Tok(t1), lf + {k});
    ghost var s1 := st.S();
    TreeKept(st.g, s0, s1, frame + Tok(t1), lf + {k}, t1);
    var r := st.mem[t].rc;
    Turn(frame, Tok(t1), Tok(st.mem[t].lc), Tok(r));
    var l := TreapJoin(st, hash, t1, st.mem[t].lc, k, frame + Tok(r), lf + {t});
    ghost var s2 := st.S();
    Descended(st.g, s0, s1, s2, t, k, t1, r, frame, lf);
    Turn(frame, Tok(r), Tok(l), multiset{});
    Settle(st, t, l, r, s0, frame, lf);
  }

  /** Stores both children in a loose cell and updates it. */
  method Settle<E, A>(st: Store<E, A>, t: Ref, l: Ref, r: Ref, ghost s0: Sys<E, A>, ghost frame: multiset<Ref>,
                      ghost lf: set<Ref>)
    requires JoinPre(st, l, r, t, frame, lf) && Kept(s0, st.S(), frame, lf)
    modifies st
    ensures Yields(st.g, s0, st.S(), frame, lf, t,
            Node(old(TreeAt(st.view, l)), old(st.mem[t].entry), old(TreeAt(st.view, r))))
    ensures Unique(st.S(), t)
  {
    ghost var s1 := st.S();
    st.BalancedJoin(l, r, t, frame, lf);
    YieldsAfter(st.g, s0, s1, st.S(), frame, lf, t, TreeAt(st.view, t));
  }

  // -------------------- the join of the map operations --------------------

  /** Joins two trees around the entry of the loose cell `k`, under the scheme of the store. */
  method NodeJoin<E, A>(st: Store<E, A>, t1: Ref, t2: Ref, k: Ref, ghost frame: multiset<Ref>, ghost lf: set<Ref>)
      returns (t: Ref)
    requires JoinPre(st, t1, t2, k, frame, lf)
    modifies st
    ensures Yields(st.g, old(st.S()), st.S(), frame, lf, t,
                   old(Join(st.scheme, TreeAt(st.view, t1), st.mem[k].entry, TreeAt(st.view, t2))))
    ensures Unique(st.S(), t)
  {
    OwnedPoints(st.g, st.S(), t1);
    OwnedPoints(st.g, st.S(), t2);
    LeftHeavyCached(st, t1, t2);
    LeftHeavyCached(st, t2, t1);
    if st.scheme.Treap? {
      t := TreapJoin(st, st.scheme.hash, t1, t2, k, frame, lf);
    } else if IsLeftHeavy(st, t1, t2) {
      t := RightJoin(st, t1, t2, k, frame, lf);
    } else if IsLeftHeavy(st, t2, t1) {
      t := LeftJoin(st, t1, t2, k, frame, lf);
    } else {
      st.BalancedJoin(t1, t2, k, frame, lf);
      t := k;
    }
  }
}
