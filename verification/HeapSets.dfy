/** Splitting in place, union, intersection and difference on the mutable store. */
module HeapSets {
  import opened Trees
  import opened Maps
  import opened Heap
  import opened Stores
  import opened Joins
  import opened HeapOps
  import opened HeapMaps

  // -------------------- split in place --------------------

  /** Splits a tree that is handed over, reusing the nodes that nothing else holds. */
  method SplitInplace<K, V, A>(st: Store<Entry<K, V>, A>, lt: (K, K) -> bool, b: Ref, k: K, ghost frame: multiset<Ref>,
                               ghost lf: set<Ref>) returns (first: Ref, mid: Option<Entry<K, V>>, second: Ref)
    requires OpPre(st, b, false, 0, frame, lf)
    modifies st
    ensures Halves(st.g, old(st.S()), st.S(), frame, lf, first, mid, second,
            Split(st.scheme, lt, old(TreeAt(st.view, b)), k))
    decreases TreeAt(st.view, b), 1
  {
    OpReadable(st, b, false, 0, frame, lf);
    if b == 0 {
      ghost var s0 := st.S();
      FrameHeld(st.g, s0, frame);
      assert forall q :: q in lf ==> q in Loose(s0);
      first, mid, second := 0, None, 0;
    } else if st.mem[b].cnt > 1 {
      first, mid, second := SplitShared(st, lt, b, k, frame, lf);
    } else {
      var bk := st.mem[b].entry.key;
      if lt(bk, k) {
        first, mid, second := SplitRight(st, lt, b, k, frame, lf);
      } else if lt(k, bk) {
        first, mid, second := SplitLeft(st, lt, b, k, frame, lf);
      } else {
        first, mid, second := SplitHere(st, b, frame, lf);
      }
    }
  }

  method SplitShared<K, V, A>(st: Store<Entry<K, V>, A>, lt: (K, K) -> bool, b: Ref, k: K, ghost frame: multiset<Ref>,
                              ghost lf: set<Ref>) returns (first: Ref, mid: Option<Entry<K, V>>, second: Ref)
    requires OpPre(st, b, false, 0, frame, lf) && b != 0
    modifies st
    ensures Halves(st.g, old(st.S()), st.S(), frame, lf, first, mid, second,
            Split(st.scheme, lt, old(TreeAt(st.view, b)), k))
  {
    ghost var s0 := st.S();
    OwnedPoints(st.g, s0, b);
    assert LinkedAt(st.g, s0, b) && b in frame + Tok(b);
    first, mid, second := SplitCopy(st, lt, b, k, b, frame + Tok(b), lf);
    ghost var s1 := st.S();
    Last(frame, Tok(b), Tok(first), Tok(second));
    st.DecrementRecursive(b, frame + Tok(first) + Tok(second));
    SharedDropped(st.g, s0, s1, st.S(), b, first, second, frame, lf);
  }

  lemma SharedDropped<E, A>(g: Augment<E, A>, s0: Sys<E, A>, s1: Sys<E, A>, s2: Sys<E, A>, b: Ref, t: Ref, u: Ref,
                            frame: multiset<Ref>, lf: set<Ref>)
    requires Valid(g, s1) && Valid(g, s2) && Kept(s0, s1, frame + Tok(b), lf)
             && Kept(s1, s2, frame + Tok(t) + Tok(u), lf)
    requires s2.owned == frame + Tok(t) + Tok(u) && Loose(s2) == lf
    ensures Yields2(g, s0, s2, frame, lf, t, TreeAt(s1.view, t), u, TreeAt(s1.view, u))
  {
    TreeKept(g, s1, s2, frame + Tok(t) + Tok(u), lf, t);
    TreeKept(g, s1, s2, frame + Tok(t) + Tok(u), lf, u);
    KeptTrans(s0, s1, s2, frame + Tok(b), lf, frame, lf);
  }

  method SplitHere<K, V, A>(st: Store<Entry<K, V>, A>, b: Ref, ghost frame: multiset<Ref>, ghost lf: set<Ref>)
    returns (first: Ref, mid: Option<Entry<K, V>>, second: Ref)
    requires OpPre(st, b, false, 0, frame, lf) && b in st.mem && st.mem[b].cnt <= 1
    modifies st
    ensures var u := old(TreeAt(st.view, b));
            u.Node? && Halves(st.g, old(st.S()), st.S(), frame, lf, first, mid, second,
                SplitInfo(u.lc, Some(u.entry), u.rc))
  {
    ghost var s0 := st.S();
    OwnedPoints(st.g, s0, b);
    first, mid, second := st.mem[b].lc, Some(st.mem[b].entry), st.mem[b].rc;
    st.Unlink(b, frame, lf);
    ghost var s1 := st.S();
    OwnedPoints(st.g, s1, first);
    OwnedPoints(st.g, s1, second);
    st.FreeNode(b);
    FreedKept(s0, s1, st.S(), b, frame, lf);
  }

  lemma FreedKept<E, A>(s0: Sys<E, A>, s1: Sys<E, A>, s2: Sys<E, A>, b: Ref, frame: multiset<Ref>, lf: set<Ref>)
    requires Kept(s0, s1, frame, lf) && s2 == s1.(mem := s1.mem - {b}) && b !in lf
    ensures Kept(s0, s2, frame, lf)
  {
  }

  method SplitRight<K, V, A>(st: Store<Entry<K, V>, A>, lt: (K, K) -> bool, b: Ref, k: K, ghost frame: multiset<Ref>,
                             ghost lf: set<Ref>) returns (first: Ref, mid: Option<Entry<K, V>>, second: Ref)
    requires OpPre(st, b, false, 0, frame, lf) && b in st.mem && st.mem[b].cnt <= 1
    modifies st
    ensures old(TreeAt(st.view, b)).Node?
    ensures Halves(st.g, old(st.S()), st.S(), frame, lf, first, mid, second,
            SplitOverRight(st.scheme, lt, old(TreeAt(st.view, b)), k))
    decreases TreeAt(st.view, b), 0
  {
    ghost var s0 := st.S();
    OwnedPoints(st.g, s0, b);
    st.Unlink(b, frame, lf);
    ghost var s1 := st.S();
    var l := st.mem[b].lc;
    first, mid, second := SplitInplace(st, lt, st.mem[b].rc, k, frame + Tok(l), lf + {b});
    ghost var s2 := st.S();
    Swap(frame + Tok(l), Tok(first), Tok(second));
    Swap(frame, Tok(l), Tok(second));
    first := NodeJoin(st, l, first, b, frame + Tok(second), lf);
    JoinedOne(st.g, s0, s2, st.S(), frame, lf, first, TreeAt(st.view, first), second);
  }

  method SplitLeft<K, V, A>(st: Store<Entry<K, V>, A>, lt: (K, K) -> bool, b: Ref, k: K, ghost frame: multiset<Ref>,
                            ghost lf: set<Ref>) returns (first: Ref, mid: Option<Entry<K, V>>, second: Ref)
    requires OpPre(st, b, false, 0, frame, lf) && b in st.mem && st.mem[b].cnt <= 1
    modifies st
    ensures old(TreeAt(st.view, b)).Node?
    ensures Halves(st.g, old(st.S()), st.S(), frame, lf, first, mid, second,
            SplitOverLeft(st.scheme, lt, old(TreeAt(st.view, b)), k))
    decreases TreeAt(st.view, b), 0
  {
    ghost var s0 := st.S();
    OwnedPoints(st.g, s0, b);
    st.Unlink(b, frame, lf);
    ghost var s1 := st.S();
    var r := st.mem[b].rc;
    Swap(frame, Tok(st.mem[b].lc), Tok(r));
    first, mid, second := SplitInplace(st, lt, st.mem[b].lc, k, frame + Tok(r), lf + {b});
    ghost var s2 := st.S();
    Swap(frame, Tok(r), Tok(first));
    Swap(frame + Tok(first), Tok(r), Tok(second));
    second := NodeJoin(st, second, r, b, frame + Tok(first), lf);
    JoinedOne(st.g, s0, s2, st.S(), frame, lf, second, TreeAt(st.view, second), first);
  }

  // -------------------- union, intersection, difference --------------------

  /** The pivot node `b` of a set operation has been entered and the other tree split at its key into `f` and `s`.
      Next come `f` with the left child `l`, then `s` with the right child `r`. */
  ghost predicate Pivoted<E, A>(st: Store<E, A>, b: Ref, copy: bool, extra: bool, h: Ref, f: Ref, s: Ref, l: Ref,
                                r: Ref, e: E, frame: multiset<Ref>, lf: set<Ref>)
    reads st
  {
    && Valid(st.g, st.S()) && Loose(st.S()) == lf + HoldL(b, copy)
    && st.owned == frame + Hold(b, copy, extra) + Tok(s) + TokIf(r, copy) + Tok(f) + TokIf(l, copy)
    && (copy ==> Lent(st.view, l, Keeper(b, extra, h), frame + Hold(b, copy, extra)))
    && (copy ==> Lent(st.view, r, Keeper(b, extra, h), frame + Hold(b, copy, extra)))
    && Hand(st.S(), b, copy, Keeper(b, extra, h), frame + Hold(b, copy, extra), lf + HoldL(b, copy), e)
    && (!copy ==> b !in lf) && (extra ==> copy)
  }

  /** Enters the pivot `b` and splits the tree `o`, which is handed over, at its key. */
  method Pivot<K, V, A>(st: Store<Entry<K, V>, A>, lt: (K, K) -> bool, b: Ref, o: Ref, extra: bool,
                        ghost h: Ref, ghost frame: multiset<Ref>, ghost lf: set<Ref>)
    returns (copy: bool, e: Entry<K, V>, f: Ref, mid: Option<Entry<K, V>>, s: Ref, l: Ref, r: Ref)
    requires OpPre2(st, o, b, false, extra, 0, h, frame, lf) && b != 0
    modifies st
    ensures Pivoted(st, b, copy, extra, h, f, s, l, r, e, frame, lf) && Kept(old(st.S()), st.S(), frame, lf)
    ensures old(TreeAt(st.view, b)) == Node(TreeAt(st.view, l), e, TreeAt(st.view, r))
    ensures SplitInfo(TreeAt(st.view, f), mid, TreeAt(st.view, s))
            == Split(st.scheme, lt, old(TreeAt(st.view, o)), e.key)
  {
    ghost var s0 := st.S();
    Readable2(st, o, b, false, extra, 0, h, frame, lf);
    copy := Enter(st, b, extra, h, frame + Tok(o), lf);
    ghost var s1 := st.S();
    e, l, r := st.mem[b].entry, st.mem[b].lc, st.mem[b].rc;
    ghost var fr := frame + Hold(b, copy, extra);
    PivotEntered(st.g, s0, s1, b, o, copy, extra, h, l, r, frame, lf);
    f, mid, s := SplitInplace(st, lt, o, e.key, fr + TokIf(l, copy) + TokIf(r, copy), lf + HoldL(b, copy));
    PivotSplit(st.g, s0, s1, st.S(), b, copy, extra, h, l, r, f, s, e, frame, lf);
  }

  lemma PivotEntered<E, A>(g: Augment<E, A>, s0: Sys<E, A>, s1: Sys<E, A>, b: Ref, o: Ref, copy: bool, extra: bool,
                           h: Ref, l: Ref, r: Ref, frame: multiset<Ref>, lf: set<Ref>)
    requires Valid(g, s0) && Valid(g, s1) && Kept(s0, s1, frame + Tok(o), lf) && (extra ==> h in frame)
    requires Entered(s1, b, copy, Keeper(b, extra, h), frame + Tok(o) + Hold(b, copy, extra), lf) && l == s1.mem[b].lc
             && r == s1.mem[b].rc
    requires s1.owned == frame + Tok(o) + Hold(b, copy, extra) + TokIf(l, copy) + TokIf(r, copy)
    ensures s1.owned == frame + Hold(b, copy, extra) + TokIf(l, copy) + TokIf(r, copy) + Tok(o)
    ensures TreeAt(s1.view, o) == TreeAt(s0.view, o) && Kept(s0, s1, frame, lf)
    ensures Entered(s1, b, copy, Keeper(b, extra, h), frame + Hold(b, copy, extra), lf)
  {
  }

  lemma Shuffle(a: multiset<Ref>, b: multiset<Ref>, c: multiset<Ref>, d: multiset<Ref>, e: multiset<Ref>)
    ensures a + b + c + d + e == a + e + c + d + b
  {
  }

  lemma PivotSplit<E, A>(g: Augment<E, A>, s0: Sys<E, A>, s1: Sys<E, A>, s2: Sys<E, A>, b: Ref, copy: bool, extra: bool,
                         h: Ref, l: Ref, r: Ref, f: Ref, s: Ref, e: E, frame: multiset<Ref>, lf: set<Ref>)
    requires Valid(g, s1) && Valid(g, s2) && Kept(s0, s1, frame, lf)
    requires Entered(s1, b, copy, Keeper(b, extra, h), frame + Hold(b, copy, extra), lf)
    requires l == s1.mem[b].lc && r == s1.mem[b].rc && e == s1.mem[b].entry
    requires s2.owned == frame + Hold(b, copy, extra) + TokIf(l, copy) + TokIf(r, copy) + Tok(f) + Tok(s)
    requires Kept(s1, s2, frame + Hold(b, copy, extra) + TokIf(l, copy) + TokIf(r, copy), lf + HoldL(b, copy))
    ensures s2.owned == frame + Hold(b, copy, extra) + Tok(s) + TokIf(r, copy) + Tok(f) + TokIf(l, copy)
    ensures Kept(s0, s2, frame, lf) && TreeAt(s2.view, l) == TreeAt(s1.view, l)
            && TreeAt(s2.view, r) == TreeAt(s1.view, r)
    ensures Hand(s2, b, copy, Keeper(b, extra, h), frame + Hold(b, copy, extra), lf + HoldL(b, copy), e)
    ensures copy ==> Lent(s2.view, l, Keeper(b, extra, h), frame + Hold(b, copy, extra))
    ensures copy ==> Lent(s2.view, r, Keeper(b, extra, h), frame + Hold(b, copy, extra))
  {
    var fr, lf', k := frame + Hold(b, copy, extra), lf + HoldL(b, copy), Keeper(b, extra, h);
    Shuffle(fr, TokIf(l, copy), TokIf(r, copy), Tok(f), Tok(s));
    Swap(fr, TokIf(l, copy), TokIf(r, copy));
    WaitingKept(g, s1, s2, r, copy, k, fr + TokIf(l, copy), lf');
    WaitingKept(g, s1, s2, l, copy, k, fr + TokIf(r, copy), lf');
    HandKept(g, s1, s2, b, copy, k, fr, lf', e);
    KeptTrans(s0, s1, s2, frame, lf, frame, lf);
  }

  /** After the first half has been combined into `u`, the second half is untouched. */
  lemma HalfDone<E, A>(st: Store<E, A>, s0: Sys<E, A>, s1: Sys<E, A>, b: Ref, copy: bool, extra: bool, h: Ref,
                       r: Ref, s: Ref, u: Ref, e: E, tree: Tree<E>, frame: multiset<Ref>, lf: set<Ref>)
    requires Valid(st.g, s1) && Kept(s0, s1, frame, lf)
    requires Hand(s1, b, copy, Keeper(b, extra, h), frame + Hold(b, copy, extra), lf + HoldL(b, copy), e)
    requires copy ==> Lent(s1.view, r, Keeper(b, extra, h), frame + Hold(b, copy, extra))
    requires Yields(st.g, s1, st.S(), frame + Hold(b, copy, extra) + Tok(s) + TokIf(r, copy), lf + HoldL(b, copy), u,
             tree)
    ensures OpPre2(st, s, r, false, copy, 0, Keeper(b, extra, h), frame + Hold(b, copy, extra) + Tok(u),
            lf + HoldL(b, copy))
    ensures Kept(s0, st.S(), frame, lf) && TreeAt(st.view, s) == TreeAt(s1.view, s)
            && TreeAt(st.view, r) == TreeAt(s1.view, r)
    ensures Hand(st.S(), b, copy, Keeper(b, extra, h), frame + Hold(b, copy, extra), lf + HoldL(b, copy), e)
  {
    var fr, lf', k := frame + Hold(b, copy, extra), lf + HoldL(b, copy), Keeper(b, extra, h);
    var s2 := st.S();
    Last(fr, Tok(u), Tok(s), TokIf(r, copy));
    TreeKept(st.g, s1, s2, fr + Tok(s) + TokIf(r, copy), lf', s);
    WaitingKept(st.g, s1, s2, r, copy, k, fr, lf');
    HandKept(st.g, s1, s2, b, copy, k, fr, lf', e);
    KeptTrans(s0, s1, s2, frame, lf, frame, lf);
  }

  method Uniont<K, V, A>(st: Store<Entry<K, V>, A>, lt: (K, K) -> bool, b1: Ref, b2: Ref, op: (V, V) -> V, extra: bool,
                         ghost h: Ref, ghost frame: multiset<Ref>, ghost lf: set<Ref>) returns (t: Ref)
    requires OpPre2(st, b1, b2, false, extra, 0, h, frame, lf)
    modifies st
    ensures Yields(st.g, old(st.S()), st.S(), frame, lf, t,
            Union(st.scheme, lt, old(TreeAt(st.view, b1)), old(TreeAt(st.view, b2)), op))
    decreases TreeAt(st.view, b2), 1
  {
    Readable2(st, b1, b2, false, extra, 0, h, frame, lf);
    if b1 == 0 {
      IncIf(st, b2, extra, frame, lf);
      t := b2;
    } else if b2 == 0 {
      IncIf(st, b1, false, frame, lf);
      t := b1;
    } else {
      t := UnionNode(st, lt, b1, b2, op, extra, h, frame, lf);
    }
  }

  method UnionNode<K, V, A>(st: Store<Entry<K, V>, A>, lt: (K, K) -> bool, b1: Ref, b2: Ref, op: (V, V) -> V,
                            extra: bool, ghost h: Ref, ghost frame: multiset<Ref>, ghost lf: set<Ref>) returns (t: Ref)
    requires OpPre2(st, b1, b2, false, extra, 0, h, frame, lf) && b1 != 0 && b2 != 0
    modifies st
    ensures Yields(st.g, old(st.S()), st.S(), frame, lf, t,
            Union(st.scheme, lt, old(TreeAt(st.view, b1)), old(TreeAt(st.view, b2)), op))
    decreases TreeAt(st.view, b2), 0
  {
    ghost var s0 := st.S();
    Readable2(st, b1, b2, false, extra, 0, h, frame, lf);
    var copy, e, f, mid, s, l, r := Pivot(st, lt, b2, b1, extra, h, frame, lf);
    ghost var s1, k := st.S(), Keeper(b2, extra, h);
    ghost var fr, lf' := frame + Hold(b2, copy, extra), lf + HoldL(b2, copy);
    var u := Uniont(st, lt, f, l, op, copy, k, fr + Tok(s) + TokIf(r, copy), lf');
    ghost var s2 := st.S();
    HalfDone(st, s0, s1, b2, copy, extra, h, r, s, u, e, TreeAt(st.view, u), frame, lf);
    var v := Uniont(st, lt, s, r, op, copy, k, fr + Tok(u), lf');
    Returned(st.g, s0, s2, st.S(), b2, copy, extra, h, u, v, e, TreeAt(st.view, v), frame, lf);
    t := Rejoin(st, b2, copy, extra, u, v, Merged(mid, e, op), k, e, s0, frame, lf);
  }

  /** The pivot is given up and its halves are joined around a fresh node. */
  method JoinFresh<E, A>(st: Store<E, A>, b: Ref, copy: bool, extra: bool, u: Ref, v: Ref, e: E,
                         ghost s0: Sys<E, A>, ghost frame: multiset<Ref>, ghost lf: set<Ref>) returns (t: Ref)
    requires Valid(st.g, st.S()) && st.owned == frame + Tok(u) + Tok(v) + Hold(b, copy, extra)
             && Loose(st.S()) == lf + HoldL(b, copy)
    requires (!copy ==> b !in lf && !extra && b in st.mem) && Kept(s0, st.S(), frame, lf)
    modifies st
    ensures Yields(st.g, s0, st.S(), frame, lf, t, Join(st.scheme, old(TreeAt(st.view, u)), e, old(TreeAt(st.view, v))))
  {
    ghost var s1 := st.S();
    ghost var fr := frame + Tok(u) + Tok(v);
    var o := st.MakeNode(e);
    ghost var s2 := st.S();
    MadeKept(st.g, s1, s2, o, fr + Hold(b, copy, extra), lf + HoldL(b, copy));
    DecIf(st, b, copy, extra, fr, lf + {o});
    FreshKept(st.g, s0, s1, s2, st.S(), o, u, v, fr + Hold(b, copy, extra), lf + HoldL(b, copy), frame, lf);
    ghost var s3 := st.S();
    t := NodeJoin(st, u, v, o, frame, lf);
    YieldsAfter(st.g, s0, s3, st.S(), frame, lf, t, TreeAt(st.view, t));
  }

  lemma FreshKept<E, A>(g: Augment<E, A>, s0: Sys<E, A>, s1: Sys<E, A>, s2: Sys<E, A>, s3: Sys<E, A>, o: Ref, u: Ref,
                        v: Ref, big: multiset<Ref>, bigl: set<Ref>, frame: multiset<Ref>, lf: set<Ref>)
    requires Valid(g, s1) && Valid(g, s2) && Valid(g, s3) && frame + Tok(u) + Tok(v) <= big && lf <= bigl
    requires Kept(s0, s1, frame, lf) && Kept(s1, s2, big, bigl) && Kept(s2, s3, frame + Tok(u) + Tok(v), lf + {o})
    ensures Kept(s0, s3, frame, lf) && o in s2.mem && o in s3.mem && s3.mem[o] == s2.mem[o]
    ensures TreeAt(s3.view, u) == TreeAt(s1.view, u) && TreeAt(s3.view, v) == TreeAt(s1.view, v)
  {
  }

  /** The pivot is given up and its halves are joined without it. */
  method Join2Dropping<E, A>(st: Store<E, A>, b: Ref, copy: bool, extra: bool, u: Ref, v: Ref,
                             ghost s0: Sys<E, A>, ghost frame: multiset<Ref>, ghost lf: set<Ref>) returns (t: Ref)
    requires Valid(st.g, st.S()) && st.owned == frame + Tok(u) + Tok(v) + Hold(b, copy, extra)
             && Loose(st.S()) == lf + HoldL(b, copy)
    requires (!copy ==> b !in lf && !extra) && Kept(s0, st.S(), frame, lf)
    modifies st
    ensures Yields(st.g, s0, st.S(), frame, lf, t, Join2(st.scheme, old(TreeAt(st.view, u)), old(TreeAt(st.view, v))))
  {
    ghost var s1 := st.S();
    DecIf(st, b, copy, extra, frame + Tok(u) + Tok(v), lf);
    ghost var s2 := st.S();
    RejoinKept(st.g, s0, s1, s2, u, v, frame, lf);
    t := Join2I(st, u, v, false, false, 0, 0, frame, lf);
    YieldsAfter(st.g, s0, s2, st.S(), frame, lf, t, TreeAt(st.view, t));
  }

  /** Two trees over the same store. */
  method IntersectI<K, V, A>(st: Store<Entry<K, V>, A>, lt: (K, K) -> bool, b1: Ref, b2: Ref, op: (V, V) -> V,
                             extra: bool, ghost h: Ref, ghost frame: multiset<Ref>, ghost lf: set<Ref>) returns (t: Ref)
    requires OpPre2(st, b1, b2, false, extra, 0, h, frame, lf)
    modifies st
    ensures Yields(st.g, old(st.S()), st.S(), frame, lf, t,
                   Intersect(st.scheme, st.scheme, lt, old(TreeAt(st.view, b1)), old(TreeAt(st.view, b2)), op))
    decreases TreeAt(st.view, b2), 1
  {
    Readable2(st, b1, b2, false, extra, 0, h, frame, lf);
    if b1 == 0 {
      Discard(st, b2, extra, frame, lf);
      t := 0;
    } else if b2 == 0 {
      Discard(st, b1, false, frame, lf);
      t := 0;
    } else {
      t := IntersectNode(st, lt, b1, b2, op, extra, h, frame, lf);
    }
  }

  /** Gives up a tree unless it is only lent. */
  method Discard<E, A>(st: Store<E, A>, b: Ref, extra: bool, ghost frame: multiset<Ref>, ghost lf: set<Ref>)
    requires Valid(st.g, st.S()) && st.owned == frame + TokIf(b, extra) && Loose(st.S()) == lf
    modifies st
    ensures Yields(st.g, old(st.S()), st.S(), frame, lf, 0, Leaf)
  {
    ghost var s0 := st.S();
    FrameHeld(st.g, s0, frame);
    assert forall q :: q in lf ==> q in Loose(s0);
    if !extra {
      st.DecrementRecursive(b, frame);
    }
    ChildCache(st.g, st.S(), 0);
  }

  method IntersectNode<K, V, A>(st: Store<Entry<K, V>, A>, lt: (K, K) -> bool, b1: Ref, b2: Ref, op: (V, V) -> V,
                                extra: bool, ghost h: Ref, ghost frame: multiset<Ref>, ghost lf: set<Ref>)
      returns (t: Ref)
    requires OpPre2(st, b1, b2, false, extra, 0, h, frame, lf) && b1 != 0 && b2 != 0
    modifies st
    ensures Yields(st.g, old(st.S()), st.S(), frame, lf, t,
                   Intersect(st.scheme, st.scheme, lt, old(TreeAt(st.view, b1)), old(TreeAt(st.view, b2)), op))
    decreases TreeAt(st.view, b2), 0
  {
    ghost var s0 := st.S();
    Readable2(st, b1, b2, false, extra, 0, h, frame, lf);
    var copy, e, f, mid, s, l, r := Pivot(st, lt, b2, b1, extra, h, frame, lf);
    ghost var s1, k := st.S(), Keeper(b2, extra, h);
    ghost var fr, lf' := frame + Hold(b2, copy, extra), lf + HoldL(b2, copy);
    var u := IntersectI(st, lt, f, l, op, copy, k, fr + Tok(s) + TokIf(r, copy), lf');
    ghost var s2 := st.S();
    HalfDone(st, s0, s1, b2, copy, extra, h, r, s, u, e, TreeAt(st.view, u), frame, lf);
    var v := IntersectI(st, lt, s, r, op, copy, k, fr + Tok(u), lf');
    Returned(st.g, s0, s2, st.S(), b2, copy, extra, h, u, v, e, TreeAt(st.view, v), frame, lf);
    if mid.Some? {
      t := JoinFresh(st, b2, copy, extra, u, v, Entry(e.key, op(mid.value.val, e.val)), s0, frame, lf);
    } else {
      t := Join2Dropping(st, b2, copy, extra, u, v, s0, frame, lf);
    }
  }

  method DifferenceI<K, V, A>(st: Store<Entry<K, V>, A>, lt: (K, K) -> bool, b1: Ref, b2: Ref, extra: bool,
                              ghost h: Ref, ghost frame: multiset<Ref>, ghost lf: set<Ref>) returns (t: Ref)
    requires OpPre2(st, b2, b1, false, extra, 0, h, frame, lf)
    modifies st
    ensures Yields(st.g, old(st.S()), st.S(), frame, lf, t,
            Difference(st.scheme, lt, old(TreeAt(st.view, b1)), old(TreeAt(st.view, b2))))
    decreases TreeAt(st.view, b1), 1
  {
    Readable2(st, b2, b1, false, extra, 0, h, frame, lf);
    if b1 == 0 {
      Discard(st, b2, false, frame, lf);
      t := 0;
    } else if b2 == 0 {
      IncIf(st, b1, extra, frame, lf);
      t := b1;
    } else {
      t := DifferenceNode(st, lt, b1, b2, extra, h, frame, lf);
    }
  }

  method DifferenceNode<K, V, A>(st: Store<Entry<K, V>, A>, lt: (K, K) -> bool, b1: Ref, b2: Ref, extra: bool,
                                 ghost h: Ref, ghost frame: multiset<Ref>, ghost lf: set<Ref>) returns (t: Ref)
    requires OpPre2(st, b2, b1, false, extra, 0, h, frame, lf) && b1 != 0 && b2 != 0
    modifies st
    ensures Yields(st.g, old(st.S()), st.S(), frame, lf, t,
            Difference(st.scheme, lt, old(TreeAt(st.view, b1)), old(TreeAt(st.view, b2))))
    decreases TreeAt(st.view, b1), 0
  {
    ghost var s0 := st.S();
    Readable2(st, b2, b1, false, extra, 0, h, frame, lf);
    var copy, e, f, mid, s, l, r := Pivot(st, lt, b1, b2, extra, h, frame, lf);
    ghost var s1, k := st.S(), Keeper(b1, extra, h);
    ghost var fr, lf' := frame + Hold(b1, copy, extra), lf + HoldL(b1, copy);
    var u := DifferenceI(st, lt, l, f, copy, k, fr + Tok(s) + TokIf(r, copy), lf');
    ghost var s2 := st.S();
    HalfDone(st, s0, s1, b1, copy, extra, h, r, s, u, e, TreeAt(st.view, u), frame, lf);
    var v := DifferenceI(st, lt, r, s, copy, k, fr + Tok(u), lf');
    Returned(st.g, s0, s2, st.S(), b1, copy, extra, h, u, v, e, TreeAt(st.view, v), frame, lf);
    if mid.Some? {
      t := Join2Dropping(st, b1, copy, extra, u, v, s0, frame, lf);
    } else {
      t := Rejoin(st, b1, copy, extra, u, v, e, k, e, s0, frame, lf);
    }
  }
}
