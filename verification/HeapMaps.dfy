/** The map operations on the mutable store, each proved to compute its value-level counterpart
    while leaving every tree that is held elsewhere as it was. */
module HeapMaps {
  import opened Trees
  import opened Maps
  import opened Heap
  import opened Stores
  import opened Joins
  import opened HeapOps

  /** A fresh leaf node. */
  method Single<E, A>(st: Store<E, A>, e: E, ghost frame: multiset<Ref>, ghost lf: set<Ref>) returns (t: Ref)
    requires Valid(st.g, st.S()) && st.owned == frame && Loose(st.S()) == lf
    modifies st
    ensures Yields(st.g, old(st.S()), st.S(), frame, lf, t, Node(Leaf, e, Leaf))
    ensures Unique(st.S(), t)
  {
    ghost var s0 := st.S();
    t := st.MakeNode(e);
    MadeKept(st.g, s0, st.S(), t, frame, lf);
    Settle(st, t, 0, 0, s0, frame, lf);
  }

  // -------------------- lookup --------------------

  /** The node with key `k`, or null. */
  method FindNode<K, V, A>(st: Store<Entry<K, V>, A>, lt: (K, K) -> bool, root: Ref, k: K) returns (b: Ref)
    requires Valid(st.g, st.S()) && Points(st.view, root)
    ensures b == 0 <==> Find(lt, TreeAt(st.view, root), k).None?
    ensures b != 0 ==> b in st.view && b in st.mem && Find(lt, TreeAt(st.view, root), k) == Some(st.mem[b].entry.val)
  {
    b := root;
    ChildCache(st.g, st.S(), b);
    while b != 0
      invariant Points(st.view, b) && Find(lt, TreeAt(st.view, b), k) == Find(lt, TreeAt(st.view, root), k)
      decreases TreeAt(st.view, b)
    {
      Cells(st, b);
      if lt(k, st.mem[b].entry.key) {
        b := st.mem[b].lc;
      } else if lt(st.mem[b].entry.key, k) {
        b := st.mem[b].rc;
      } else {
        return b;
      }
    }
    ChildCache(st.g, st.S(), b);
  }

  // -------------------- insert --------------------

  method InsertJ<K, V, A>(st: Store<Entry<K, V>, A>, lt: (K, K) -> bool, b: Ref, e: Entry<K, V>, f: (V, V) -> V,
                          extra: bool, ghost h: Ref, ghost frame: multiset<Ref>, ghost lf: set<Ref>) returns (t: Ref)
    requires OpPre(st, b, extra, h, frame, lf)
    modifies st
    ensures Yields(st.g, old(st.S()), st.S(), frame, lf, t, Insert(st.scheme, lt, old(TreeAt(st.view, b)), e, f))
    decreases TreeAt(st.view, b), 1
  {
    OpReadable(st, b, extra, h, frame, lf);
    if b == 0 {
      t := Single(st, e, frame, lf);
    } else {
      var k := st.mem[b].entry.key;
      if lt(k, e.key) {
        t := InsertRight(st, lt, b, e, f, extra, h, frame, lf);
      } else if lt(e.key, k) {
        t := InsertLeft(st, lt, b, e, f, extra, h, frame, lf);
      } else {
        t := InsertHere(st, lt, b, e, f, extra, h, frame, lf);
      }
    }
  }

  method InsertRight<K, V, A>(st: Store<Entry<K, V>, A>, lt: (K, K) -> bool, b: Ref, e: Entry<K, V>, f: (V, V) -> V,
                              extra: bool, ghost h: Ref, ghost frame: multiset<Ref>, ghost lf: set<Ref>)
      returns (t: Ref)
    requires OpPre(st, b, extra, h, frame, lf) && b != 0
    modifies st
    ensures var u := old(TreeAt(st.view, b));
            u.Node? && Yields(st.g, old(st.S()), st.S(), frame, lf, t,
                Join(st.scheme, u.lc, u.entry, Insert(st.scheme, lt, u.rc, e, f)))
    decreases TreeAt(st.view, b), 0
  {
    ghost var s0 := st.S();
    var copy, l, r := EnterRight(st, b, extra, h, frame, lf);
    ghost var s1 := st.S();
    ghost var k := Keeper(b, extra, h);
    var e0 := st.mem[b].entry;
    var r' := InsertJ(st, lt, r, e, f, copy, k, frame + Hold(b, copy, extra) + Tok(l), lf + HoldL(b, copy));
    Returned(st.g, s0, s1, st.S(), b, copy, extra, h, l, r', e0, TreeAt(st.view, r'), frame, lf);
    t := Rejoin(st, b, copy, extra, l, r', e0, k, e0, s0, frame, lf);
  }

  method InsertLeft<K, V, A>(st: Store<Entry<K, V>, A>, lt: (K, K) -> bool, b: Ref, e: Entry<K, V>, f: (V, V) -> V,
                             extra: bool, ghost h: Ref, ghost frame: multiset<Ref>, ghost lf: set<Ref>) returns (t: Ref)
    requires OpPre(st, b, extra, h, frame, lf) && b != 0
    modifies st
    ensures var u := old(TreeAt(st.view, b));
            u.Node? && Yields(st.g, old(st.S()), st.S(), frame, lf, t,
                Join(st.scheme, Insert(st.scheme, lt, u.lc, e, f), u.entry, u.rc))
    decreases TreeAt(st.view, b), 0
  {
    ghost var s0 := st.S();
    var copy, l, r := EnterLeft(st, b, extra, h, frame, lf);
    ghost var s1 := st.S();
    ghost var k := Keeper(b, extra, h);
    var e0 := st.mem[b].entry;
    var l' := InsertJ(st, lt, l, e, f, copy, k, frame + Hold(b, copy, extra) + Tok(r), lf + HoldL(b, copy));
    Returned(st.g, s0, s1, st.S(), b, copy, extra, h, r, l', e0, TreeAt(st.view, l'), frame, lf);
    t := Rejoin(st, b, copy, extra, l', r, e0, k, e0, s0, frame, lf);
  }

  /** The key is present: the new entry takes the place of the old one. */
  method InsertHere<K, V, A>(st: Store<Entry<K, V>, A>, lt: (K, K) -> bool, b: Ref, e: Entry<K, V>, f: (V, V) -> V,
                             extra: bool, ghost h: Ref, ghost frame: multiset<Ref>, ghost lf: set<Ref>) returns (t: Ref)
    requires OpPre(st, b, extra, h, frame, lf) && b != 0
    modifies st
    ensures var u := old(TreeAt(st.view, b));
            u.Node? && Yields(st.g, old(st.S()), st.S(), frame, lf, t,
                Join(st.scheme, u.lc, Entry(e.key, f(u.entry.val, e.val)), u.rc))
  {
    ghost var s0 := st.S();
    var copy, l, r := EnterRight(st, b, extra, h, frame, lf);
    ghost var s1 := st.S();
    ghost var k := Keeper(b, extra, h);
    ghost var e0 := st.mem[b].entry;
    OpReadable(st, r, copy, k, frame + Hold(b, copy, extra) + Tok(l), lf + HoldL(b, copy));
    IncIf(st, r, copy, frame + Hold(b, copy, extra) + Tok(l), lf + HoldL(b, copy));
    ghost var s2 := st.S();
    Returned(st.g, s0, s1, s2, b, copy, extra, h, l, r, e0, TreeAt(st.view, r), frame, lf);
    var o := CopyIf(st, b, copy, extra, k, e0, frame + Tok(l) + Tok(r), lf);
    var be := st.mem[b].entry;
    RejoinKept(st.g, s0, s2, st.S(), l, r, frame, lf);
    t := JoinAt(st, o, l, r, Entry(e.key, f(be.val, e.val)), s0, frame, lf);
  }

  // -------------------- join of two trees --------------------

  method Join2I<E, A>(st: Store<E, A>, b1: Ref, b2: Ref, extra1: bool, extra2: bool,
                      ghost h1: Ref, ghost h2: Ref, ghost frame: multiset<Ref>, ghost lf: set<Ref>) returns (t: Ref)
    requires OpPre2(st, b1, b2, extra1, extra2, h1, h2, frame, lf)
    modifies st
    ensures Yields(st.g, old(st.S()), st.S(), frame, lf, t,
            Join2(st.scheme, old(TreeAt(st.view, b1)), old(TreeAt(st.view, b2))))
    decreases Size(TreeAt(st.view, b1)) + Size(TreeAt(st.view, b2)), 1
  {
    Readable2(st, b1, b2, extra1, extra2, h1, h2, frame, lf);
    if b1 == 0 {
      IncIf(st, b2, extra2, frame, lf);
      t := b2;
    } else if b2 == 0 {
      IncIf(st, b1, extra1, frame, lf);
      t := b1;
    } else if st.mem[b1].size > st.mem[b2].size {
      t := Join2Right(st, b1, b2, extra1, extra2, h1, h2, frame, lf);
    } else {
      t := Join2Left(st, b1, b2, extra1, extra2, h1, h2, frame, lf);
    }
  }

  method Join2Right<E, A>(st: Store<E, A>, b1: Ref, b2: Ref, extra1: bool, extra2: bool,
                          ghost h1: Ref, ghost h2: Ref, ghost frame: multiset<Ref>, ghost lf: set<Ref>) returns (t: Ref)
    requires OpPre2(st, b1, b2, extra1, extra2, h1, h2, frame, lf) && b1 != 0
    modifies st
    ensures var u := old(TreeAt(st.view, b1));
            u.Node? && Yields(st.g, old(st.S()), st.S(), frame, lf, t,
                              Join(st.scheme, u.lc, u.entry, Join2(st.scheme, u.rc, old(TreeAt(st.view, b2)))))
    decreases Size(TreeAt(st.view, b1)) + Size(TreeAt(st.view, b2)), 0
  {
    ghost var s0 := st.S();
    Swap(frame, TokIf(b1, extra1), TokIf(b2, extra2));
    var copy, l, r := EnterRight(st, b1, extra1, h1, frame + TokIf(b2, extra2), lf);
    ghost var s1 := st.S();
    ghost var k := Keeper(b1, extra1, h1);
    var e0 := st.mem[b1].entry;
    InsideBoth(st, s0, b1, copy, extra1, h1, l, r, e0, b2, extra2, h2, frame, lf);
    var r' := Join2I(st, r, b2, copy, extra2, k, h2, frame + Hold(b1, copy, extra1) + Tok(l), lf + HoldL(b1, copy));
    Returned(st.g, s0, s1, st.S(), b1, copy, extra1, h1, l, r', e0, TreeAt(st.view, r'), frame, lf);
    t := Rejoin(st, b1, copy, extra1, l, r', e0, k, e0, s0, frame, lf);
  }

  method Join2Left<E, A>(st: Store<E, A>, b1: Ref, b2: Ref, extra1: bool, extra2: bool,
                         ghost h1: Ref, ghost h2: Ref, ghost frame: multiset<Ref>, ghost lf: set<Ref>) returns (t: Ref)
    requires OpPre2(st, b1, b2, extra1, extra2, h1, h2, frame, lf) && b2 != 0
    modifies st
    ensures var u := old(TreeAt(st.view, b2));
            u.Node? && Yields(st.g, old(st.S()), st.S(), frame, lf, t,
                              Join(st.scheme, Join2(st.scheme, old(TreeAt(st.view, b1)), u.lc), u.entry, u.rc))
    decreases Size(TreeAt(st.view, b1)) + Size(TreeAt(st.view, b2)), 0
  {
    ghost var s0 := st.S();
    var copy, l, r := EnterLeft(st, b2, extra2, h2, frame + TokIf(b1, extra1), lf);
    ghost var s1 := st.S();
    ghost var k := Keeper(b2, extra2, h2);
    var e0 := st.mem[b2].entry;
    InsideBoth(st, s0, b2, copy, extra2, h2, r, l, e0, b1, extra1, h1, frame, lf);
    ghost var fr := frame + Hold(b2, copy, extra2) + Tok(r);
    Swap(fr, TokIf(l, copy), TokIf(b1, extra1));
    var l' := Join2I(st, b1, l, extra1, copy, h1, k, fr, lf + HoldL(b2, copy));
    Returned(st.g, s0, s1, st.S(), b2, copy, extra2, h2, r, l', e0, TreeAt(st.view, l'), frame, lf);
    t := Rejoin(st, b2, copy, extra2, l', r, e0, k, e0, s0, frame, lf);
  }

  // -------------------- delete --------------------

  method Deletet<K, V, A>(st: Store<Entry<K, V>, A>, lt: (K, K) -> bool, b: Ref, k: K, extra: bool,
                          ghost h: Ref, ghost frame: multiset<Ref>, ghost lf: set<Ref>) returns (t: Ref)
    requires OpPre(st, b, extra, h, frame, lf)
    modifies st
    ensures Yields(st.g, old(st.S()), st.S(), frame, lf, t, Delete(st.scheme, lt, old(TreeAt(st.view, b)), k))
    decreases TreeAt(st.view, b), 1
  {
    OpReadable(st, b, extra, h, frame, lf);
    if b == 0 {
      IncIf(st, b, extra, frame, lf);
      t := 0;
    } else {
      var bk := st.mem[b].entry.key;
      if lt(bk, k) {
        t := DeleteRight(st, lt, b, k, extra, h, frame, lf);
      } else if lt(k, bk) {
        t := DeleteLeft(st, lt, b, k, extra, h, frame, lf);
      } else {
        t := DeleteHere(st, b, extra, h, frame, lf);
      }
    }
  }

  method DeleteRight<K, V, A>(st: Store<Entry<K, V>, A>, lt: (K, K) -> bool, b: Ref, k: K, extra: bool,
                              ghost h: Ref, ghost frame: multiset<Ref>, ghost lf: set<Ref>) returns (t: Ref)
    requires OpPre(st, b, extra, h, frame, lf) && b != 0
    modifies st
    ensures var u := old(TreeAt(st.view, b));
            u.Node? && Yields(st.g, old(st.S()), st.S(), frame, lf, t,
                Join(st.scheme, u.lc, u.entry, Delete(st.scheme, lt, u.rc, k)))
    decreases TreeAt(st.view, b), 0
  {
    ghost var s0 := st.S();
    var copy, l, r := EnterRight(st, b, extra, h, frame, lf);
    ghost var s1 := st.S();
    ghost var kp := Keeper(b, extra, h);
    var e0 := st.mem[b].entry;
    var r' := Deletet(st, lt, r, k, copy, kp, frame + Hold(b, copy, extra) + Tok(l), lf + HoldL(b, copy));
    Returned(st.g, s0, s1, st.S(), b, copy, extra, h, l, r', e0, TreeAt(st.view, r'), frame, lf);
    t := Rejoin(st, b, copy, extra, l, r', e0, kp, e0, s0, frame, lf);
  }

  method DeleteLeft<K, V, A>(st: Store<Entry<K, V>, A>, lt: (K, K) -> bool, b: Ref, k: K, extra: bool,
                             ghost h: Ref, ghost frame: multiset<Ref>, ghost lf: set<Ref>) returns (t: Ref)
    requires OpPre(st, b, extra, h, frame, lf) && b != 0
    modifies st
    ensures var u := old(TreeAt(st.view, b));
            u.Node? && Yields(st.g, old(st.S()), st.S(), frame, lf, t,
                Join(st.scheme, Delete(st.scheme, lt, u.lc, k), u.entry, u.rc))
    decreases TreeAt(st.view, b), 0
  {
    ghost var s0 := st.S();
    var copy, l, r := EnterLeft(st, b, extra, h, frame, lf);
    ghost var s1 := st.S();
    ghost var kp := Keeper(b, extra, h);
    var e0 := st.mem[b].entry;
    var l' := Deletet(st, lt, l, k, copy, kp, frame + Hold(b, copy, extra) + Tok(r), lf + HoldL(b, copy));
    Returned(st.g, s0, s1, st.S(), b, copy, extra, h, r, l', e0, TreeAt(st.view, l'), frame, lf);
    t := Rejoin(st, b, copy, extra, l', r, e0, kp, e0, s0, frame, lf);
  }

  /** The node itself goes away; its children are joined. */
  method DeleteHere<E, A>(st: Store<E, A>, b: Ref, extra: bool, ghost h: Ref, ghost frame: multiset<Ref>,
                          ghost lf: set<Ref>) returns (t: Ref)
    requires OpPre(st, b, extra, h, frame, lf) && b != 0
    modifies st
    ensures var u := old(TreeAt(st.view, b));
            u.Node? && Yields(st.g, old(st.S()), st.S(), frame, lf, t, Join2(st.scheme, u.lc, u.rc))
  {
    ghost var s0 := st.S();
    var copy := Enter(st, b, extra, h, frame, lf);
    ghost var s1 := st.S();
    ghost var kp := Keeper(b, extra, h);
    ghost var fr := frame + Hold(b, copy, extra);
    t := Join2I(st, st.mem[b].lc, st.mem[b].rc, copy, copy, kp, kp, fr, lf + HoldL(b, copy));
    ghost var s2 := st.S();
    Swap(frame, Hold(b, copy, extra), Tok(t));
    DecIf(st, b, copy, extra, frame + Tok(t), lf);
    Dropped(st.g, s0, s1, s2, st.S(), t, TreeAt(s2.view, t), fr, lf + HoldL(b, copy), frame, lf);
  }

  // -------------------- split --------------------

  /** An outcome with two trees. */
  ghost predicate Yields2<E, A>(g: Augment<E, A>, s0: Sys<E, A>, s1: Sys<E, A>, frame: multiset<Ref>, lf: set<Ref>,
                                t: Ref, tree: Tree<E>, u: Ref, uree: Tree<E>) {
    && Valid(g, s1) && s1.owned == frame + Tok(t) + Tok(u) && Loose(s1) == lf
    && Kept(s0, s1, frame, lf)
    && Points(s1.view, t) && TreeAt(s1.view, t) == tree && Points(s1.view, u) && TreeAt(s1.view, u) == uree
  }

  /** One of two trees is joined further while the other, `u`, waits. */
  lemma JoinedOne<E, A>(g: Augment<E, A>, s0: Sys<E, A>, s1: Sys<E, A>, s2: Sys<E, A>, frame: multiset<Ref>,
                        lf: set<Ref>, t: Ref, tree: Tree<E>, u: Ref)
    requires Valid(g, s1) && Kept(s0, s1, frame, lf) && Yields(g, s1, s2, frame + Tok(u), lf, t, tree)
    ensures Yields2(g, s0, s2, frame, lf, t, tree, u, TreeAt(s1.view, u))
    ensures Yields2(g, s0, s2, frame, lf, u, TreeAt(s1.view, u), t, tree)
  {
    TreeKept(g, s1, s2, frame + Tok(u), lf, u);
    KeptTrans(s0, s1, s2, frame, lf, frame, lf);
    Swap(frame, Tok(t), Tok(u));
  }

  /** The outcome of a split. */
  ghost predicate Halves<K, V, A>(g: Augment<Entry<K, V>, A>, s0: Sys<Entry<K, V>, A>, s1: Sys<Entry<K, V>, A>,
                                  frame: multiset<Ref>, lf: set<Ref>, first: Ref, mid: Option<Entry<K, V>>, second: Ref,
                                  p: SplitInfo<K, V>) {
    mid == p.mid && Yields2(g, s0, s1, frame, lf, first, p.first, second, p.second)
  }

  /** Splits a tree that is lent: its nodes are copied, never changed. */
  method SplitCopy<K, V, A>(st: Store<Entry<K, V>, A>, lt: (K, K) -> bool, b: Ref, k: K,
                            ghost h: Ref, ghost frame: multiset<Ref>, ghost lf: set<Ref>)
    returns (first: Ref, mid: Option<Entry<K, V>>, second: Ref)
    requires OpPre(st, b, true, h, frame, lf)
    modifies st
    ensures Halves(st.g, old(st.S()), st.S(), frame, lf, first, mid, second,
            Split(st.scheme, lt, old(TreeAt(st.view, b)), k))
    decreases TreeAt(st.view, b), 1
  {
    OpReadable(st, b, true, h, frame, lf);
    if b == 0 {
      ghost var s0 := st.S();
      FrameHeld(st.g, s0, frame);
      assert forall q :: q in lf ==> q in Loose(s0);
      first, mid, second := 0, None, 0;
    } else {
      var bk := st.mem[b].entry.key;
      if lt(bk, k) {
        first, mid, second := SplitCopyRight(st, lt, b, k, h, frame, lf);
      } else if lt(k, bk) {
        first, mid, second := SplitCopyLeft(st, lt, b, k, h, frame, lf);
      } else {
        first, mid, second := SplitCopyHere(st, b, h, frame, lf);
      }
    }
  }

  method SplitCopyHere<K, V, A>(st: Store<Entry<K, V>, A>, b: Ref, ghost h: Ref, ghost frame: multiset<Ref>,
                                ghost lf: set<Ref>) returns (first: Ref, mid: Option<Entry<K, V>>, second: Ref)
    requires OpPre(st, b, true, h, frame, lf) && b != 0
    modifies st
    ensures var u := old(TreeAt(st.view, b));
            u.Node? && Halves(st.g, old(st.S()), st.S(), frame, lf, first, mid, second,
                SplitInfo(u.lc, Some(u.entry), u.rc))
  {
    ghost var s0 := st.S();
    LentChild(st.g, s0, b, h, frame);
    assert LinkedAt(st.g, s0, b);
    first, mid, second := st.mem[b].lc, Some(st.mem[b].entry), st.mem[b].rc;
    st.IncrementBoth(first, second);
    assert forall q :: q in lf ==> q in Loose(s0);
    WrittenKept(st.g, s0, st.S(), frame, lf);
  }

  /** The part of a split that is kept whole, `l`, is taken and joined in front of the smaller half. */
  method RejoinFirst<E, A>(st: Store<E, A>, l: Ref, first: Ref, second: Ref, join: Ref, ghost s0: Sys<E, A>,
                           ghost frame: multiset<Ref>, ghost lf: set<Ref>) returns (t: Ref)
    requires Valid(st.g, st.S()) && Points(st.view, l) && join in st.mem && join !in lf && Loose(st.S()) == lf + {join}
    requires st.owned == frame + Tok(first) + Tok(second) && Kept(s0, st.S(), frame, lf)
    modifies st
    ensures Yields2(st.g, s0, st.S(), frame, lf, t,
            Join(st.scheme, old(TreeAt(st.view, l)), old(st.mem[join].entry), old(TreeAt(st.view, first))),
                    second, old(TreeAt(st.view, second)))
  {
    ghost var s2 := st.S();
    Swap(frame, Tok(first), Tok(second));
    IncIf(st, l, true, frame + Tok(second) + Tok(first), lf + {join});
    ghost var s3 := st.S();
    Swap(frame + Tok(second), Tok(first), Tok(l));
    t := NodeJoin(st, l, first, join, frame + Tok(second), lf);
    JoinedOne(st.g, s0, s3, st.S(), frame, lf, t, TreeAt(st.view, t), second);
  }

  method RejoinSecond<E, A>(st: Store<E, A>, r: Ref, first: Ref, second: Ref, join: Ref, ghost s0: Sys<E, A>,
                            ghost frame: multiset<Ref>, ghost lf: set<Ref>) returns (t: Ref)
    requires Valid(st.g, st.S()) && Points(st.view, r) && join in st.mem && join !in lf && Loose(st.S()) == lf + {join}
    requires st.owned == frame + Tok(first) + Tok(second) && Kept(s0, st.S(), frame, lf)
    modifies st
    ensures Yields2(st.g, s0, st.S(), frame, lf, first, old(TreeAt(st.view, first)),
                    t, Join(st.scheme, old(TreeAt(st.view, second)), old(st.mem[join].entry), old(TreeAt(st.view, r))))
  {
    ghost var s2 := st.S();
    IncIf(st, r, true, frame + Tok(first) + Tok(second), lf + {join});
    ghost var s3 := st.S();
    t := NodeJoin(st, second, r, join, frame + Tok(first), lf);
    JoinedOne(st.g, s0, s3, st.S(), frame, lf, t, TreeAt(st.view, t), first);
  }

  method SplitCopyRight<K, V, A>(st: Store<Entry<K, V>, A>, lt: (K, K) -> bool, b: Ref, k: K,
                                 ghost h: Ref, ghost frame: multiset<Ref>, ghost lf: set<Ref>)
    returns (first: Ref, mid: Option<Entry<K, V>>, second: Ref)
    requires OpPre(st, b, true, h, frame, lf) && b != 0
    modifies st
    ensures old(TreeAt(st.view, b)).Node?
    ensures Halves(st.g, old(st.S()), st.S(), frame, lf, first, mid, second,
            SplitOverRight(st.scheme, lt, old(TreeAt(st.view, b)), k))
    decreases TreeAt(st.view, b), 0
  {
    ghost var s0 := st.S();
    LentChild(st.g, s0, b, h, frame);
    ChildCache(st.g, s0, b);
    var l, r := st.mem[b].lc, st.mem[b].rc;
    var join := st.MakeNode(st.mem[b].entry);
    ghost var s1 := st.S();
    MadeKept(st.g, s0, s1, join, frame, lf);
    first, mid, second := SplitCopy(st, lt, r, k, h, frame, lf + {join});
    SplitReady(st.g, s0, s1, st.S(), join, l, h, frame, lf);
    first := RejoinFirst(st, l, first, second, join, s0, frame, lf);
  }

  method SplitCopyLeft<K, V, A>(st: Store<Entry<K, V>, A>, lt: (K, K) -> bool, b: Ref, k: K,
                                ghost h: Ref, ghost frame: multiset<Ref>, ghost lf: set<Ref>)
    returns (first: Ref, mid: Option<Entry<K, V>>, second: Ref)
    requires OpPre(st, b, true, h, frame, lf) && b != 0
    modifies st
    ensures old(TreeAt(st.view, b)).Node?
    ensures Halves(st.g, old(st.S()), st.S(), frame, lf, first, mid, second,
            SplitOverLeft(st.scheme, lt, old(TreeAt(st.view, b)), k))
    decreases TreeAt(st.view, b), 0
  {
    ghost var s0 := st.S();
    LentChild(st.g, s0, b, h, frame);
    ChildCache(st.g, s0, b);
    var l, r := st.mem[b].lc, st.mem[b].rc;
    var join := st.MakeNode(st.mem[b].entry);
    ghost var s1 := st.S();
    MadeKept(st.g, s0, s1, join, frame, lf);
    first, mid, second := SplitCopy(st, lt, l, k, h, frame, lf + {join});
    SplitReady(st.g, s0, s1, st.S(), join, r, h, frame, lf);
    second := RejoinSecond(st, r, first, second, join, s0, frame, lf);
  }

  /** The split of a node whose key is smaller than `k`, and of one whose key is larger. */
  ghost function SplitOverRight<K, V>(s: Scheme<Entry<K, V>>, lt: (K, K) -> bool, t: Tree<Entry<K, V>>,
                                      k: K): SplitInfo<K, V>
    requires t.Node?
  {
    var p := Split(s, lt, t.rc, k);
    p.(first := Join(s, t.lc, t.entry, p.first))
  }

  ghost function SplitOverLeft<K, V>(s: Scheme<Entry<K, V>>, lt: (K, K) -> bool, t: Tree<Entry<K, V>>,
                                     k: K): SplitInfo<K, V>
    requires t.Node?
  {
    var p := Split(s, lt, t.lc, k);
    p.(second := Join(s, p.second, t.entry, t.rc))
  }

  /** After the inner split, the child `l` can still be read and the middle cell `join` is as it was made. */
  lemma SplitReady<E, A>(g: Augment<E, A>, s0: Sys<E, A>, s1: Sys<E, A>, s2: Sys<E, A>, join: Ref, l: Ref, h: Ref,
                         frame: multiset<Ref>, lf: set<Ref>)
    requires Valid(g, s0) && Valid(g, s2) && Kept(s0, s1, frame, lf) && Kept(s1, s2, frame, lf + {join})
    requires Lent(s0.view, l, h, frame) && join in s1.mem
    ensures Kept(s0, s2, frame, lf) && Points(s2.view, l) && TreeAt(s2.view, l) == TreeAt(s0.view, l)
    ensures join in s2.mem && s2.mem[join] == s1.mem[join]
  {
    assert join in lf + {join};
    KeptTrans(s0, s1, s2, frame, lf, frame, lf);
    LentKept(g, s0, s2, l, h, frame, lf);
  }

}
