/** Building from a sorted array, and bulk insertion and deletion, on the mutable store. */
module HeapBulk {
  import opened Trees
  import opened Maps
  import Bulk
  import opened Heap
  import opened Stores
  import opened Joins
  import opened HeapOps
  import opened HeapMaps
  import opened HeapSets

  method FromArray<E, A>(st: Store<E, A>, a: seq<E>, ghost frame: multiset<Ref>, ghost lf: set<Ref>) returns (t: Ref)
    requires Valid(st.g, st.S()) && st.owned == frame && Loose(st.S()) == lf
    modifies st
    ensures Yields(st.g, old(st.S()), st.S(), frame, lf, t, Bulk.FromArray(st.scheme, a))
    decreases |a|
  {
    if |a| == 0 {
      Discard(st, 0, false, frame, lf);
      t := 0;
    } else if |a| == 1 {
      t := Single(st, a[0], frame, lf);
    } else {
      ghost var s0 := st.S();
      var mid := |a| / 2;
      var m := st.MakeNode(a[mid]);
      ghost var s1 := st.S();
      MadeKept(st.g, s0, s1, m, frame, lf);
      var u := FromArray(st, a[..mid], frame, lf + {m});
      ghost var s2 := st.S();
      var v := FromArray(st, a[mid + 1..], frame + Tok(u), lf + {m});
      ghost var s3 := st.S();
      t := NodeJoin(st, u, v, m, frame, lf);
      YieldsAfter(st.g, s0, s3, st.S(), frame, lf, t, TreeAt(st.view, t));
    }
  }

  /** Enters a node with both its children still ahead. */
  method EnterBoth<E, A>(st: Store<E, A>, b: Ref, extra: bool, ghost h: Ref, ghost frame: multiset<Ref>,
                         ghost lf: set<Ref>) returns (copy: bool, e: E, l: Ref, r: Ref)
    requires OpPre(st, b, extra, h, frame, lf) && b != 0
    modifies st`view, st`owned
    ensures Entered2(st, old(st.S()), b, copy, extra, h, l, r, e, frame, lf) && (extra ==> copy) && (!copy ==> b !in lf)
    ensures old(TreeAt(st.view, b)) == Node(TreeAt(st.view, l), e, TreeAt(st.view, r))
  {
    copy := Enter(st, b, extra, h, frame, lf);
    e, l, r := st.mem[b].entry, st.mem[b].lc, st.mem[b].rc;
    Swap(frame + Hold(b, copy, extra), TokIf(l, copy), TokIf(r, copy));
  }

  /** After the left child has become `u`, the right child is untouched. */
  lemma LeftDone<E, A>(st: Store<E, A>, s0: Sys<E, A>, s1: Sys<E, A>, b: Ref, copy: bool, extra: bool, h: Ref,
                       r: Ref, u: Ref, e: E, tree: Tree<E>, frame: multiset<Ref>, lf: set<Ref>)
    requires Valid(st.g, s1) && Kept(s0, s1, frame, lf)
    requires Hand(s1, b, copy, Keeper(b, extra, h), frame + Hold(b, copy, extra), lf + HoldL(b, copy), e)
    requires copy ==> Lent(s1.view, r, Keeper(b, extra, h), frame + Hold(b, copy, extra))
    requires Yields(st.g, s1, st.S(), frame + Hold(b, copy, extra) + TokIf(r, copy), lf + HoldL(b, copy), u, tree)
    ensures OpPre(st, r, copy, Keeper(b, extra, h), frame + Hold(b, copy, extra) + Tok(u), lf + HoldL(b, copy))
    ensures Kept(s0, st.S(), frame, lf) && TreeAt(st.view, r) == TreeAt(s1.view, r)
    ensures Hand(st.S(), b, copy, Keeper(b, extra, h), frame + Hold(b, copy, extra), lf + HoldL(b, copy), e)
  {
    var fr := frame + Hold(b, copy, extra);
    assert fr + Tok(0) + TokIf(r, copy) == fr + TokIf(r, copy);
    HalfDone(st, s0, s1, b, copy, extra, h, r, 0, u, e, tree, frame, lf);
    assert fr + Tok(u) + TokIf(0, false) == fr + Tok(u);
  }

  method MultiInsertSorted<K(!new), V, A>(st: Store<Entry<K, V>, A>, lt: (K, K) -> bool, b: Ref, a: seq<Entry<K, V>>,
                                          op: (V, V) -> V, extra: bool, ghost h: Ref, ghost frame: multiset<Ref>,
                                          ghost lf: set<Ref>) returns (t: Ref)
    requires OpPre(st, b, extra, h, frame, lf) && StrictOrder(lt) && Sorted(lt, a)
    modifies st
    ensures Yields(st.g, old(st.S()), st.S(), frame, lf, t,
            Bulk.MultiInsert(st.scheme, lt, old(TreeAt(st.view, b)), a, op))
    decreases TreeAt(st.view, b), 2
  {
    OpReadable(st, b, extra, h, frame, lf);
    if b == 0 {
      t := FromArray(st, a, frame, lf);
    } else if |a| == 0 {
      IncIf(st, b, extra, frame, lf);
      t := b;
    } else {
      ghost var mid, dup;
      ghost var u := TreeAt(st.view, b);
      t, mid, dup := MultiInsertNode(st, lt, b, a, op, extra, h, frame, lf);
      Bulk.MultiInsertUnfold(st.scheme, lt, u, a, op, mid, dup);
    }
  }

  method MultiInsertNode<K(!new), V, A>(st: Store<Entry<K, V>, A>, lt: (K, K) -> bool, b: Ref, a: seq<Entry<K, V>>,
                                        op: (V, V) -> V, extra: bool, ghost h: Ref, ghost frame: multiset<Ref>,
                                        ghost lf: set<Ref>) returns (t: Ref, ghost mid: nat, ghost dup: nat)
    requires OpPre(st, b, extra, h, frame, lf) && StrictOrder(lt) && Sorted(lt, a) && b != 0
    modifies st
    ensures old(TreeAt(st.view, b)).Node?
    ensures mid == Bulk.Mid(lt, a, old(TreeAt(st.view, b)).entry.key)
            && dup == Bulk.Dup(lt, a, old(TreeAt(st.view, b)).entry.key)
    ensures var u := old(TreeAt(st.view, b));
            Yields(st.g, old(st.S()), st.S(), frame, lf, t,
                   Join(st.scheme, Bulk.MultiInsert(st.scheme, lt, u.lc, a[..mid], op),
                        if dup == 1 then Entry(u.entry.key, op(u.entry.val, a[mid].val)) else u.entry,
                        Bulk.MultiInsert(st.scheme, lt, u.rc, a[mid + dup..], op)))
    decreases TreeAt(st.view, b), 1
  {
    ghost var s0 := st.S();
    var copy, e, l, r := EnterBoth(st, b, extra, h, frame, lf);
    var m, d := Divide(lt, a, e.key);
    mid, dup := m, d;
    var u, v := MultiInsertParts(st, lt, b, copy, extra, e, l, r, a[..m], a[m + d..], op, h, s0, frame, lf);
    t := Rejoin(st, b, copy, extra, u, v, if d == 1 then Entry(e.key, op(e.val, a[m].val)) else e, Keeper(b, extra, h),
        e, s0, frame, lf);
  }

  /** What is left to do once both children of the entered node `b` have become `u` and `v`. */
  ghost predicate Parted<E, A>(st: Store<E, A>, s0: Sys<E, A>, b: Ref, copy: bool, extra: bool, h: Ref, u: Ref, v: Ref,
                               e: E, frame: multiset<Ref>, lf: set<Ref>)
    reads st
  {
    && Valid(st.g, st.S()) && Loose(st.S()) == lf + HoldL(b, copy) && Kept(s0, st.S(), frame, lf)
    && st.owned == frame + Tok(u) + Tok(v) + Hold(b, copy, extra)
    && Hand(st.S(), b, copy, Keeper(b, extra, h), frame + Hold(b, copy, extra), lf + HoldL(b, copy), e)
  }

  ghost predicate Entered2<E, A>(st: Store<E, A>, s0: Sys<E, A>, b: Ref, copy: bool, extra: bool, h: Ref, l: Ref,
                                 r: Ref, e: E, frame: multiset<Ref>, lf: set<Ref>)
    reads st
  {
    && OpPre(st, l, copy, Keeper(b, extra, h), frame + Hold(b, copy, extra) + TokIf(r, copy), lf + HoldL(b, copy))
    && Hand(st.S(), b, copy, Keeper(b, extra, h), frame + Hold(b, copy, extra), lf + HoldL(b, copy), e)
    && (copy ==> Lent(st.view, r, Keeper(b, extra, h), frame + Hold(b, copy, extra))) && Kept(s0, st.S(), frame, lf)
  }

  method MultiInsertParts<K(!new), V, A>(st: Store<Entry<K, V>, A>, lt: (K, K) -> bool, b: Ref, copy: bool, extra: bool,
                                         e: Entry<K, V>, l: Ref, r: Ref, al: seq<Entry<K, V>>, ar: seq<Entry<K, V>>,
                                         op: (V, V) -> V, ghost h: Ref, ghost s0: Sys<Entry<K, V>, A>,
                                         ghost frame: multiset<Ref>, ghost lf: set<Ref>) returns (u: Ref, v: Ref)
    requires StrictOrder(lt) && Sorted(lt, al) && Sorted(lt, ar)
             && Entered2(st, s0, b, copy, extra, h, l, r, e, frame, lf)
    modifies st
    ensures Parted(st, s0, b, copy, extra, h, u, v, e, frame, lf)
    ensures TreeAt(st.view, u) == Bulk.MultiInsert(st.scheme, lt, old(TreeAt(st.view, l)), al, op)
    ensures TreeAt(st.view, v) == Bulk.MultiInsert(st.scheme, lt, old(TreeAt(st.view, r)), ar, op)
    decreases Node(TreeAt(st.view, l), e, TreeAt(st.view, r)), 0
  {
    ghost var s1, k := st.S(), Keeper(b, extra, h);
    ghost var fr, lf' := frame + Hold(b, copy, extra), lf + HoldL(b, copy);
    u := MultiInsertSorted(st, lt, l, al, op, copy, k, fr + TokIf(r, copy), lf');
    ghost var s2 := st.S();
    LeftDone(st, s0, s1, b, copy, extra, h, r, u, e, TreeAt(st.view, u), frame, lf);
    v := MultiInsertSorted(st, lt, r, ar, op, copy, k, fr + Tok(u), lf');
    Returned(st.g, s0, s2, st.S(), b, copy, extra, h, u, v, e, TreeAt(st.view, v), frame, lf);
  }

  method Divide<K(!new), V>(lt: (K, K) -> bool, a: seq<Entry<K, V>>, k: K) returns (mid: nat, dup: nat)
    requires StrictOrder(lt) && Sorted(lt, a)
    ensures mid == Bulk.Mid(lt, a, k) && dup == Bulk.Dup(lt, a, k)
    ensures Sorted(lt, a[..mid]) && Sorted(lt, a[mid + dup..])
  {
    var less := (e: Entry<K, V>) => lt(e.key, k);
    mid := Bulk.BinarySearch(a, less);
    assert mid == Bulk.Mid(lt, a, k);
    dup := if mid < |a| && !lt(k, a[mid].key) then 1 else 0;
  }

  method MultiDeleteSorted<K(!new), V, A>(st: Store<Entry<K, V>, A>, lt: (K, K) -> bool, b: Ref, ks: seq<K>,
                                          extra: bool, ghost h: Ref, ghost frame: multiset<Ref>, ghost lf: set<Ref>)
      returns (t: Ref)
    requires OpPre(st, b, extra, h, frame, lf) && StrictOrder(lt) && Bulk.SortedKeys(lt, ks)
    modifies st
    ensures Yields(st.g, old(st.S()), st.S(), frame, lf, t,
            Bulk.MultiDelete(st.scheme, lt, old(TreeAt(st.view, b)), ks))
    decreases TreeAt(st.view, b), 2
  {
    OpReadable(st, b, extra, h, frame, lf);
    if b == 0 {
      Discard(st, b, extra, frame, lf);
      t := 0;
    } else if |ks| == 0 {
      IncIf(st, b, extra, frame, lf);
      t := b;
    } else {
      ghost var mid, dup;
      t, mid, dup := MultiDeleteNode(st, lt, b, ks, extra, h, frame, lf);
    }
  }

  method MultiDeleteNode<K(!new), V, A>(st: Store<Entry<K, V>, A>, lt: (K, K) -> bool, b: Ref, ks: seq<K>, extra: bool,
                                        ghost h: Ref, ghost frame: multiset<Ref>, ghost lf: set<Ref>)
      returns (t: Ref, ghost mid: nat, ghost dup: nat)
    requires OpPre(st, b, extra, h, frame, lf) && StrictOrder(lt) && Bulk.SortedKeys(lt, ks) && b != 0
    modifies st
    ensures old(TreeAt(st.view, b)).Node?
    ensures mid == Bulk.KeyMid(lt, ks, old(TreeAt(st.view, b)).entry.key)
            && dup == Bulk.KeyDup(lt, ks, old(TreeAt(st.view, b)).entry.key)
    ensures var u := old(TreeAt(st.view, b));
            var l, r := Bulk.MultiDelete(st.scheme, lt, u.lc, ks[..mid]), Bulk.MultiDelete(st.scheme, lt, u.rc,
                ks[mid + dup..]);
            Yields(st.g, old(st.S()), st.S(), frame, lf, t, if dup == 0 then Join(st.scheme, l, u.entry, r)
                else Join2(st.scheme, l, r))
    decreases TreeAt(st.view, b), 1
  {
    ghost var s0 := st.S();
    var copy, e, l, r := EnterBoth(st, b, extra, h, frame, lf);
    var m, d := DivideKeys(lt, ks, e.key);
    mid, dup := m, d;
    var u, v := MultiDeleteParts(st, lt, b, copy, extra, e, l, r, ks[..m], ks[m + d..], h, s0, frame, lf);
    if d == 0 {
      t := Rejoin(st, b, copy, extra, u, v, e, Keeper(b, extra, h), e, s0, frame, lf);
    } else {
      t := Join2Dropping(st, b, copy, extra, u, v, s0, frame, lf);
    }
  }

  method MultiDeleteParts<K(!new), V, A>(st: Store<Entry<K, V>, A>, lt: (K, K) -> bool, b: Ref, copy: bool, extra: bool,
                                         ghost e: Entry<K, V>, l: Ref, r: Ref, kl: seq<K>, kr: seq<K>, ghost h: Ref,
                                         ghost s0: Sys<Entry<K, V>, A>, ghost frame: multiset<Ref>, ghost lf: set<Ref>)
      returns (u: Ref, v: Ref)
    requires StrictOrder(lt) && Bulk.SortedKeys(lt, kl) && Bulk.SortedKeys(lt, kr)
             && Entered2(st, s0, b, copy, extra, h, l, r, e, frame, lf)
    modifies st
    ensures Parted(st, s0, b, copy, extra, h, u, v, e, frame, lf)
    ensures TreeAt(st.view, u) == Bulk.MultiDelete(st.scheme, lt, old(TreeAt(st.view, l)), kl)
    ensures TreeAt(st.view, v) == Bulk.MultiDelete(st.scheme, lt, old(TreeAt(st.view, r)), kr)
    decreases Node(TreeAt(st.view, l), e, TreeAt(st.view, r)), 0
  {
    ghost var s1, k := st.S(), Keeper(b, extra, h);
    ghost var fr, lf' := frame + Hold(b, copy, extra), lf + HoldL(b, copy);
    u := MultiDeleteSorted(st, lt, l, kl, copy, k, fr + TokIf(r, copy), lf');
    ghost var s2 := st.S();
    LeftDone(st, s0, s1, b, copy, extra, h, r, u, e, TreeAt(st.view, u), frame, lf);
    v := MultiDeleteSorted(st, lt, r, kr, copy, k, fr + Tok(u), lf');
    Returned(st.g, s0, s2, st.S(), b, copy, extra, h, u, v, e, TreeAt(st.view, v), frame, lf);
  }

  method DivideKeys<K(!new)>(lt: (K, K) -> bool, ks: seq<K>, k: K) returns (mid: nat, dup: nat)
    requires StrictOrder(lt) && Bulk.SortedKeys(lt, ks)
    ensures mid == Bulk.KeyMid(lt, ks, k) && dup == Bulk.KeyDup(lt, ks, k)
    ensures Bulk.SortedKeys(lt, ks[..mid]) && Bulk.SortedKeys(lt, ks[mid + dup..])
  {
    var less := (x: K) => lt(x, k);
    mid := Bulk.BinarySearch(ks, less);
    assert mid == Bulk.KeyMid(lt, ks, k);
    dup := if mid < |ks| && !lt(k, ks[mid]) then 1 else 0;
  }
}
