/** Queries on cached augmented values: sums over key ranges, and selection by a predicate on the cache. */
module Augmented {
  import opened Trees
  import opened Maps
  import opened Heap
  import opened Stores

  // -------------------- folds over sequences of entries --------------------

  ghost predicate Monoid<R(!new)>(op: (R, R) -> R, unit: R) {
    && (forall a :: op(a, unit) == a && op(unit, a) == a)
    && (forall a, b, c :: op(op(a, b), c) == op(a, op(b, c)))
  }

  ghost predicate Commutes<R(!new)>(op: (R, R) -> R) {
    forall a, b :: op(a, b) == op(b, a)
  }

  ghost predicate CommutativeMonoid<R(!new)>(op: (R, R) -> R, unit: R) {
    Monoid(op, unit) && Commutes(op)
  }

  /** The weights of the entries combined from left to right. */
  function Fold<E, R>(op: (R, R) -> R, unit: R, w: E -> R, q: seq<E>): R {
    if q == [] then unit else op(w(q[0]), Fold(op, unit, w, q[1..]))
  }

  lemma {:induction false} FoldConcat<E, R(!new)>(op: (R, R) -> R, unit: R, w: E -> R, p: seq<E>, q: seq<E>)
    requires Monoid(op, unit)
    ensures Fold(op, unit, w, p + q) == op(Fold(op, unit, w, p), Fold(op, unit, w, q))
  {
    if p == [] {
      assert p + q == q;
    } else {
      assert (p + q)[1..] == p[1..] + q;
      FoldConcat(op, unit, w, p[1..], q);
      assert op(op(w(p[0]), Fold(op, unit, w, p[1..])), Fold(op, unit, w, q))
          == op(w(p[0]), op(Fold(op, unit, w, p[1..]), Fold(op, unit, w, q)));
    }
  }

  lemma FoldSnoc<E, R(!new)>(op: (R, R) -> R, unit: R, w: E -> R, a: seq<E>, e: E)
    requires Monoid(op, unit)
    ensures Fold(op, unit, w, a + [e]) == op(Fold(op, unit, w, a), w(e))
  {
    FoldConcat(op, unit, w, a, [e]);
    assert Fold(op, unit, w, [e]) == op(w(e), unit) == w(e);
  }

  lemma FoldParts<E, R(!new)>(op: (R, R) -> R, unit: R, w: E -> R, a: seq<E>, e: E, b: seq<E>)
    requires Monoid(op, unit)
    ensures Fold(op, unit, w, a + [e] + b) == op(op(Fold(op, unit, w, a), w(e)), Fold(op, unit, w, b))
  {
    FoldConcat(op, unit, w, a + [e], b);
    FoldSnoc(op, unit, w, a, e);
  }

  /** The cached value is the fold over the entries below the node, from left to right: whatever the shape of the tree,
      children and entry are combined in key order. */
  lemma {:induction false} AugIsFold<E, A(!new)>(g: Augment<E, A>, t: Tree<E>)
    requires Monoid(g.combine, g.empty)
    ensures AugVal(g, t) == Fold(g.combine, g.empty, g.fromEntry, Inorder(t))
  {
    if t.Node? {
      AugIsFold(g, t.lc);
      AugIsFold(g, t.rc);
      FoldParts(g.combine, g.empty, g.fromEntry, Inorder(t.lc), t.entry, Inorder(t.rc));
    }
  }

  // -------------------- key ranges --------------------

  predicate Within<K>(lt: (K, K) -> bool, left: K, right: K, k: K) {
    !lt(k, left) && !lt(right, k)
  }

  /** The entries with keys in [left, right], in order. */
  function Between<K, V>(lt: (K, K) -> bool, left: K, right: K, q: seq<Entry<K, V>>): seq<Entry<K, V>> {
    if q == [] then []
    else (if Within(lt, left, right, q[0].key) then [q[0]] else []) + Between(lt, left, right, q[1..])
  }

  lemma {:induction false} BetweenConcat<K, V>(lt: (K, K) -> bool, left: K, right: K, p: seq<Entry<K, V>>,
                                               q: seq<Entry<K, V>>)
    ensures Between(lt, left, right, p + q) == Between(lt, left, right, p) + Between(lt, left, right, q)
  {
    if p == [] {
      assert p + q == q;
    } else {
      assert (p + q)[1..] == p[1..] + q;
      BetweenConcat(lt, left, right, p[1..], q);
      var x := if Within(lt, left, right, p[0].key) then [p[0]] else [];
      assert x + (Between(lt, left, right, p[1..]) + Between(lt, left, right, q))
          == x + Between(lt, left, right, p[1..]) + Between(lt, left, right, q);
    }
  }

  ghost predicate AllWithin<K, V>(lt: (K, K) -> bool, left: K, right: K, q: seq<Entry<K, V>>) {
    forall i :: 0 <= i < |q| ==> Within(lt, left, right, q[i].key)
  }

  ghost predicate NoneWithin<K, V>(lt: (K, K) -> bool, left: K, right: K, q: seq<Entry<K, V>>) {
    forall i :: 0 <= i < |q| ==> !Within(lt, left, right, q[i].key)
  }

  lemma {:induction false} BetweenAll<K, V>(lt: (K, K) -> bool, left: K, right: K, q: seq<Entry<K, V>>)
    ensures AllWithin(lt, left, right, q) ==> Between(lt, left, right, q) == q
    ensures NoneWithin(lt, left, right, q) ==> Between(lt, left, right, q) == []
  {
    if q != [] {
      BetweenAll(lt, left, right, q[1..]);
      assert forall i :: 0 <= i < |q[1..]| ==> q[1..][i] == q[i + 1];
      assert q == [q[0]] + q[1..];
    }
  }

  lemma BetweenNode<K, V>(lt: (K, K) -> bool, left: K, right: K, a: seq<Entry<K, V>>, e: Entry<K, V>,
                          b: seq<Entry<K, V>>)
    ensures Between(lt, left, right, a + [e] + b)
         == Between(lt, left, right, a) + (if Within(lt, left, right, e.key) then [e] else []) + Between(lt, left,
             right, b)
  {
    BetweenConcat(lt, left, right, a + [e], b);
    BetweenConcat(lt, left, right, a, [e]);
  }

  // -------------------- range queries --------------------

  /** An accumulator takes single entries and the cached values of whole subtrees. */
  datatype Acc<!E, !A, !R> = Acc(addEntry: (R, E) -> R, addAug: (R, A) -> R)

  function AddTree<E, A, R>(g: Augment<E, A>, c: Acc<E, A, R>, t: Tree<E>, r: R): R {
    if t.Leaf? then r else c.addAug(r, AugVal(g, t))
  }

  function SumRight<K, V, A, R>(g: Augment<Entry<K, V>, A>, lt: (K, K) -> bool, c: Acc<Entry<K, V>, A, R>,
                                t: Tree<Entry<K, V>>, key: K, r: R): R {
    if t.Leaf? then r
    else if !lt(t.entry.key, key) then SumRight(g, lt, c, t.lc, key, AddTree(g, c, t.rc, c.addEntry(r, t.entry)))
    else SumRight(g, lt, c, t.rc, key, r)
  }

  function SumLeft<K, V, A, R>(g: Augment<Entry<K, V>, A>, lt: (K, K) -> bool, c: Acc<Entry<K, V>, A, R>,
                               t: Tree<Entry<K, V>>, key: K, r: R): R {
    if t.Leaf? then r
    else if !lt(key, t.entry.key) then SumLeft(g, lt, c, t.rc, key, AddTree(g, c, t.lc, c.addEntry(r, t.entry)))
    else SumLeft(g, lt, c, t.lc, key, r)
  }

  function RangeRoot<K, V>(lt: (K, K) -> bool, t: Tree<Entry<K, V>>, left: K, right: K): Tree<Entry<K, V>> {
    if t.Leaf? then t
    else if lt(right, t.entry.key) then RangeRoot(lt, t.lc, left, right)
    else if lt(t.entry.key, left) then RangeRoot(lt, t.rc, left, right)
    else t
  }

  function SumRange<K, V, A, R>(g: Augment<Entry<K, V>, A>, lt: (K, K) -> bool, c: Acc<Entry<K, V>, A, R>,
                                t: Tree<Entry<K, V>>, left: K, right: K, r: R): R {
    var m := RangeRoot(lt, t, left, right);
    if m.Leaf? then r
    else SumLeft(g, lt, c, m.rc, right, c.addEntry(SumRight(g, lt, c, m.lc, left, r), m.entry))
  }

  // The queries read the cells of a store and never write one.

  method AugSumRight<K, V, A, R>(st: Store<Entry<K, V>, A>, lt: (K, K) -> bool, c: Acc<Entry<K, V>, A, R>, root: Ref,
                                 key: K, r0: R) returns (r: R)
    requires Valid(st.g, st.S()) && Points(st.view, root)
    ensures r == SumRight(st.g, lt, c, TreeAt(st.view, root), key, r0)
  {
    var b := root;
    r := r0;
    ChildCache(st.g, st.S(), b);
    while b != 0
      invariant Points(st.view, b) && (b == 0 || b in st.mem)
      invariant SumRight(st.g, lt, c, TreeAt(st.view, b), key, r)
          == SumRight(st.g, lt, c, TreeAt(st.view, root), key, r0)
      decreases TreeAt(st.view, b)
    {
      var n := st.mem[b];
      Cells(st, b);
      if !lt(n.entry.key, key) {
        r := c.addEntry(r, n.entry);
        if n.rc != 0 {
          r := c.addAug(r, st.mem[n.rc].aug);
        }
        b := n.lc;
      } else {
        b := n.rc;
      }
    }
    ChildCache(st.g, st.S(), b);
  }

  method AugSumLeft<K, V, A, R>(st: Store<Entry<K, V>, A>, lt: (K, K) -> bool, c: Acc<Entry<K, V>, A, R>, root: Ref,
                                key: K, r0: R) returns (r: R)
    requires Valid(st.g, st.S()) && Points(st.view, root)
    ensures r == SumLeft(st.g, lt, c, TreeAt(st.view, root), key, r0)
  {
    var b := root;
    r := r0;
    ChildCache(st.g, st.S(), b);
    while b != 0
      invariant Points(st.view, b) && (b == 0 || b in st.mem)
      invariant SumLeft(st.g, lt, c, TreeAt(st.view, b), key, r) == SumLeft(st.g, lt, c, TreeAt(st.view, root), key, r0)
      decreases TreeAt(st.view, b)
    {
      var n := st.mem[b];
      Cells(st, b);
      if !lt(key, n.entry.key) {
        r := c.addEntry(r, n.entry);
        if n.lc != 0 {
          r := c.addAug(r, st.mem[n.lc].aug);
        }
        b := n.rc;
      } else {
        b := n.lc;
      }
    }
    ChildCache(st.g, st.S(), b);
  }

  method FindRangeRoot<K, V, A>(st: Store<Entry<K, V>, A>, lt: (K, K) -> bool, root: Ref, left: K, right: K)
      returns (b: Ref)
    requires Valid(st.g, st.S()) && Points(st.view, root)
    ensures Points(st.view, b) && TreeAt(st.view, b) == RangeRoot(lt, TreeAt(st.view, root), left, right)
  {
    b := root;
    while b != 0
      invariant Points(st.view, b)
      invariant RangeRoot(lt, TreeAt(st.view, b), left, right) == RangeRoot(lt, TreeAt(st.view, root), left, right)
      decreases TreeAt(st.view, b)
    {
      Cells(st, b);
      if lt(right, st.mem[b].entry.key) {
        b := st.mem[b].lc;
        continue;
      }
      if lt(st.mem[b].entry.key, left) {
        b := st.mem[b].rc;
        continue;
      }
      break;
    }
    ChildCache(st.g, st.S(), b);
  }

  method AugSumRange<K, V, A, R>(st: Store<Entry<K, V>, A>, lt: (K, K) -> bool, c: Acc<Entry<K, V>, A, R>, root: Ref,
                                 left: K, right: K, r0: R) returns (r: R)
    requires Valid(st.g, st.S()) && Points(st.view, root)
    ensures r == SumRange(st.g, lt, c, TreeAt(st.view, root), left, right, r0)
  {
    r := r0;
    var m := FindRangeRoot(st, lt, root, left, right);
    ChildCache(st.g, st.S(), m);
    if m != 0 {
      Cells(st, m);
      r := AugSumRight(st, lt, c, st.mem[m].lc, left, r);
      r := c.addEntry(r, st.mem[m].entry);
      r := AugSumLeft(st, lt, c, st.mem[m].rc, right, r);
    }
  }

  // -------------------- what a range query computes --------------------

  /** On entries and whole subtrees inside the range the accumulator adds up the weights `w`. */
  ghost predicate Adds<K(!new), V(!new), A, R(!new)>(g: Augment<Entry<K, V>, A>, lt: (K, K) -> bool,
                                                     c: Acc<Entry<K, V>, A, R>, left: K, right: K, op: (R, R) -> R,
                                                     unit: R, w: Entry<K, V> -> R) {
    && (forall r, e: Entry<K, V> :: Within(lt, left, right, e.key) ==> c.addEntry(r, e) == op(r, w(e)))
    && (forall r, t: Tree<Entry<K, V>> :: Ordered(lt, t) && AllWithin(lt, left, right, Inorder(t)) ==>
          AddTree(g, c, t, r) == op(r, Fold(op, unit, w, Inorder(t))))
  }

  /** The sum of the weights of the entries of `t` inside the range. */
  function RangeFold<K, V, R>(lt: (K, K) -> bool, left: K, right: K, op: (R, R) -> R, unit: R, w: Entry<K, V> -> R,
                              t: Tree<Entry<K, V>>): R {
    Fold(op, unit, w, Between(lt, left, right, Inorder(t)))
  }

  /** The keys of a search tree lie on their side of the root. */
  lemma Sides<K(!new), V>(lt: (K, K) -> bool, t: Tree<Entry<K, V>>)
    requires StrictOrder(lt) && Ordered(lt, t) && t.Node?
    ensures forall i :: 0 <= i < |Inorder(t.lc)| ==> lt(Inorder(t.lc)[i].key, t.entry.key)
    ensures forall i :: 0 <= i < |Inorder(t.rc)| ==> lt(t.entry.key, Inorder(t.rc)[i].key)
  {
    BelowIsIndexed(lt, t.lc, t.entry.key);
    AboveIsIndexed(lt, t.entry.key, t.rc);
  }

  ghost predicate NoneAbove<K, V>(lt: (K, K) -> bool, right: K, t: Tree<Entry<K, V>>) {
    forall i :: 0 <= i < |Inorder(t)| ==> !lt(right, Inorder(t)[i].key)
  }

  ghost predicate NoneBelow<K, V>(lt: (K, K) -> bool, left: K, t: Tree<Entry<K, V>>) {
    forall i :: 0 <= i < |Inorder(t)| ==> !lt(Inorder(t)[i].key, left)
  }

  lemma NoneAboveParts<K, V>(lt: (K, K) -> bool, right: K, t: Tree<Entry<K, V>>)
    requires t.Node? && NoneAbove(lt, right, t)
    ensures NoneAbove(lt, right, t.lc) && NoneAbove(lt, right, t.rc) && !lt(right, t.entry.key)
  {
    var a, b, q := Inorder(t.lc), Inorder(t.rc), Inorder(t);
    assert forall i :: 0 <= i < |a| ==> a[i] == q[i];
    assert forall i :: 0 <= i < |b| ==> b[i] == q[|a| + 1 + i];
    assert q[|a|] == t.entry;
  }

  lemma NoneBelowParts<K, V>(lt: (K, K) -> bool, left: K, t: Tree<Entry<K, V>>)
    requires t.Node? && NoneBelow(lt, left, t)
    ensures NoneBelow(lt, left, t.lc) && NoneBelow(lt, left, t.rc) && !lt(t.entry.key, left)
  {
    var a, b, q := Inorder(t.lc), Inorder(t.rc), Inorder(t);
    assert forall i :: 0 <= i < |a| ==> a[i] == q[i];
    assert forall i :: 0 <= i < |b| ==> b[i] == q[|a| + 1 + i];
    assert q[|a|] == t.entry;
  }

  lemma {:induction false} SumRightIs<K(!new), V(!new), A, R(!new)>(g: Augment<Entry<K, V>, A>, lt: (K, K) -> bool,
      c: Acc<Entry<K, V>, A, R>, left: K, right: K, op: (R, R) -> R, unit: R, w: Entry<K, V> -> R, t: Tree<Entry<K, V>>,
      r: R)
    requires StrictOrder(lt) && CommutativeMonoid(op, unit) && Adds(g, lt, c, left, right, op, unit, w)
    requires Ordered(lt, t) && NoneAbove(lt, right, t)
    ensures SumRight(g, lt, c, t, left, r) == op(r, RangeFold(lt, left, right, op, unit, w, t))
    decreases t
  {
    if t.Node? {
      var a, e, b := Inorder(t.lc), t.entry, Inorder(t.rc);
      Sides(lt, t);
      NoneAboveParts(lt, right, t);
      BetweenNode(lt, left, right, a, e, b);
      if !lt(e.key, left) {
        assert AllWithin(lt, left, right, b);
        BetweenAll(lt, left, right, b);
        FoldParts(op, unit, w, Between(lt, left, right, a), e, b);
        var r1 := op(op(r, w(e)), Fold(op, unit, w, b));
        assert AddTree(g, c, t.rc, c.addEntry(r, e)) == r1;
        SumRightIs(g, lt, c, left, right, op, unit, w, t.lc, r1);
      } else {
        assert NoneWithin(lt, left, right, a);
        BetweenAll(lt, left, right, a);
        assert Between(lt, left, right, Inorder(t)) == Between(lt, left, right, b);
        SumRightIs(g, lt, c, left, right, op, unit, w, t.rc, r);
      }
    }
  }

  lemma {:induction false} SumLeftIs<K(!new), V(!new), A, R(!new)>(g: Augment<Entry<K, V>, A>, lt: (K, K) -> bool,
      c: Acc<Entry<K, V>, A, R>, left: K, right: K, op: (R, R) -> R, unit: R, w: Entry<K, V> -> R, t: Tree<Entry<K, V>>,
      r: R)
    requires StrictOrder(lt) && CommutativeMonoid(op, unit) && Adds(g, lt, c, left, right, op, unit, w)
    requires Ordered(lt, t) && NoneBelow(lt, left, t)
    ensures SumLeft(g, lt, c, t, right, r) == op(r, RangeFold(lt, left, right, op, unit, w, t))
    decreases t
  {
    if t.Node? {
      var a, e, b := Inorder(t.lc), t.entry, Inorder(t.rc);
      Sides(lt, t);
      NoneBelowParts(lt, left, t);
      BetweenNode(lt, left, right, a, e, b);
      if !lt(right, e.key) {
        assert AllWithin(lt, left, right, a);
        BetweenAll(lt, left, right, a);
        FoldParts(op, unit, w, a, e, Between(lt, left, right, b));
        var r1 := op(op(r, w(e)), Fold(op, unit, w, a));
        assert AddTree(g, c, t.lc, c.addEntry(r, e)) == r1;
        SumLeftIs(g, lt, c, left, right, op, unit, w, t.rc, r1);
      } else {
        assert NoneWithin(lt, left, right, b);
        BetweenAll(lt, left, right, b);
        assert Between(lt, left, right, Inorder(t)) == Between(lt, left, right, a);
        SumLeftIs(g, lt, c, left, right, op, unit, w, t.lc, r);
      }
    }
  }

  /** Everything inside the range lies below the range root. */
  lemma {:induction false} RangeRootIs<K(!new), V>(lt: (K, K) -> bool, t: Tree<Entry<K, V>>, left: K, right: K)
    requires StrictOrder(lt) && Ordered(lt, t)
    ensures var m := RangeRoot(lt, t, left, right);
            && Ordered(lt, m) && Between(lt, left, right, Inorder(m)) == Between(lt, left, right, Inorder(t))
            && (m.Node? ==> Within(lt, left, right, m.entry.key))
  {
    if t.Node? {
      var a, e, b := Inorder(t.lc), t.entry, Inorder(t.rc);
      Sides(lt, t);
      BetweenNode(lt, left, right, a, e, b);
      if lt(right, e.key) {
        assert NoneWithin(lt, left, right, b);
        BetweenAll(lt, left, right, b);
        RangeRootIs(lt, t.lc, left, right);
      } else if lt(e.key, left) {
        assert NoneWithin(lt, left, right, a);
        BetweenAll(lt, left, right, a);
        RangeRootIs(lt, t.rc, left, right);
      }
    }
  }

  /** A range query adds to `r` the weights of exactly the entries with keys in [left, right]. */
  lemma SumRangeIs<K(!new), V(!new), A, R(!new)>(g: Augment<Entry<K, V>, A>, lt: (K, K) -> bool,
                                                 c: Acc<Entry<K, V>, A, R>, left: K, right: K, op: (R, R) -> R, unit: R,
                                                 w: Entry<K, V> -> R, t: Tree<Entry<K, V>>, r: R)
    requires StrictOrder(lt) && CommutativeMonoid(op, unit) && Adds(g, lt, c, left, right, op, unit, w)
             && Ordered(lt, t)
    ensures SumRange(g, lt, c, t, left, right, r) == op(r, RangeFold(lt, left, right, op, unit, w, t))
  {
    var m := RangeRoot(lt, t, left, right);
    RangeRootIs(lt, t, left, right);
    if m.Node? {
      SumNodeIs(g, lt, c, left, right, op, unit, w, m, r);
    }
  }

  /** The query from a range root on. */
  lemma SumNodeIs<K(!new), V(!new), A, R(!new)>(g: Augment<Entry<K, V>, A>, lt: (K, K) -> bool,
                                                c: Acc<Entry<K, V>, A, R>, left: K, right: K, op: (R, R) -> R, unit: R,
                                                w: Entry<K, V> -> R, m: Tree<Entry<K, V>>, r: R)
    requires StrictOrder(lt) && CommutativeMonoid(op, unit) && Adds(g, lt, c, left, right, op, unit, w)
    requires m.Node? && Ordered(lt, m) && Within(lt, left, right, m.entry.key)
    ensures SumLeft(g, lt, c, m.rc, right, c.addEntry(SumRight(g, lt, c, m.lc, left, r), m.entry))
         == op(r, RangeFold(lt, left, right, op, unit, w, m))
  {
    var a, b := RangeFold(lt, left, right, op, unit, w, m.lc), RangeFold(lt, left, right, op, unit, w, m.rc);
    Sides(lt, m);
    SumRightIs(g, lt, c, left, right, op, unit, w, m.lc, r);
    SumLeftIs(g, lt, c, left, right, op, unit, w, m.rc, op(op(r, a), w(m.entry)));
    RangeNode(lt, left, right, op, unit, w, m);
  }

  lemma RangeNode<K(!new), V(!new), R(!new)>(lt: (K, K) -> bool, left: K, right: K, op: (R, R) -> R, unit: R,
                                             w: Entry<K, V> -> R, m: Tree<Entry<K, V>>)
    requires CommutativeMonoid(op, unit) && m.Node? && Within(lt, left, right, m.entry.key)
    ensures RangeFold(lt, left, right, op, unit, w, m)
         == op(op(RangeFold(lt, left, right, op, unit, w, m.lc), w(m.entry)),
             RangeFold(lt, left, right, op, unit, w, m.rc))
  {
    BetweenNode(lt, left, right, Inorder(m.lc), m.entry, Inorder(m.rc));
    FoldParts(op, unit, w, Between(lt, left, right, Inorder(m.lc)), m.entry, Between(lt, left, right, Inorder(m.rc)));
  }

  // -------------------- the sum of augmented values --------------------

  function AugSum<E, A>(g: Augment<E, A>): Acc<E, A, A> {
    Acc((r: A, e: E) => g.combine(r, g.fromEntry(e)), g.combine)
  }

  /** With a commutative monoid the range sum is the fold over exactly the entries in the range. */
  lemma AugRangeIs<K(!new), V(!new), A(!new)>(g: Augment<Entry<K, V>, A>, lt: (K, K) -> bool, t: Tree<Entry<K, V>>,
                                              left: K, right: K)
    requires StrictOrder(lt) && CommutativeMonoid(g.combine, g.empty) && Ordered(lt, t)
    ensures SumRange(g, lt, AugSum(g), t, left, right, g.empty)
         == RangeFold(lt, left, right, g.combine, g.empty, g.fromEntry, t)
  {
    var c := AugSum(g);
    forall r, u: Tree<Entry<K, V>>
        ensures AddTree(g, c, u, r) == g.combine(r, Fold(g.combine, g.empty, g.fromEntry, Inorder(u))) {
      AugIsFold(g, u);
    }
    assert Adds(g, lt, c, left, right, g.combine, g.empty, g.fromEntry);
    SumRangeIs(g, lt, c, left, right, g.combine, g.empty, g.fromEntry, t, g.empty);
  }

  /** A map from numbers whose values are combined as they are. */
  function Valued<A>(op: (A, A) -> A, unit: A): Augment<Entry<int, A>, A> {
    Augment((e: Entry<int, A>) => e.val, op, unit)
  }

  predicate Less(a: int, b: int) {
    a < b
  }

  /** The range query of this map is the fold over the entries in the range. */
  ghost predicate Answers<A>(op: (A, A) -> A, unit: A, t: Tree<Entry<int, A>>, left: int, right: int) {
    var g := Valued(op, unit);
    SumRange(g, Less, AugSum(g), t, left, right, unit) == RangeFold(Less, left, right, op, unit, g.fromEntry, t)
  }

  /** 1, 2 and 3 in a left spine: the query visits 2 before 1. */
  function LeftSpine<A>(a: A, b: A, c: A): Tree<Entry<int, A>> {
    Node(Node(Node(Leaf, Entry(1, a), Leaf), Entry(2, b), Leaf), Entry(3, c), Leaf)
  }

  lemma SpineOrdered<A>(a: A, b: A, c: A)
    ensures Ordered(Less, LeftSpine(a, b, c))
  {
    var t := LeftSpine(a, b, c);
    var l := t.lc;
    assert Inorder(l.lc) == [Entry(1, a)] && Inorder(l) == [Entry(1, a), Entry(2, b)];
    forall x ensures Get<int, A>(Leaf, x) == None {
    }
    BelowIsIndexed(Less, l.lc, 2);
    BelowIsIndexed(Less, l, 3);
    assert Ordered(Less, l.lc) && Ordered(Less, l);
  }

  lemma SpineSum<A(!new)>(op: (A, A) -> A, unit: A, a: A, b: A)
    requires Monoid(op, unit)
    ensures var g := Valued(op, unit);
            SumRange(g, Less, AugSum(g), LeftSpine(a, b, unit), 1, 3, unit) == op(b, a)
  {
    var g, l := Valued(op, unit), LeftSpine(a, b, unit).lc;
    assert SumRight(g, Less, AugSum(g), l, 1, unit) == SumRight(g, Less, AugSum(g), l.lc, 1, op(unit, b)) == op(b, a);
  }

  lemma SpineFold<A>(op: (A, A) -> A, unit: A, a: A, b: A)
    requires op(unit, unit) == unit && op(b, unit) == b
    ensures RangeFold(Less, 1, 3, op, unit, Valued(op, unit).fromEntry, LeftSpine(a, b, unit)) == op(a, b)
  {
    var w, t := Valued(op, unit).fromEntry, LeftSpine(a, b, unit);
    var q := [Entry(1, a), Entry(2, b), Entry(3, unit)];
    assert Inorder(t) == q by {
      assert Inorder(t.lc) == [q[0], q[1]] && Inorder(t) == Inorder(t.lc) + [q[2]] + [];
    }
    assert AllWithin(Less, 1, 3, q);
    BetweenAll(Less, 1, 3, q);
    assert q[1..] == [q[1], q[2]] && q[1..][1..] == [q[2]];
    assert Fold(op, unit, w, [q[2]]) == op(unit, unit);
    assert Fold(op, unit, w, q[1..]) == op(b, Fold(op, unit, w, q[1..][1..]));
    assert Fold(op, unit, w, q) == op(a, Fold(op, unit, w, q[1..]));
  }

  /** The range query adds entries out of key order. With an associative `combine` it is the fold over the range, for
      all
      search trees and ranges, if and only if `combine` is commutative. */
  lemma RangeExact<A(!new)>(op: (A, A) -> A, unit: A)
    requires Monoid(op, unit)
    ensures (forall t, left, right :: Ordered(Less, t) ==> Answers(op, unit, t, left, right)) <==> Commutes(op)
  {
    if Commutes(op) {
      forall t: Tree<Entry<int, A>>, left, right | Ordered(Less, t) ensures Answers(op, unit, t, left, right) {
        AugRangeIs(Valued(op, unit), Less, t, left, right);
      }
    } else {
      var a, b :| op(a, b) != op(b, a);
      SpineOrdered(a, b, unit);
      SpineSum(op, unit, a, b);
      SpineFold(op, unit, a, b);
      assert !Answers(op, unit, LeftSpine(a, b, unit), 1, 3);
    }
  }

  method AugRange<K(!new), V(!new), A(!new)>(st: Store<Entry<K, V>, A>, lt: (K, K) -> bool, root: Ref, left: K,
                                             right: K)
      returns (r: A)
    requires Valid(st.g, st.S()) && Points(st.view, root)
    requires StrictOrder(lt) && CommutativeMonoid(st.g.combine, st.g.empty) && Ordered(lt, TreeAt(st.view, root))
    ensures r == RangeFold(lt, left, right, st.g.combine, st.g.empty, st.g.fromEntry, TreeAt(st.view, root))
  {
    AugRangeIs(st.g, lt, TreeAt(st.view, root), left, right);
    r := AugSumRange(st, lt, AugSum(st.g), root, left, right, st.g.empty);
  }

  // -------------------- selection --------------------

  function AugSelect<E, A>(g: Augment<E, A>, t: Tree<E>, f: A -> bool): Option<E> {
    if t.Leaf? then None
    else if f(AugVal(g, t.lc)) then
      if f(g.fromEntry(t.entry)) then AugSelect(g, t.rc, f) else Some(t.entry)
    else AugSelect(g, t.lc, f)
  }

  /** Selection on cells: the node that holds the selected entry, or null. */
  method AugSelectNode<E, A>(st: Store<E, A>, b: Ref, f: A -> bool) returns (r: Ref)
    requires Valid(st.g, st.S()) && Points(st.view, b)
    ensures r == 0 <==> AugSelect(st.g, TreeAt(st.view, b), f).None?
    ensures r != 0 ==> r in st.view && r in st.mem && AugSelect(st.g, TreeAt(st.view, b), f) == Some(st.mem[r].entry)
    decreases TreeAt(st.view, b)
  {
    ChildCache(st.g, st.S(), b);
    if b == 0 {
      return 0;
    }
    Cells(st, b);
    var n := st.mem[b];
    if f(if n.lc == 0 then st.g.empty else st.mem[n.lc].aug) {
      if f(st.g.fromEntry(n.entry)) {
        r := AugSelectNode(st, n.rc, f);
      } else {
        r := b;
      }
    } else {
      r := AugSelectNode(st, n.lc, f);
    }
  }

  /** `f` can be decided entry by entry. */
  ghost predicate Distributes<E, A(!new)>(g: Augment<E, A>, f: A -> bool) {
    f(g.empty) && forall a, b :: f(g.combine(a, b)) <==> f(a) && f(b)
  }

  ghost predicate Satisfied<E, A>(g: Augment<E, A>, f: A -> bool, q: seq<E>) {
    forall i :: 0 <= i < |q| ==> f(g.fromEntry(q[i]))
  }

  lemma {:induction false} AugSatisfied<E, A(!new)>(g: Augment<E, A>, f: A -> bool, t: Tree<E>)
    requires Distributes(g, f)
    ensures f(AugVal(g, t)) <==> Satisfied(g, f, Inorder(t))
  {
    if t.Node? {
      AugSatisfied(g, f, t.lc);
      AugSatisfied(g, f, t.rc);
      SatisfiedParts(g, f, Inorder(t.lc), t.entry, Inorder(t.rc));
    }
  }

  lemma SatisfiedParts<E, A>(g: Augment<E, A>, f: A -> bool, a: seq<E>, e: E, b: seq<E>)
    ensures Satisfied(g, f, a + [e] + b) <==> Satisfied(g, f, a) && f(g.fromEntry(e)) && Satisfied(g, f, b)
  {
    var q := a + [e] + b;
    assert forall i :: 0 <= i < |a| ==> a[i] == q[i];
    assert q[|a|] == e;
    assert forall i :: 0 <= i < |b| ==> b[i] == q[|a| + 1 + i];
    assert forall i :: |a| < i < |q| ==> q[i] == b[i - |a| - 1];
  }

  /** `e` is the first entry of `q` that fails `f`, at position `n`. */
  ghost predicate FirstFailing<E, A>(g: Augment<E, A>, f: A -> bool, q: seq<E>, e: E, n: nat) {
    n < |q| && q[n] == e && !f(g.fromEntry(e)) && Satisfied(g, f, q[..n])
  }

  /** A first failing entry of a part is the first failing entry of the whole if nothing before it fails. */
  lemma FirstAfter<E, A>(g: Augment<E, A>, f: A -> bool, a: seq<E>, e: E, b: seq<E>, x: E, n: nat)
    requires Satisfied(g, f, a) && f(g.fromEntry(e)) && FirstFailing(g, f, b, x, n)
    ensures FirstFailing(g, f, a + [e] + b, x, |a| + 1 + n)
  {
  }

  /** Selection returns the first entry in key order that fails `f`, if there is one. */
  lemma {:induction false} AugSelectIs<E, A(!new)>(g: Augment<E, A>, t: Tree<E>, f: A -> bool)
    requires Distributes(g, f)
    ensures AugSelect(g, t, f).None? <==> Satisfied(g, f, Inorder(t))
    ensures AugSelect(g, t, f).Some? ==> exists n :: FirstFailing(g, f, Inorder(t), AugSelect(g, t, f).value, n)
  {
    if t.Node? {
      var a, e, b := Inorder(t.lc), t.entry, Inorder(t.rc);
      AugSatisfied(g, f, t.lc);
      SatisfiedParts(g, f, a, e, b);
      if f(AugVal(g, t.lc)) && f(g.fromEntry(e)) {
        AugSelectIs(g, t.rc, f);
        if AugSelect(g, t.rc, f).Some? {
          var n: nat :| FirstFailing(g, f, b, AugSelect(g, t.rc, f).value, n);
          FirstAfter(g, f, a, e, b, AugSelect(g, t.rc, f).value, n);
        }
      } else if f(AugVal(g, t.lc)) {
        assert Inorder(t)[..|a|] == a;
        assert FirstFailing(g, f, Inorder(t), e, |a|);
      } else {
        AugSelectIs(g, t.lc, f);
        var n: nat :| FirstFailing(g, f, a, AugSelect(g, t.lc, f).value, n);
        assert Inorder(t)[..n] == a[..n];
        assert FirstFailing(g, f, Inorder(t), AugSelect(g, t, f).value, n);
      }
    }
  }
}
