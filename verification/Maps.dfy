/** Ordered maps as values: the operations of the map interface on trees of entries,
    and what they do to the map that a tree stands for. */
module Maps {
  import opened Trees

  datatype Entry<K, V> = Entry(key: K, val: V)

  ghost predicate StrictOrder<K(!new)>(lt: (K, K) -> bool) {
    && (forall a :: !lt(a, a))
    && (forall a, b, c :: lt(a, b) && lt(b, c) ==> lt(a, c))
    && (forall a, b :: a == b || lt(a, b) || lt(b, a))
  }

  /** Pairs of numbers, first component first. */
  predicate Lex(a: (int, int), b: (int, int)) {
    a.0 < b.0 || (a.0 == b.0 && a.1 < b.1)
  }

  lemma LexIsOrder()
    ensures StrictOrder(Lex)
  {
  }

  // -------------------- the map a tree stands for --------------------

  /** The value of the first entry with key `x`. */
  function Look<K(==), V>(q: seq<Entry<K, V>>, x: K): Option<V> {
    if q == [] then None else if q[0].key == x then Some(q[0].val) else Look(q[1..], x)
  }

  function Get<K(==), V>(t: Tree<Entry<K, V>>, x: K): Option<V> {
    Look(Inorder(t), x)
  }

  ghost predicate Sorted<K, V>(lt: (K, K) -> bool, q: seq<Entry<K, V>>) {
    forall i, j :: 0 <= i < j < |q| ==> lt(q[i].key, q[j].key)
  }

  ghost predicate Below<K(!new), V>(lt: (K, K) -> bool, t: Tree<Entry<K, V>>, k: K) {
    forall x :: Get(t, x).Some? ==> lt(x, k)
  }

  ghost predicate Above<K(!new), V>(lt: (K, K) -> bool, k: K, t: Tree<Entry<K, V>>) {
    forall x :: Get(t, x).Some? ==> lt(k, x)
  }

  /** A search tree. */
  ghost predicate Ordered<K(!new), V>(lt: (K, K) -> bool, t: Tree<Entry<K, V>>) {
    t.Leaf? || (Ordered(lt, t.lc) && Ordered(lt, t.rc) && Below(lt, t.lc, t.entry.key) && Above(lt, t.entry.key, t.rc))
  }

  function Or<V>(a: Option<V>, b: Option<V>): Option<V> {
    if a.Some? then a else b
  }

  lemma {:induction false} LookConcat<K, V>(a: seq<Entry<K, V>>, b: seq<Entry<K, V>>, x: K)
    ensures Look(a + b, x) == Or(Look(a, x), Look(b, x))
  {
    if a == [] {
      assert a + b == b;
    } else {
      assert (a + b)[1..] == a[1..] + b;
      LookConcat(a[1..], b, x);
    }
  }

  lemma GetParts<K, V>(l: seq<Entry<K, V>>, e: Entry<K, V>, r: seq<Entry<K, V>>, x: K)
    ensures Look(l + [e] + r, x) == Or(Look(l, x), if x == e.key then Some(e.val) else Look(r, x))
  {
    LookConcat(l + [e], r, x);
    LookConcat(l, [e], x);
  }

  lemma {:induction false} LookIndex<K, V>(q: seq<Entry<K, V>>, x: K)
    ensures Look(q, x).Some? <==> exists i :: 0 <= i < |q| && q[i].key == x
  {
    if q != [] {
      LookIndex(q[1..], x);
      if Look(q[1..], x).Some? {
        var i :| 0 <= i < |q[1..]| && q[1..][i].key == x;
        assert q[i + 1].key == x;
      }
      if i :| 0 <= i < |q| && q[i].key == x {
        if i > 0 {
          assert q[1..][i - 1].key == x;
        }
      }
    }
  }

  /** A search tree is one whose in-order sequence has strictly increasing keys. */
  lemma {:induction false} OrderedIsSorted<K(!new), V>(lt: (K, K) -> bool, t: Tree<Entry<K, V>>)
    requires StrictOrder(lt)
    ensures Ordered(lt, t) <==> Sorted(lt, Inorder(t))
  {
    if t.Node? {
      OrderedIsSorted(lt, t.lc);
      OrderedIsSorted(lt, t.rc);
      var a, b := Inorder(t.lc), Inorder(t.rc);
      SortedParts(lt, a, t.entry, b);
      BelowIsIndexed(lt, t.lc, t.entry.key);
      AboveIsIndexed(lt, t.entry.key, t.rc);
    }
  }

  lemma KeyFound<K, V>(t: Tree<Entry<K, V>>, i: nat)
    requires i < |Inorder(t)|
    ensures Get(t, Inorder(t)[i].key).Some?
  {
    LookIndex(Inorder(t), Inorder(t)[i].key);
  }

  lemma KeyIndex<K, V>(t: Tree<Entry<K, V>>, x: K) returns (i: nat)
    requires Get(t, x).Some?
    ensures i < |Inorder(t)| && Inorder(t)[i].key == x
  {
    LookIndex(Inorder(t), x);
    i :| 0 <= i < |Inorder(t)| && Inorder(t)[i].key == x;
  }

  lemma BelowIsIndexed<K(!new), V>(lt: (K, K) -> bool, t: Tree<Entry<K, V>>, k: K)
    ensures Below(lt, t, k) <==> forall i :: 0 <= i < |Inorder(t)| ==> lt(Inorder(t)[i].key, k)
  {
    if Below(lt, t, k) {
      forall i | 0 <= i < |Inorder(t)| ensures lt(Inorder(t)[i].key, k) {
        KeyFound(t, i);
      }
    } else {
      var x :| Get(t, x).Some? && !lt(x, k);
      var i := KeyIndex(t, x);
      assert !lt(Inorder(t)[i].key, k);
    }
  }

  lemma AboveIsIndexed<K(!new), V>(lt: (K, K) -> bool, k: K, t: Tree<Entry<K, V>>)
    ensures Above(lt, k, t) <==> forall i :: 0 <= i < |Inorder(t)| ==> lt(k, Inorder(t)[i].key)
  {
    if Above(lt, k, t) {
      forall i | 0 <= i < |Inorder(t)| ensures lt(k, Inorder(t)[i].key) {
        KeyFound(t, i);
      }
    } else {
      var x :| Get(t, x).Some? && !lt(k, x);
      var i := KeyIndex(t, x);
      assert !lt(k, Inorder(t)[i].key);
    }
  }

  lemma SortedParts<K(!new), V>(lt: (K, K) -> bool, a: seq<Entry<K, V>>, e: Entry<K, V>, b: seq<Entry<K, V>>)
    requires StrictOrder(lt)
    ensures Sorted(lt, a + [e] + b) <==>
            && Sorted(lt, a) && Sorted(lt, b)
            && (forall i :: 0 <= i < |a| ==> lt(a[i].key, e.key))
            && (forall i :: 0 <= i < |b| ==> lt(e.key, b[i].key))
  {
    if Sorted(lt, a + [e] + b) {
      var q := a + [e] + b;
      assert q[|a|] == e;
      assert forall i :: 0 <= i < |a| ==> a[i] == q[i];
      assert forall i :: 0 <= i < |b| ==> b[i] == q[|a| + 1 + i];
    }
    if Sorted(lt, a) && Sorted(lt, b) && (forall i :: 0 <= i < |a| ==> lt(a[i].key, e.key))
       && (forall i :: 0 <= i < |b| ==> lt(e.key, b[i].key)) {
    }
  }

  /** Two sorted sequences that agree on every key are equal. */
  lemma {:induction false} SortedUnique<K(!new), V>(lt: (K, K) -> bool, p: seq<Entry<K, V>>, q: seq<Entry<K, V>>)
    requires StrictOrder(lt) && Sorted(lt, p) && Sorted(lt, q)
    requires forall x :: Look(p, x) == Look(q, x)
    ensures p == q
  {
    if p == [] && q == [] {
    } else {
      if q != [] { NonemptyAgree(p, q); } else { NonemptyAgree(q, p); }
      HeadsAgree(lt, p, q);
      forall x ensures Look(p[1..], x) == Look(q[1..], x) {
        assert Look(p, x) == Look(q, x);
        NotInTail(lt, p, x);
        NotInTail(lt, q, x);
      }
      SortedUnique(lt, p[1..], q[1..]);
    }
  }

  lemma NonemptyAgree<K(!new), V>(p: seq<Entry<K, V>>, q: seq<Entry<K, V>>)
    requires q != [] && forall x :: Look(p, x) == Look(q, x)
    ensures p != []
  {
    assert Look(q, q[0].key).Some?;
  }

  lemma NotInTail<K(!new), V>(lt: (K, K) -> bool, q: seq<Entry<K, V>>, x: K)
    requires StrictOrder(lt) && Sorted(lt, q) && q != []
    ensures x == q[0].key || lt(x, q[0].key) ==> Look(q[1..], x) == None
  {
    LookIndex(q[1..], x);
    if Look(q[1..], x).Some? {
      var i :| 0 <= i < |q[1..]| && q[1..][i].key == x;
      assert lt(q[0].key, q[i + 1].key);
    }
  }

  lemma HeadsAgree<K(!new), V>(lt: (K, K) -> bool, p: seq<Entry<K, V>>, q: seq<Entry<K, V>>)
    requires StrictOrder(lt) && Sorted(lt, p) && Sorted(lt, q) && p != [] && q != []
    requires forall x :: Look(p, x) == Look(q, x)
    ensures p[0] == q[0]
  {
    var a, b := p[0].key, q[0].key;
    assert Look(p, a) == Look(q, a) && Look(p, b) == Look(q, b);
    NotInTail(lt, p, b);
    NotInTail(lt, q, a);
  }

  // -------------------- joins of search trees --------------------

  lemma GetJoin<K, V>(s: Scheme<Entry<K, V>>, l: Tree<Entry<K, V>>, e: Entry<K, V>, r: Tree<Entry<K, V>>, x: K)
    ensures Get(Join(s, l, e, r), x) == Or(Get(l, x), if x == e.key then Some(e.val) else Get(r, x))
    ensures Get(Node(l, e, r), x) == Or(Get(l, x), if x == e.key then Some(e.val) else Get(r, x))
  {
    JoinInorder(s, l, e, r);
    GetParts(Inorder(l), e, Inorder(r), x);
  }

  /** The join of two trees stands for the same map as the plain node. */
  lemma GetJoinAll<K(!new), V>(s: Scheme<Entry<K, V>>, l: Tree<Entry<K, V>>, e: Entry<K, V>, r: Tree<Entry<K, V>>)
    ensures forall x :: Get(Join(s, l, e, r), x) == Or(Get(l, x), if x == e.key then Some(e.val) else Get(r, x))
  {
    forall x {
      GetJoin(s, l, e, r, x);
    }
  }

  lemma GetNodeAll<K(!new), V>(t: Tree<Entry<K, V>>)
    requires t.Node?
    ensures forall x :: Get(t, x) == Or(Get(t.lc, x), if x == t.entry.key then Some(t.entry.val) else Get(t.rc, x))
  {
    forall x ensures Get(t, x) == Or(Get(t.lc, x), if x == t.entry.key then Some(t.entry.val) else Get(t.rc, x)) {
      GetParts(Inorder(t.lc), t.entry, Inorder(t.rc), x);
    }
  }

  lemma JoinOrdered<K(!new), V>(lt: (K, K) -> bool, s: Scheme<Entry<K, V>>,
                          l: Tree<Entry<K, V>>, e: Entry<K, V>, r: Tree<Entry<K, V>>)
    requires StrictOrder(lt) && Ordered(lt, l) && Ordered(lt, r) && Below(lt, l, e.key) && Above(lt, e.key, r)
    ensures Ordered(lt, Join(s, l, e, r))
  {
    JoinInorder(s, l, e, r);
    OrderedIsSorted(lt, Node(l, e, r));
    OrderedIsSorted(lt, Join(s, l, e, r));
  }

  lemma Join2Ordered<K(!new), V>(lt: (K, K) -> bool, s: Scheme<Entry<K, V>>,
                           l: Tree<Entry<K, V>>, k: K, r: Tree<Entry<K, V>>)
    requires StrictOrder(lt) && Ordered(lt, l) && Ordered(lt, r) && Below(lt, l, k) && Above(lt, k, r)
    ensures Ordered(lt, Join2(s, l, r))
    ensures forall x :: Get(Join2(s, l, r), x) == Or(Get(l, x), Get(r, x))
  {
    Join2Inorder(s, l, r);
    OrderedIsSorted(lt, l);
    OrderedIsSorted(lt, r);
    BelowIsIndexed(lt, l, k);
    AboveIsIndexed(lt, k, r);
    OrderedIsSorted(lt, Join2(s, l, r));
    forall x {
      LookConcat(Inorder(l), Inorder(r), x);
    }
  }

  // -------------------- operations --------------------

  function Find<K, V>(lt: (K, K) -> bool, t: Tree<Entry<K, V>>, k: K): Option<V> {
    if t.Leaf? then None
    else if lt(k, t.entry.key) then Find(lt, t.lc, k)
    else if lt(t.entry.key, k) then Find(lt, t.rc, k)
    else Some(t.entry.val)
  }

  /** In a search tree one descent finds what a scan of all entries finds. */
  lemma {:induction false} FindIsGet<K(!new), V>(lt: (K, K) -> bool, t: Tree<Entry<K, V>>, k: K)
    requires StrictOrder(lt) && Ordered(lt, t)
    ensures Find(lt, t, k) == Get(t, k)
  {
    if t.Node? {
      GetNodeAll(t);
      if lt(k, t.entry.key) {
        FindIsGet(lt, t.lc, k);
      } else if lt(t.entry.key, k) {
        FindIsGet(lt, t.rc, k);
      }
    }
  }

  datatype SplitInfo<K, V> = SplitInfo(first: Tree<Entry<K, V>>, mid: Option<Entry<K, V>>, second: Tree<Entry<K, V>>)

  function Split<K, V>(s: Scheme<Entry<K, V>>, lt: (K, K) -> bool, t: Tree<Entry<K, V>>, k: K): SplitInfo<K, V> {
    if t.Leaf? then SplitInfo(Leaf, None, Leaf)
    else if lt(t.entry.key, k) then
      var p := Split(s, lt, t.rc, k);
      p.(first := Join(s, t.lc, t.entry, p.first))
    else if lt(k, t.entry.key) then
      var p := Split(s, lt, t.lc, k);
      p.(second := Join(s, p.second, t.entry, t.rc))
    else SplitInfo(t.lc, Some(t.entry), t.rc)
  }

  /** When the key is present the new entry replaces the old one, with value `f(old, new)`. */
  function Insert<K, V>(s: Scheme<Entry<K, V>>, lt: (K, K) -> bool, t: Tree<Entry<K, V>>, e: Entry<K, V>,
                        f: (V, V) -> V): Tree<Entry<K, V>> {
    if t.Leaf? then Node(Leaf, e, Leaf)
    else if lt(t.entry.key, e.key) then Join(s, t.lc, t.entry, Insert(s, lt, t.rc, e, f))
    else if lt(e.key, t.entry.key) then Join(s, Insert(s, lt, t.lc, e, f), t.entry, t.rc)
    else Join(s, t.lc, Entry(e.key, f(t.entry.val, e.val)), t.rc)
  }

  function Delete<K, V>(s: Scheme<Entry<K, V>>, lt: (K, K) -> bool, t: Tree<Entry<K, V>>, k: K): Tree<Entry<K, V>> {
    if t.Leaf? then Leaf
    else if lt(t.entry.key, k) then Join(s, t.lc, t.entry, Delete(s, lt, t.rc, k))
    else if lt(k, t.entry.key) then Join(s, Delete(s, lt, t.lc, k), t.entry, t.rc)
    else Join2(s, t.lc, t.rc)
  }

  /** The entry that the union puts at the root of `t2`, given what the split found in the other tree. */
  function Merged<K, V>(mid: Option<Entry<K, V>>, e: Entry<K, V>, op: (V, V) -> V): Entry<K, V> {
    if mid.Some? then Entry(e.key, op(mid.value.val, e.val)) else e
  }

  function Union<K, V>(s: Scheme<Entry<K, V>>, lt: (K, K) -> bool, t1: Tree<Entry<K, V>>, t2: Tree<Entry<K, V>>,
                       op: (V, V) -> V): Tree<Entry<K, V>>
    decreases t2
  {
    if t1.Leaf? then t2
    else if t2.Leaf? then t1
    else
      var p := Split(s, lt, t1, t2.entry.key);
      Join(s, Union(s, lt, p.first, t2.lc, op), Merged(p.mid, t2.entry, op), Union(s, lt, p.second, t2.rc, op))
  }

  /** The three maps may have different value types. */
  function Intersect<K, V1, V2, V>(s1: Scheme<Entry<K, V1>>, s: Scheme<Entry<K, V>>, lt: (K, K) -> bool,
                                   t1: Tree<Entry<K, V1>>, t2: Tree<Entry<K, V2>>, op: (V1, V2) -> V): Tree<Entry<K, V>>
    decreases t2
  {
    if t1.Leaf? || t2.Leaf? then Leaf
    else
      var p := Split(s1, lt, t1, t2.entry.key);
      var l := Intersect(s1, s, lt, p.first, t2.lc, op);
      var r := Intersect(s1, s, lt, p.second, t2.rc, op);
      if p.mid.Some? then Join(s, l, Entry(t2.entry.key, op(p.mid.value.val, t2.entry.val)), r)
      else Join2(s, l, r)
  }

  function Difference<K, V>(s: Scheme<Entry<K, V>>, lt: (K, K) -> bool, t1: Tree<Entry<K, V>>,
                            t2: Tree<Entry<K, V>>): Tree<Entry<K, V>>
    decreases t1
  {
    if t1.Leaf? then Leaf
    else if t2.Leaf? then t1
    else
      var p := Split(s, lt, t2, t1.entry.key);
      var l := Difference(s, lt, t1.lc, p.first);
      var r := Difference(s, lt, t1.rc, p.second);
      if p.mid.Some? then Join2(s, l, r) else Join(s, l, t1.entry, r)
  }

  // -------------------- split --------------------

  function Opt<K, V>(mid: Option<Entry<K, V>>): Option<V> {
    if mid.Some? then Some(mid.value.val) else None
  }

  /** Splitting a search tree at `k` separates the smaller from the larger keys and extracts the entry at `k`. */
  ghost predicate Splits<K(!new), V>(s: Scheme<Entry<K, V>>, lt: (K, K) -> bool, t: Tree<Entry<K, V>>, k: K,
                                     p: SplitInfo<K, V>) {
    && Ordered(lt, p.first) && Ordered(lt, p.second) && Below(lt, p.first, k) && Above(lt, k, p.second)
    && (p.mid.Some? ==> p.mid.value.key == k)
    && (forall x :: Get(t, x) == if x == k then Opt(p.mid) else Or(Get(p.first, x), Get(p.second, x)))
  }

  lemma {:induction false} SplitCorrect<K(!new), V>(s: Scheme<Entry<K, V>>, lt: (K, K) -> bool, t: Tree<Entry<K, V>>,
                                                    k: K)
    requires StrictOrder(lt) && Ordered(lt, t)
    ensures Splits(s, lt, t, k, Split(s, lt, t, k))
  {
    if t.Leaf? {
    } else if lt(t.entry.key, k) {
      SplitCorrect(s, lt, t.rc, k);
      var p := Split(s, lt, t.rc, k);
      GetNodeAll(t);
      GetJoinAll(s, t.lc, t.entry, p.first);
      JoinOrdered(lt, s, t.lc, t.entry, p.first);
    } else if lt(k, t.entry.key) {
      SplitCorrect(s, lt, t.lc, k);
      var p := Split(s, lt, t.lc, k);
      GetNodeAll(t);
      GetJoinAll(s, p.second, t.entry, t.rc);
      JoinOrdered(lt, s, p.second, t.entry, t.rc);
    } else {
      GetNodeAll(t);
    }
  }

  lemma {:induction false} SplitBalanced<K, V>(s: Scheme<Entry<K, V>>, lt: (K, K) -> bool, t: Tree<Entry<K, V>>, k: K)
    requires Balanced(s, t)
    ensures var p := Split(s, lt, t, k); Balanced(s, p.first) && Balanced(s, p.second)
  {
    if t.Node? {
      SplitBalanced(s, lt, t.lc, k);
      SplitBalanced(s, lt, t.rc, k);
      JoinBalanced(s, t.lc, t.entry, Split(s, lt, t.rc, k).first);
      JoinBalanced(s, Split(s, lt, t.lc, k).second, t.entry, t.rc);
    }
  }

  // -------------------- insert and delete --------------------

  lemma {:induction false} InsertCorrect<K(!new), V>(s: Scheme<Entry<K, V>>, lt: (K, K) -> bool, t: Tree<Entry<K, V>>,
                                                     e: Entry<K, V>, f: (V, V) -> V)
    requires StrictOrder(lt) && Ordered(lt, t)
    ensures Ordered(lt, Insert(s, lt, t, e, f))
    ensures forall x :: Get(Insert(s, lt, t, e, f), x) ==
                        if x != e.key then Get(t, x)
                        else Some(if Get(t, x).Some? then f(Get(t, x).value, e.val) else e.val)
  {
    if t.Leaf? {
      OrderedIsSorted(lt, Insert(s, lt, t, e, f));
    } else {
      GetNodeAll(t);
      if lt(t.entry.key, e.key) {
        InsertCorrect(s, lt, t.rc, e, f);
        GetJoinAll(s, t.lc, t.entry, Insert(s, lt, t.rc, e, f));
        JoinOrdered(lt, s, t.lc, t.entry, Insert(s, lt, t.rc, e, f));
      } else if lt(e.key, t.entry.key) {
        InsertCorrect(s, lt, t.lc, e, f);
        GetJoinAll(s, Insert(s, lt, t.lc, e, f), t.entry, t.rc);
        JoinOrdered(lt, s, Insert(s, lt, t.lc, e, f), t.entry, t.rc);
      } else {
        var e' := Entry(e.key, f(t.entry.val, e.val));
        GetJoinAll(s, t.lc, e', t.rc);
        JoinOrdered(lt, s, t.lc, e', t.rc);
      }
    }
  }

  lemma {:induction false} DeleteCorrect<K(!new), V>(s: Scheme<Entry<K, V>>, lt: (K, K) -> bool, t: Tree<Entry<K, V>>,
                                                     k: K)
    requires StrictOrder(lt) && Ordered(lt, t)
    ensures Ordered(lt, Delete(s, lt, t, k))
    ensures forall x :: Get(Delete(s, lt, t, k), x) == if x == k then None else Get(t, x)
  {
    if t.Node? {
      GetNodeAll(t);
      if lt(t.entry.key, k) {
        DeleteCorrect(s, lt, t.rc, k);
        GetJoinAll(s, t.lc, t.entry, Delete(s, lt, t.rc, k));
        JoinOrdered(lt, s, t.lc, t.entry, Delete(s, lt, t.rc, k));
      } else if lt(k, t.entry.key) {
        DeleteCorrect(s, lt, t.lc, k);
        GetJoinAll(s, Delete(s, lt, t.lc, k), t.entry, t.rc);
        JoinOrdered(lt, s, Delete(s, lt, t.lc, k), t.entry, t.rc);
      } else {
        Join2Ordered(lt, s, t.lc, k, t.rc);
      }
    }
  }

  lemma {:induction false} InsertBalanced<K, V>(s: Scheme<Entry<K, V>>, lt: (K, K) -> bool, t: Tree<Entry<K, V>>,
                                                e: Entry<K, V>, f: (V, V) -> V)
    requires Balanced(s, t)
    ensures Balanced(s, Insert(s, lt, t, e, f))
  {
    if t.Leaf? {
      JoinBalanced(s, t, e, t);
    } else {
      InsertBalanced(s, lt, t.lc, e, f);
      InsertBalanced(s, lt, t.rc, e, f);
      JoinBalanced(s, t.lc, t.entry, Insert(s, lt, t.rc, e, f));
      JoinBalanced(s, Insert(s, lt, t.lc, e, f), t.entry, t.rc);
      JoinBalanced(s, t.lc, Entry(e.key, f(t.entry.val, e.val)), t.rc);
    }
  }

  lemma {:induction false} DeleteBalanced<K, V>(s: Scheme<Entry<K, V>>, lt: (K, K) -> bool, t: Tree<Entry<K, V>>, k: K)
    requires Balanced(s, t)
    ensures Balanced(s, Delete(s, lt, t, k))
  {
    if t.Node? {
      DeleteBalanced(s, lt, t.lc, k);
      DeleteBalanced(s, lt, t.rc, k);
      JoinBalanced(s, t.lc, t.entry, Delete(s, lt, t.rc, k));
      JoinBalanced(s, Delete(s, lt, t.lc, k), t.entry, t.rc);
      Join2Balanced(s, t.lc, t.rc);
    }
  }

  // -------------------- union, intersection, difference --------------------

  /** A value on both sides is combined, a value on one side is kept. */
  function Both<V>(op: (V, V) -> V, a: Option<V>, b: Option<V>): Option<V> {
    if a.Some? && b.Some? then Some(op(a.value, b.value)) else Or(a, b)
  }

  lemma {:induction false} UnionCorrect<K(!new), V>(s: Scheme<Entry<K, V>>, lt: (K, K) -> bool, t1: Tree<Entry<K, V>>,
                                                    t2: Tree<Entry<K, V>>, op: (V, V) -> V)
    requires StrictOrder(lt) && Ordered(lt, t1) && Ordered(lt, t2)
    ensures Ordered(lt, Union(s, lt, t1, t2, op))
    ensures forall x :: Get(Union(s, lt, t1, t2, op), x) == Both(op, Get(t1, x), Get(t2, x))
    decreases t2
  {
    if t1.Node? && t2.Node? {
      var k, p := t2.entry.key, Split(s, lt, t1, t2.entry.key);
      SplitCorrect(s, lt, t1, k);
      UnionCorrect(s, lt, p.first, t2.lc, op);
      UnionCorrect(s, lt, p.second, t2.rc, op);
      var l, r := Union(s, lt, p.first, t2.lc, op), Union(s, lt, p.second, t2.rc, op);
      var e := Merged(p.mid, t2.entry, op);
      GetNodeAll(t2);
      GetJoinAll(s, l, e, r);
      JoinOrdered(lt, s, l, e, r);
    }
  }

  lemma {:induction false} UnionBalanced<K, V>(s: Scheme<Entry<K, V>>, lt: (K, K) -> bool, t1: Tree<Entry<K, V>>,
                                               t2: Tree<Entry<K, V>>, op: (V, V) -> V)
    requires Balanced(s, t1) && Balanced(s, t2)
    ensures Balanced(s, Union(s, lt, t1, t2, op))
    decreases t2
  {
    if t1.Node? && t2.Node? {
      var p := Split(s, lt, t1, t2.entry.key);
      SplitBalanced(s, lt, t1, t2.entry.key);
      UnionBalanced(s, lt, p.first, t2.lc, op);
      UnionBalanced(s, lt, p.second, t2.rc, op);
      JoinBalanced(s, Union(s, lt, p.first, t2.lc, op), Merged(p.mid, t2.entry, op), Union(s, lt, p.second, t2.rc, op));
    }
  }

  /** `u` holds the common keys of `t1` and `t2`. */
  ghost predicate Meets<K(!new), V1, V2, V>(t1: Tree<Entry<K, V1>>, t2: Tree<Entry<K, V2>>, op: (V1, V2) -> V,
                                            u: Tree<Entry<K, V>>) {
    forall x :: Get(u, x) == if Get(t1, x).Some? && Get(t2, x).Some? then Some(op(Get(t1, x).value, Get(t2, x).value))
        else None
  }

  lemma IntersectParts<K(!new), V1, V2, V>(s1: Scheme<Entry<K, V1>>, lt: (K, K) -> bool, t1: Tree<Entry<K, V1>>,
                                           t2: Tree<Entry<K, V2>>, op: (V1, V2) -> V, p: SplitInfo<K, V1>,
                                           l: Tree<Entry<K, V>>, r: Tree<Entry<K, V>>, u: Tree<Entry<K, V>>)
    requires StrictOrder(lt) && t2.Node? && Ordered(lt, t2) && Splits(s1, lt, t1, t2.entry.key, p)
    requires Meets(p.first, t2.lc, op, l) && Meets(p.second, t2.rc, op, r)
    requires forall x :: Get(u, x) == if x != t2.entry.key then Or(Get(l, x), Get(r, x))
                                      else if p.mid.Some? then Some(op(p.mid.value.val, t2.entry.val)) else None
    ensures Meets(t1, t2, op, u)
  {
    GetNodeAll(t2);
  }

  lemma {:induction false} IntersectCorrect<K(!new), V1, V2, V>(s1: Scheme<Entry<K, V1>>, s: Scheme<Entry<K, V>>,
      lt: (K, K) -> bool, t1: Tree<Entry<K, V1>>, t2: Tree<Entry<K, V2>>, op: (V1, V2) -> V)
    requires StrictOrder(lt) && Ordered(lt, t1) && Ordered(lt, t2)
    ensures Ordered(lt, Intersect(s1, s, lt, t1, t2, op))
    ensures Meets(t1, t2, op, Intersect(s1, s, lt, t1, t2, op))
    decreases t2
  {
    if t1.Node? && t2.Node? {
      var k, p := t2.entry.key, Split(s1, lt, t1, t2.entry.key);
      SplitCorrect(s1, lt, t1, k);
      IntersectCorrect(s1, s, lt, p.first, t2.lc, op);
      IntersectCorrect(s1, s, lt, p.second, t2.rc, op);
      var l, r := Intersect(s1, s, lt, p.first, t2.lc, op), Intersect(s1, s, lt, p.second, t2.rc, op);
      if p.mid.Some? {
        var e := Entry(k, op(p.mid.value.val, t2.entry.val));
        GetJoinAll(s, l, e, r);
        JoinOrdered(lt, s, l, e, r);
        IntersectParts(s1, lt, t1, t2, op, p, l, r, Join(s, l, e, r));
      } else {
        Join2Ordered(lt, s, l, k, r);
        IntersectParts(s1, lt, t1, t2, op, p, l, r, Join2(s, l, r));
      }
    }
  }

  lemma {:induction false} IntersectBalanced<K, V1, V2, V>(s1: Scheme<Entry<K, V1>>, s: Scheme<Entry<K, V>>,
                                                           lt: (K, K) -> bool, t1: Tree<Entry<K, V1>>,
                                                           t2: Tree<Entry<K, V2>>, op: (V1, V2) -> V)
    ensures Balanced(s, Intersect(s1, s, lt, t1, t2, op))
    decreases t2
  {
    if t1.Node? && t2.Node? {
      var p := Split(s1, lt, t1, t2.entry.key);
      IntersectBalanced(s1, s, lt, p.first, t2.lc, op);
      IntersectBalanced(s1, s, lt, p.second, t2.rc, op);
      var l, r := Intersect(s1, s, lt, p.first, t2.lc, op), Intersect(s1, s, lt, p.second, t2.rc, op);
      if p.mid.Some? {
        JoinBalanced(s, l, Entry(t2.entry.key, op(p.mid.value.val, t2.entry.val)), r);
      } else {
        Join2Balanced(s, l, r);
      }
    }
  }

  lemma {:induction false} DifferenceCorrect<K(!new), V>(s: Scheme<Entry<K, V>>, lt: (K, K) -> bool,
                                                         t1: Tree<Entry<K, V>>, t2: Tree<Entry<K, V>>)
    requires StrictOrder(lt) && Ordered(lt, t1) && Ordered(lt, t2)
    ensures Ordered(lt, Difference(s, lt, t1, t2))
    ensures forall x :: Get(Difference(s, lt, t1, t2), x) == if Get(t2, x).Some? then None else Get(t1, x)
    decreases t1
  {
    if t1.Node? && t2.Node? {
      var k, p := t1.entry.key, Split(s, lt, t2, t1.entry.key);
      SplitCorrect(s, lt, t2, k);
      DifferenceCorrect(s, lt, t1.lc, p.first);
      DifferenceCorrect(s, lt, t1.rc, p.second);
      var l, r := Difference(s, lt, t1.lc, p.first), Difference(s, lt, t1.rc, p.second);
      GetNodeAll(t1);
      if p.mid.Some? {
        Join2Ordered(lt, s, l, k, r);
      } else {
        JoinOrdered(lt, s, l, t1.entry, r);
        GetJoinAll(s, l, t1.entry, r);
      }
    }
  }

  lemma {:induction false} DifferenceBalanced<K, V>(s: Scheme<Entry<K, V>>, lt: (K, K) -> bool, t1: Tree<Entry<K, V>>,
                                                    t2: Tree<Entry<K, V>>)
    requires Balanced(s, t1)
    ensures Balanced(s, Difference(s, lt, t1, t2))
    decreases t1
  {
    if t1.Node? && t2.Node? {
      var p := Split(s, lt, t2, t1.entry.key);
      DifferenceBalanced(s, lt, t1.lc, p.first);
      DifferenceBalanced(s, lt, t1.rc, p.second);
      var l, r := Difference(s, lt, t1.lc, p.first), Difference(s, lt, t1.rc, p.second);
      if p.mid.Some? {
        Join2Balanced(s, l, r);
      } else {
        JoinBalanced(s, l, t1.entry, r);
      }
    }
  }
}
