/** Bulk insertion and deletion from a sorted array, and the search that divides the array. */
module Bulk {
  import opened Trees
  import opened Maps

  const BINARY_SEARCH_BASE: nat := 16

  /** The first index whose element is not less. */
  function FirstNot<T>(less: T -> bool, a: seq<T>): (i: nat)
    ensures i <= |a|
    ensures forall j :: 0 <= j < i ==> less(a[j])
    ensures i < |a| ==> !less(a[i])
  {
    if a == [] || !less(a[0]) then 0 else
      var i := FirstNot(less, a[1..]);
      assert forall j :: 1 <= j < i + 1 ==> a[j] == a[1..][j - 1];
      i + 1
  }

  lemma {:induction false} FirstNotUnique<T>(less: T -> bool, a: seq<T>, i: nat)
    requires i <= |a| && (forall j :: 0 <= j < i ==> less(a[j])) && (i < |a| ==> !less(a[i]))
    ensures i == FirstNot(less, a)
  {
    if i > 0 {
      FirstNotUnique(less, a[1..], i - 1);
    }
  }

  method LinearSearch<T>(a: seq<T>, start: nat, end: nat, less: T -> bool) returns (i: nat)
    requires start <= end <= |a|
    ensures start <= i <= end && (forall j :: start <= j < i ==> less(a[j])) && (i < end ==> !less(a[i]))
  {
    i := start;
    while i < end
      invariant start <= i <= end
      invariant forall j :: start <= j < i ==> less(a[j])
    {
      if !less(a[i]) { return; }
      i := i + 1;
    }
  }

  /** Halves the range down to a small block and finishes with a linear search. The array must be
      divided: once an element is not less, no later one is. */
  method BinarySearch<T>(a: seq<T>, less: T -> bool) returns (i: nat)
    requires forall j, k :: 0 <= j < k < |a| && less(a[k]) ==> less(a[j])
    ensures i == FirstNot(less, a)
  {
    var start, end := 0, |a|;
    while end - start > BINARY_SEARCH_BASE
      invariant 0 <= start <= end <= |a|
      invariant forall j :: 0 <= j < start ==> less(a[j])
      invariant forall j :: end <= j < |a| ==> !less(a[j])
    {
      var mid := (end + start) / 2;
      if !less(a[mid]) {
        end := mid;
      } else {
        start := mid + 1;
      }
    }
    i := LinearSearch(a, start, end, less);
    FirstNotUnique(less, a, i);
  }

  // -------------------- building from an array --------------------

  function FromArray<E>(s: Scheme<E>, a: seq<E>): Tree<E> {
    if |a| == 0 then Leaf
    else if |a| == 1 then Node(Leaf, a[0], Leaf)
    else
      var mid := |a| / 2;
      Join(s, FromArray(s, a[..mid]), a[mid], FromArray(s, a[mid + 1..]))
  }

  lemma {:induction false} FromArrayInorder<E>(s: Scheme<E>, a: seq<E>)
    ensures Inorder(FromArray(s, a)) == a
  {
    if |a| == 1 {
      assert Inorder(FromArray(s, a)) == [a[0]];
    } else if |a| > 1 {
      var mid := |a| / 2;
      var l, r := FromArray(s, a[..mid]), FromArray(s, a[mid + 1..]);
      FromArrayInorder(s, a[..mid]);
      FromArrayInorder(s, a[mid + 1..]);
      JoinInorder(s, l, a[mid], r);
      Around(a, mid);
    }
  }

  lemma Around<E>(a: seq<E>, i: nat)
    requires i < |a|
    ensures a == a[..i] + [a[i]] + a[i + 1..]
  {
  }

  lemma {:induction false} FromArrayBalanced<E>(s: Scheme<E>, a: seq<E>)
    ensures Balanced(s, FromArray(s, a))
  {
    if |a| == 1 {
      JoinBalanced(s, Leaf, a[0], Leaf);
    } else if |a| > 1 {
      var mid := |a| / 2;
      var l, r := FromArray(s, a[..mid]), FromArray(s, a[mid + 1..]);
      FromArrayBalanced(s, a[..mid]);
      FromArrayBalanced(s, a[mid + 1..]);
      JoinBalanced(s, l, a[mid], r);
    }
  }

  // -------------------- building from an unsorted array --------------------

  ghost predicate InKeyOrder<K, V>(lt: (K, K) -> bool, q: seq<Entry<K, V>>) {
    forall i, j :: 0 <= i < j < |q| ==> !lt(q[j].key, q[i].key)
  }

  /** What is needed of the sorting library: it permutes the entries into key order, in any order among equal keys. */
  ghost predicate Sorts<K(!new), V(!new)>(lt: (K, K) -> bool, sort: seq<Entry<K, V>> -> seq<Entry<K, V>>) {
    forall q :: multiset(sort(q)) == multiset(q) && InKeyOrder(lt, sort(q))
  }

  ghost predicate DistinctKeys<K, V>(q: seq<Entry<K, V>>) {
    forall i, j :: 0 <= i < j < |q| ==> q[i].key != q[j].key
  }

  /** Of equal keys in a row the first is kept. */
  function Pack<K, V>(lt: (K, K) -> bool, q: seq<Entry<K, V>>): seq<Entry<K, V>> {
    var n := |q| - 1;
    if q == [] then []
    else Pack(lt, q[..n]) + if n == 0 || lt(q[n - 1].key, q[n].key) then [q[n]] else []
  }

  lemma SortedSnoc<K(!new), V>(lt: (K, K) -> bool, p: seq<Entry<K, V>>, e: Entry<K, V>)
    requires StrictOrder(lt) && Sorted(lt, p) && (p != [] ==> lt(p[|p| - 1].key, e.key))
    ensures Sorted(lt, p + [e])
  {
    forall i | 0 <= i < |p| ensures lt(p[i].key, e.key) {
      assert i < |p| - 1 ==> lt(p[i].key, p[|p| - 1].key);
    }
  }

  lemma {:induction false} PackSorted<K(!new), V>(lt: (K, K) -> bool, q: seq<Entry<K, V>>)
    requires StrictOrder(lt) && InKeyOrder(lt, q)
    ensures var p := Pack(lt, q); Sorted(lt, p) && (q != [] ==> p != [] && p[|p| - 1].key == q[|q| - 1].key)
  {
    if q != [] {
      var n := |q| - 1;
      assert InKeyOrder(lt, q[..n]);
      PackSorted(lt, q[..n]);
      if n == 0 || lt(q[n - 1].key, q[n].key) {
        SortedSnoc(lt, Pack(lt, q[..n]), q[n]);
      } else {
        assert !lt(q[n].key, q[n - 1].key);
        assert Pack(lt, q) == Pack(lt, q[..n]);
      }
    }
  }

  /** Nothing is invented and no key is lost. */
  lemma {:induction false} PackMember<K(!new), V>(lt: (K, K) -> bool, q: seq<Entry<K, V>>, e: Entry<K, V>)
    requires StrictOrder(lt) && InKeyOrder(lt, q)
    ensures e in Pack(lt, q) ==> e in q
    ensures e in q ==> exists x :: x in Pack(lt, q) && x.key == e.key
  {
    if q != [] {
      var n := |q| - 1;
      assert InKeyOrder(lt, q[..n]) && q == q[..n] + [q[n]];
      PackMember(lt, q[..n], e);
      PackSorted(lt, q);
      var p := Pack(lt, q);
      assert p[|p| - 1] in p;
      if e in q[..n] {
        var x :| x in Pack(lt, q[..n]) && x.key == e.key;
        assert x in p;
      }
    }
  }

  /** What is kept of a key is its first entry. */
  lemma {:induction false} PackLook<K(!new), V>(lt: (K, K) -> bool, q: seq<Entry<K, V>>, x: K)
    requires StrictOrder(lt) && InKeyOrder(lt, q)
    ensures Look(Pack(lt, q), x) == Look(q, x)
  {
    if q != [] {
      var n := |q| - 1;
      assert InKeyOrder(lt, q[..n]) && q == q[..n] + [q[n]];
      PackLook(lt, q[..n], x);
      LookConcat(q[..n], [q[n]], x);
      LookConcat(Pack(lt, q[..n]), [q[n]], x);
      if n > 0 && !lt(q[n - 1].key, q[n].key) {
        assert !lt(q[n].key, q[n - 1].key) && q[..n][n - 1].key == q[n].key;
        LookIndex(q[..n], q[n].key);
        assert Pack(lt, q) == Pack(lt, q[..n]);
        assert x != q[n].key ==> Look([q[n]], x) == None;
      }
    }
  }

  lemma {:induction false} PackDistinct<K(!new), V>(lt: (K, K) -> bool, q: seq<Entry<K, V>>)
    requires StrictOrder(lt) && InKeyOrder(lt, q) && DistinctKeys(q)
    ensures Pack(lt, q) == q
  {
    if q != [] {
      var n := |q| - 1;
      assert InKeyOrder(lt, q[..n]) && DistinctKeys(q[..n]) && q == q[..n] + [q[n]];
      PackDistinct(lt, q[..n]);
      if n > 0 {
        assert q[n - 1].key != q[n].key && !lt(q[n].key, q[n - 1].key);
      }
    }
  }

  /** The entries of a map that is constructed from an array. */
  function Chosen<K, V>(lt: (K, K) -> bool, sort: seq<Entry<K, V>> -> seq<Entry<K, V>>,
                        q: seq<Entry<K, V>>): seq<Entry<K, V>> {
    Pack(lt, sort(q))
  }

  /** One entry for every key of the array, in order. */
  lemma ChosenIs<K(!new), V(!new)>(lt: (K, K) -> bool, sort: seq<Entry<K, V>> -> seq<Entry<K, V>>, q: seq<Entry<K, V>>)
    requires StrictOrder(lt) && Sorts(lt, sort)
    ensures Sorted(lt, Chosen(lt, sort, q))
    ensures forall e :: e in Chosen(lt, sort, q) ==> e in q
    ensures forall e :: e in q ==> exists x :: x in Chosen(lt, sort, q) && x.key == e.key
  {
    var p := sort(q);
    assert multiset(p) == multiset(q) && InKeyOrder(lt, p);
    PackSorted(lt, p);
    forall e ensures (e in Pack(lt, p) ==> e in q) && (e in q ==> exists x :: x in Pack(lt, p) && x.key == e.key) {
      PackMember(lt, p, e);
      assert e in p <==> e in multiset(p) <==> e in multiset(q) <==> e in q;
    }
  }

  lemma ChosenDistinct<K(!new), V(!new)>(lt: (K, K) -> bool, sort: seq<Entry<K, V>> -> seq<Entry<K, V>>,
                                         q: seq<Entry<K, V>>)
    requires StrictOrder(lt) && Sorts(lt, sort) && DistinctKeys(q)
    ensures multiset(Chosen(lt, sort, q)) == multiset(q)
  {
    assert multiset(sort(q)) == multiset(q) && InKeyOrder(lt, sort(q));
    DistinctPermuted(sort(q), q);
    PackDistinct(lt, sort(q));
  }

  lemma DistinctPermuted<K(!new), V>(p: seq<Entry<K, V>>, q: seq<Entry<K, V>>)
    requires multiset(p) == multiset(q) && DistinctKeys(q)
    ensures DistinctKeys(p)
  {
    forall i, j | 0 <= i < j < |p| ensures p[i].key != p[j].key {
      if p[i].key == p[j].key {
        InBoth(p, q, i);
        InBoth(p, q, j);
        Twice(p, i, j);
        Once(q, p[i]);
      }
    }
  }

  lemma InBoth<E>(p: seq<E>, q: seq<E>, i: nat)
    requires multiset(p) == multiset(q) && i < |p|
    ensures p[i] in q
  {
    assert p[i] in multiset(p);
  }

  lemma Twice<E>(q: seq<E>, i: nat, j: nat)
    requires i < j < |q| && q[i] == q[j]
    ensures multiset(q)[q[i]] >= 2
  {
    assert q == q[..j] + [q[j]] + q[j + 1..];
    assert q[..j][i] == q[i];
    assert q[i] in multiset(q[..j]);
  }

  lemma {:induction false} Once<K, V>(q: seq<Entry<K, V>>, e: Entry<K, V>)
    requires DistinctKeys(q)
    ensures multiset(q)[e] <= 1
  {
    if q != [] {
      var n := |q| - 1;
      assert q == q[..n] + [q[n]] && DistinctKeys(q[..n]);
      Once(q[..n], e);
      if e == q[n] {
        assert e !in q[..n];
        assert e !in multiset(q[..n]);
      }
    }
  }

  /** In a sequence with increasing keys, looking a key up is membership. */
  lemma {:induction false} LookMember<K(!new), V>(lt: (K, K) -> bool, q: seq<Entry<K, V>>, k: K, v: V)
    requires StrictOrder(lt) && Sorted(lt, q)
    ensures Look(q, k) == Some(v) <==> Entry(k, v) in q
  {
    if q != [] {
      LookMember(lt, q[1..], k, v);
      NotInTail(lt, q, k);
      assert q == [q[0]] + q[1..];
    }
  }

  /** The constructor of a map from an array. */
  function MapOf<K, V>(s: Scheme<Entry<K, V>>, lt: (K, K) -> bool, sort: seq<Entry<K, V>> -> seq<Entry<K, V>>,
                       q: seq<Entry<K, V>>): Tree<Entry<K, V>> {
    FromArray(s, Chosen(lt, sort, q))
  }

  /** A map constructed from an array is a search tree with the keys of the array, each with the value that comes first
      after sorting. */
  lemma MapOfIs<K(!new), V(!new)>(s: Scheme<Entry<K, V>>, lt: (K, K) -> bool,
                                  sort: seq<Entry<K, V>> -> seq<Entry<K, V>>, q: seq<Entry<K, V>>)
    requires StrictOrder(lt) && Sorts(lt, sort)
    ensures Ordered(lt, MapOf(s, lt, sort, q)) && Inorder(MapOf(s, lt, sort, q)) == Chosen(lt, sort, q)
    ensures forall k :: Get(MapOf(s, lt, sort, q), k) == Look(sort(q), k)
    ensures forall k, v :: Get(MapOf(s, lt, sort, q), k) == Some(v) ==> Entry(k, v) in q
    ensures forall e :: e in q ==> Get(MapOf(s, lt, sort, q), e.key).Some?
  {
    ChosenIs(lt, sort, q);
    forall k ensures Look(Chosen(lt, sort, q), k) == Look(sort(q), k) {
      PackLook(lt, sort(q), k);
    }
    var c := Chosen(lt, sort, q);
    FromArrayGets(s, lt, c);
    forall e | e in q ensures Get(FromArray(s, c), e.key).Some? {
      var x :| x in c && x.key == e.key;
      assert Entry(x.key, x.val) in c;
    }
  }

  lemma FromArrayGets<K(!new), V(!new)>(s: Scheme<Entry<K, V>>, lt: (K, K) -> bool, c: seq<Entry<K, V>>)
    requires StrictOrder(lt) && Sorted(lt, c)
    ensures Ordered(lt, FromArray(s, c)) && Inorder(FromArray(s, c)) == c
    ensures forall k, v :: Get(FromArray(s, c), k) == Some(v) <==> Entry(k, v) in c
  {
    FromArrayInorder(s, c);
    OrderedIsSorted(lt, FromArray(s, c));
    forall k, v ensures Get(FromArray(s, c), k) == Some(v) <==> Entry(k, v) in c {
      LookMember(lt, c, k, v);
    }
  }

  // -------------------- bulk insertion --------------------

  /** Where the array divides at the key `k`: the first `mid` entries are smaller, and `dup` entries (0 or 1) are
      equal. */
  function Mid<K, V>(lt: (K, K) -> bool, a: seq<Entry<K, V>>, k: K): nat {
    FirstNot((e: Entry<K, V>) => lt(e.key, k), a)
  }

  function Dup<K, V>(lt: (K, K) -> bool, a: seq<Entry<K, V>>, k: K): (d: nat)
    ensures Mid(lt, a, k) + d <= |a|
  {
    var mid := Mid(lt, a, k);
    if mid < |a| && !lt(k, a[mid].key) then 1 else 0
  }

  function MultiInsert<K, V>(s: Scheme<Entry<K, V>>, lt: (K, K) -> bool, t: Tree<Entry<K, V>>, a: seq<Entry<K, V>>,
                             op: (V, V) -> V): Tree<Entry<K, V>> {
    if t.Leaf? then FromArray(s, a)
    else if a == [] then t
    else
      var mid, dup := Mid(lt, a, t.entry.key), Dup(lt, a, t.entry.key);
      var l := MultiInsert(s, lt, t.lc, a[..mid], op);
      var r := MultiInsert(s, lt, t.rc, a[mid + dup..], op);
      var e := if dup == 1 then Entry(t.entry.key, op(t.entry.val, a[mid].val)) else t.entry;
      Join(s, l, e, r)
  }

  lemma {:induction false} MultiInsertUnfold<K, V>(s: Scheme<Entry<K, V>>, lt: (K, K) -> bool, t: Tree<Entry<K, V>>,
                                                   a: seq<Entry<K, V>>, op: (V, V) -> V, mid: nat, dup: nat)
    requires t.Node? && a != [] && mid == Mid(lt, a, t.entry.key) && dup == Dup(lt, a, t.entry.key)
    ensures MultiInsert(s, lt, t, a, op)
         == Join(s, MultiInsert(s, lt, t.lc, a[..mid], op),
                 if dup == 1 then Entry(t.entry.key, op(t.entry.val, a[mid].val)) else t.entry,
                 MultiInsert(s, lt, t.rc, a[mid + dup..], op))
  {
  }

  /** One entry at a time. */
  function InsertAll<K, V>(s: Scheme<Entry<K, V>>, lt: (K, K) -> bool, t: Tree<Entry<K, V>>, a: seq<Entry<K, V>>,
                           op: (V, V) -> V): Tree<Entry<K, V>>
    decreases |a|
  {
    if a == [] then t else InsertAll(s, lt, Insert(s, lt, t, a[0], op), a[1..], op)
  }

  lemma DivideNone<K(!new), V>(lt: (K, K) -> bool, a: seq<Entry<K, V>>, k: K, x: K)
    requires StrictOrder(lt) && Sorted(lt, a)
    ensures !lt(k, x) ==> Look(a[Mid(lt, a, k) + Dup(lt, a, k)..], x) == None
    ensures !lt(x, k) ==> Look(a[..Mid(lt, a, k)], x) == None
  {
    var mid, dup := Mid(lt, a, k), Dup(lt, a, k);
    LookIndex(a[..mid], x);
    LookIndex(a[mid + dup..], x);
  }

  lemma DivideParts<K(!new), V>(lt: (K, K) -> bool, a: seq<Entry<K, V>>, k: K, x: K)
    requires StrictOrder(lt) && Sorted(lt, a)
    ensures var mid, dup := Mid(lt, a, k), Dup(lt, a, k);
            Look(a, x) == Or(Look(a[..mid], x),
                Or(if dup == 1 && x == k then Some(a[mid].val) else None, Look(a[mid + dup..], x)))
  {
    var mid, dup := Mid(lt, a, k), Dup(lt, a, k);
    var l, m, r := a[..mid], a[mid..mid + dup], a[mid + dup..];
    assert a == l + m + r;
    LookConcat(l + m, r, x);
    LookConcat(l, m, x);
    if dup == 1 {
      assert m == [a[mid]];
    } else {
      assert m == [];
    }
  }

  lemma DivideLook<K(!new), V>(lt: (K, K) -> bool, a: seq<Entry<K, V>>, k: K, x: K)
    requires StrictOrder(lt) && Sorted(lt, a)
    ensures var mid, dup := Mid(lt, a, k), Dup(lt, a, k);
            && (lt(x, k) ==> Look(a, x) == Look(a[..mid], x) && Look(a[mid + dup..], x) == None)
            && (lt(k, x) ==> Look(a, x) == Look(a[mid + dup..], x) && Look(a[..mid], x) == None)
            && (x == k ==> Look(a[..mid], x) == None && Look(a[mid + dup..], x) == None
                           && Look(a, x) == if dup == 1 then Some(a[mid].val) else None)
  {
    DivideNone(lt, a, k, x);
    DivideParts(lt, a, k, x);
  }

  /** One level of bulk insertion: `l` and `r` carry what happened to the two parts. */
  lemma DivideJoin<K(!new), V>(s: Scheme<Entry<K, V>>, lt: (K, K) -> bool, t: Tree<Entry<K, V>>, a: seq<Entry<K, V>>,
                               op: (V, V) -> V, l: Tree<Entry<K, V>>, e: Entry<K, V>, r: Tree<Entry<K, V>>)
    requires StrictOrder(lt) && Sorted(lt, a) && t.Node? && Ordered(lt, t) && e.key == t.entry.key
    requires forall x :: Get(l, x) == Both(op, Get(t.lc, x), Look(a[..Mid(lt, a, e.key)], x))
    requires forall x :: Get(r, x) == Both(op, Get(t.rc, x), Look(a[Mid(lt, a, e.key) + Dup(lt, a, e.key)..], x))
    requires Some(e.val) == Both(op, Some(t.entry.val), Look(a, e.key))
    ensures Below(lt, l, e.key) && Above(lt, e.key, r)
    ensures forall x :: Get(Join(s, l, e, r), x) == Both(op, Get(t, x), Look(a, x))
  {
    DivideSides(lt, t, a, op, l, e.key, r);
    forall x ensures Get(Join(s, l, e, r), x) == Both(op, Get(t, x), Look(a, x)) {
      DivideAt(s, lt, t, a, op, l, e, r, x);
    }
  }

  lemma DivideAt<K(!new), V>(s: Scheme<Entry<K, V>>, lt: (K, K) -> bool, t: Tree<Entry<K, V>>, a: seq<Entry<K, V>>,
                             op: (V, V) -> V, l: Tree<Entry<K, V>>, e: Entry<K, V>, r: Tree<Entry<K, V>>, x: K)
    requires StrictOrder(lt) && Sorted(lt, a) && t.Node? && e.key == t.entry.key
    requires Below(lt, t.lc, e.key) && Above(lt, e.key, t.rc)
    requires Get(l, x) == Both(op, Get(t.lc, x), Look(a[..Mid(lt, a, e.key)], x))
    requires Get(r, x) == Both(op, Get(t.rc, x), Look(a[Mid(lt, a, e.key) + Dup(lt, a, e.key)..], x))
    requires Some(e.val) == Both(op, Some(t.entry.val), Look(a, e.key))
    ensures Get(Join(s, l, e, r), x) == Both(op, Get(t, x), Look(a, x))
  {
    DivideLook(lt, a, e.key, x);
    GetJoin(s, l, e, r, x);
    GetJoin(s, t.lc, t.entry, t.rc, x);
  }

  lemma DivideSides<K(!new), V>(lt: (K, K) -> bool, t: Tree<Entry<K, V>>, a: seq<Entry<K, V>>, op: (V, V) -> V,
                                l: Tree<Entry<K, V>>, k: K, r: Tree<Entry<K, V>>)
    requires StrictOrder(lt) && Sorted(lt, a) && t.Node? && Ordered(lt, t) && k == t.entry.key
    requires forall x :: Get(l, x) == Both(op, Get(t.lc, x), Look(a[..Mid(lt, a, k)], x))
    requires forall x :: Get(r, x) == Both(op, Get(t.rc, x), Look(a[Mid(lt, a, k) + Dup(lt, a, k)..], x))
    ensures Below(lt, l, k) && Above(lt, k, r)
  {
    forall x | Get(l, x).Some? ensures lt(x, k) {
      DivideNone(lt, a, k, x);
    }
    forall x | Get(r, x).Some? ensures lt(k, x) {
      DivideNone(lt, a, k, x);
    }
  }

  /** `u` is the search tree `t` with the entries of `a` merged in by `op(old, new)`. */
  ghost predicate Inserted<K(!new), V>(lt: (K, K) -> bool, t: Tree<Entry<K, V>>, a: seq<Entry<K, V>>, op: (V, V) -> V,
                                       u: Tree<Entry<K, V>>) {
    Ordered(lt, u) && forall x :: Get(u, x) == Both(op, Get(t, x), Look(a, x))
  }

  lemma DivideEntry<K(!new), V>(lt: (K, K) -> bool, t: Tree<Entry<K, V>>, a: seq<Entry<K, V>>, op: (V, V) -> V,
                                e: Entry<K, V>)
    requires StrictOrder(lt) && Sorted(lt, a) && t.Node?
    requires var mid, dup := Mid(lt, a, t.entry.key), Dup(lt, a, t.entry.key);
             e == if dup == 1 then Entry(t.entry.key, op(t.entry.val, a[mid].val)) else t.entry
    ensures e.key == t.entry.key && Some(e.val) == Both(op, Some(t.entry.val), Look(a, e.key))
  {
  }

  lemma DivideInserted<K(!new), V>(s: Scheme<Entry<K, V>>, lt: (K, K) -> bool, t: Tree<Entry<K, V>>,
                                   a: seq<Entry<K, V>>, op: (V, V) -> V, mid: nat, dup: nat, l: Tree<Entry<K, V>>,
                                   e: Entry<K, V>, r: Tree<Entry<K, V>>)
    requires StrictOrder(lt) && Sorted(lt, a) && t.Node? && Ordered(lt, t)
    requires mid == Mid(lt, a, t.entry.key) && dup == Dup(lt, a, t.entry.key)
    requires Inserted(lt, t.lc, a[..mid], op, l)
    requires Inserted(lt, t.rc, a[mid + dup..], op, r)
    requires e == if dup == 1 then Entry(t.entry.key, op(t.entry.val, a[mid].val)) else t.entry
    ensures Inserted(lt, t, a, op, Join(s, l, e, r))
  {
    DivideEntry(lt, t, a, op, e);
    DivideJoin(s, lt, t, a, op, l, e, r);
    JoinOrdered(lt, s, l, e, r);
  }

  lemma {:induction false} MultiInsertCorrect<K(!new), V>(s: Scheme<Entry<K, V>>, lt: (K, K) -> bool,
                                                          t: Tree<Entry<K, V>>, a: seq<Entry<K, V>>, op: (V, V) -> V)
    requires StrictOrder(lt) && Ordered(lt, t) && Sorted(lt, a)
    ensures Inserted(lt, t, a, op, MultiInsert(s, lt, t, a, op))
  {
    if t.Leaf? {
      FromArrayInserted(s, lt, t, a, op);
    } else if a == [] {
      assert MultiInsert(s, lt, t, a, op) == t;
    } else {
      var k, mid, dup := t.entry.key, Mid(lt, a, t.entry.key), Dup(lt, a, t.entry.key);
      MultiInsertCorrect(s, lt, t.lc, a[..mid], op);
      MultiInsertCorrect(s, lt, t.rc, a[mid + dup..], op);
      var l, r := MultiInsert(s, lt, t.lc, a[..mid], op), MultiInsert(s, lt, t.rc, a[mid + dup..], op);
      var e := if dup == 1 then Entry(k, op(t.entry.val, a[mid].val)) else t.entry;
      MultiInsertUnfold(s, lt, t, a, op, mid, dup);
      DivideInserted(s, lt, t, a, op, mid, dup, l, e, r);
    }
  }

  lemma FromArrayInserted<K(!new), V>(s: Scheme<Entry<K, V>>, lt: (K, K) -> bool, t: Tree<Entry<K, V>>,
                                      a: seq<Entry<K, V>>, op: (V, V) -> V)
    requires StrictOrder(lt) && Sorted(lt, a) && t.Leaf?
    ensures Inserted(lt, t, a, op, FromArray(s, a))
  {
    FromArrayInorder(s, a);
    OrderedIsSorted(lt, FromArray(s, a));
  }

  lemma {:induction false} MultiInsertBalanced<K, V>(s: Scheme<Entry<K, V>>, lt: (K, K) -> bool, t: Tree<Entry<K, V>>,
                                                     a: seq<Entry<K, V>>, op: (V, V) -> V)
    requires Balanced(s, t)
    ensures Balanced(s, MultiInsert(s, lt, t, a, op))
  {
    if t.Leaf? {
      FromArrayBalanced(s, a);
    } else if a != [] {
      var mid, dup := Mid(lt, a, t.entry.key), Dup(lt, a, t.entry.key);
      var l, r := MultiInsert(s, lt, t.lc, a[..mid], op), MultiInsert(s, lt, t.rc, a[mid + dup..], op);
      MultiInsertBalanced(s, lt, t.lc, a[..mid], op);
      MultiInsertBalanced(s, lt, t.rc, a[mid + dup..], op);
      MultiInsertUnfold(s, lt, t, a, op, mid, dup);
      JoinBalanced(s, l, if dup == 1 then Entry(t.entry.key, op(t.entry.val, a[mid].val)) else t.entry, r);
    }
  }

  lemma {:induction false} InsertAllCorrect<K(!new), V>(s: Scheme<Entry<K, V>>, lt: (K, K) -> bool,
                                                        t: Tree<Entry<K, V>>, a: seq<Entry<K, V>>, op: (V, V) -> V)
    requires StrictOrder(lt) && Ordered(lt, t) && Sorted(lt, a)
    ensures Ordered(lt, InsertAll(s, lt, t, a, op))
    ensures forall x :: Get(InsertAll(s, lt, t, a, op), x) == Both(op, Get(t, x), Look(a, x))
    decreases |a|
  {
    if a != [] {
      InsertCorrect(s, lt, t, a[0], op);
      InsertAllCorrect(s, lt, Insert(s, lt, t, a[0], op), a[1..], op);
      NotInTail(lt, a, a[0].key);
    }
  }

  /** Bulk insertion of a sorted array leaves the same entries as inserting them one at a time. */
  lemma MultiInsertIsInsertAll<K(!new), V>(s: Scheme<Entry<K, V>>, lt: (K, K) -> bool, t: Tree<Entry<K, V>>,
                                           a: seq<Entry<K, V>>, op: (V, V) -> V)
    requires StrictOrder(lt) && Ordered(lt, t) && Sorted(lt, a)
    ensures Inorder(MultiInsert(s, lt, t, a, op)) == Inorder(InsertAll(s, lt, t, a, op))
  {
    MultiInsertCorrect(s, lt, t, a, op);
    InsertAllCorrect(s, lt, t, a, op);
    SameEntries(lt, MultiInsert(s, lt, t, a, op), InsertAll(s, lt, t, a, op));
  }

  /** Search trees that agree on every key hold the same entries in the same order. */
  lemma SameEntries<K(!new), V>(lt: (K, K) -> bool, t: Tree<Entry<K, V>>, u: Tree<Entry<K, V>>)
    requires StrictOrder(lt) && Ordered(lt, t) && Ordered(lt, u) && forall x :: Get(t, x) == Get(u, x)
    ensures Inorder(t) == Inorder(u)
  {
    OrderedIsSorted(lt, t);
    OrderedIsSorted(lt, u);
    forall x ensures Look(Inorder(t), x) == Look(Inorder(u), x) {
      assert Get(t, x) == Get(u, x);
    }
    SortedUnique(lt, Inorder(t), Inorder(u));
  }

  // -------------------- bulk deletion --------------------

  function KeyMid<K>(lt: (K, K) -> bool, ks: seq<K>, k: K): nat {
    FirstNot((x: K) => lt(x, k), ks)
  }

  function KeyDup<K>(lt: (K, K) -> bool, ks: seq<K>, k: K): (d: nat)
    ensures KeyMid(lt, ks, k) + d <= |ks|
  {
    var mid := KeyMid(lt, ks, k);
    if mid < |ks| && !lt(k, ks[mid]) then 1 else 0
  }

  function MultiDelete<K, V>(s: Scheme<Entry<K, V>>, lt: (K, K) -> bool, t: Tree<Entry<K, V>>,
                             ks: seq<K>): Tree<Entry<K, V>> {
    if t.Leaf? then Leaf
    else if ks == [] then t
    else
      var mid, dup := KeyMid(lt, ks, t.entry.key), KeyDup(lt, ks, t.entry.key);
      var l := MultiDelete(s, lt, t.lc, ks[..mid]);
      var r := MultiDelete(s, lt, t.rc, ks[mid + dup..]);
      if dup == 0 then Join(s, l, t.entry, r) else Join2(s, l, r)
  }

  function DeleteAll<K, V>(s: Scheme<Entry<K, V>>, lt: (K, K) -> bool, t: Tree<Entry<K, V>>,
                           ks: seq<K>): Tree<Entry<K, V>>
    decreases |ks|
  {
    if ks == [] then t else DeleteAll(s, lt, Delete(s, lt, t, ks[0]), ks[1..])
  }

  ghost predicate SortedKeys<K>(lt: (K, K) -> bool, ks: seq<K>) {
    forall i, j :: 0 <= i < j < |ks| ==> lt(ks[i], ks[j])
  }

  lemma {:induction false} MultiDeleteCorrect<K(!new), V>(s: Scheme<Entry<K, V>>, lt: (K, K) -> bool,
                                                          t: Tree<Entry<K, V>>, ks: seq<K>)
    requires StrictOrder(lt) && Ordered(lt, t) && SortedKeys(lt, ks)
    ensures Ordered(lt, MultiDelete(s, lt, t, ks))
    ensures forall x :: Get(MultiDelete(s, lt, t, ks), x) == if x in ks then None else Get(t, x)
  {
    if t.Node? && ks != [] {
      var k, mid, dup := t.entry.key, KeyMid(lt, ks, t.entry.key), KeyDup(lt, ks, t.entry.key);
      MultiDeleteCorrect(s, lt, t.lc, ks[..mid]);
      MultiDeleteCorrect(s, lt, t.rc, ks[mid + dup..]);
      var l, r := MultiDelete(s, lt, t.lc, ks[..mid]), MultiDelete(s, lt, t.rc, ks[mid + dup..]);
      MultiDeleteUnfold(s, lt, t, ks, mid, dup);
      DeletedParts(s, lt, t, ks, mid, dup, l, r);
    }
  }

  lemma MultiDeleteUnfold<K, V>(s: Scheme<Entry<K, V>>, lt: (K, K) -> bool, t: Tree<Entry<K, V>>, ks: seq<K>, mid: nat,
                                dup: nat)
    requires t.Node? && ks != [] && mid == KeyMid(lt, ks, t.entry.key) && dup == KeyDup(lt, ks, t.entry.key)
    ensures var l, r := MultiDelete(s, lt, t.lc, ks[..mid]), MultiDelete(s, lt, t.rc, ks[mid + dup..]);
            MultiDelete(s, lt, t, ks) == if dup == 0 then Join(s, l, t.entry, r) else Join2(s, l, r)
  {
  }

  /** Dividing the keys at `k` leaves every other key on its side. */
  lemma KeysDivided<K(!new)>(lt: (K, K) -> bool, ks: seq<K>, k: K, mid: nat, dup: nat, x: K)
    requires StrictOrder(lt) && SortedKeys(lt, ks) && mid == KeyMid(lt, ks, k) && dup == KeyDup(lt, ks, k)
    ensures lt(x, k) ==> (x in ks <==> x in ks[..mid]) && x !in ks[mid + dup..]
    ensures lt(k, x) ==> (x in ks <==> x in ks[mid + dup..]) && x !in ks[..mid]
    ensures k in ks <==> dup == 1
  {
    assert ks == ks[..mid] + ks[mid..mid + dup] + ks[mid + dup..];
    assert dup == 1 ==> ks[mid..mid + dup] == [k];
    if k in ks {
      var i :| 0 <= i < |ks| && ks[i] == k;
    }
  }

  lemma DeletedParts<K(!new), V>(s: Scheme<Entry<K, V>>, lt: (K, K) -> bool, t: Tree<Entry<K, V>>, ks: seq<K>, mid: nat,
                                 dup: nat, l: Tree<Entry<K, V>>, r: Tree<Entry<K, V>>)
    requires StrictOrder(lt) && t.Node? && Ordered(lt, t) && SortedKeys(lt, ks) && Ordered(lt, l) && Ordered(lt, r)
    requires mid == KeyMid(lt, ks, t.entry.key) && dup == KeyDup(lt, ks, t.entry.key)
    requires forall x :: Get(l, x) == if x in ks[..mid] then None else Get(t.lc, x)
    requires forall x :: Get(r, x) == if x in ks[mid + dup..] then None else Get(t.rc, x)
    ensures var u := if dup == 0 then Join(s, l, t.entry, r) else Join2(s, l, r);
            Ordered(lt, u) && forall x :: Get(u, x) == if x in ks then None else Get(t, x)
  {
    var u := if dup == 0 then Join(s, l, t.entry, r) else Join2(s, l, r);
    GetNodeAll(t);
    if dup == 0 {
      GetJoinAll(s, l, t.entry, r);
      JoinOrdered(lt, s, l, t.entry, r);
    } else {
      Join2Ordered(lt, s, l, t.entry.key, r);
    }
    forall x ensures Get(u, x) == if x in ks then None else Get(t, x) {
      KeysDivided(lt, ks, t.entry.key, mid, dup, x);
    }
  }

  lemma {:induction false} MultiDeleteBalanced<K, V>(s: Scheme<Entry<K, V>>, lt: (K, K) -> bool, t: Tree<Entry<K, V>>,
                                                     ks: seq<K>)
    requires Balanced(s, t)
    ensures Balanced(s, MultiDelete(s, lt, t, ks))
  {
    if t.Node? && ks != [] {
      var mid, dup := KeyMid(lt, ks, t.entry.key), KeyDup(lt, ks, t.entry.key);
      MultiDeleteBalanced(s, lt, t.lc, ks[..mid]);
      MultiDeleteBalanced(s, lt, t.rc, ks[mid + dup..]);
      var l, r := MultiDelete(s, lt, t.lc, ks[..mid]), MultiDelete(s, lt, t.rc, ks[mid + dup..]);
      MultiDeleteUnfold(s, lt, t, ks, mid, dup);
      JoinBalanced(s, l, t.entry, r);
      Join2Balanced(s, l, r);
    }
  }

  lemma {:induction false} DeleteAllCorrect<K(!new), V>(s: Scheme<Entry<K, V>>, lt: (K, K) -> bool,
                                                        t: Tree<Entry<K, V>>, ks: seq<K>)
    requires StrictOrder(lt) && Ordered(lt, t)
    ensures Ordered(lt, DeleteAll(s, lt, t, ks))
    ensures forall x :: Get(DeleteAll(s, lt, t, ks), x) == if x in ks then None else Get(t, x)
    decreases |ks|
  {
    if ks != [] {
      DeleteCorrect(s, lt, t, ks[0]);
      DeleteAllCorrect(s, lt, Delete(s, lt, t, ks[0]), ks[1..]);
      assert forall x :: x in ks <==> x == ks[0] || x in ks[1..];
    }
  }

  /** Bulk deletion of a sorted array of keys leaves the same entries as deleting them one at a time. */
  lemma MultiDeleteIsDeleteAll<K(!new), V>(s: Scheme<Entry<K, V>>, lt: (K, K) -> bool, t: Tree<Entry<K, V>>, ks: seq<K>)
    requires StrictOrder(lt) && Ordered(lt, t) && SortedKeys(lt, ks)
    ensures Inorder(MultiDelete(s, lt, t, ks)) == Inorder(DeleteAll(s, lt, t, ks))
  {
    MultiDeleteCorrect(s, lt, t, ks);
    DeleteAllCorrect(s, lt, t, ks);
    SameEntries(lt, MultiDelete(s, lt, t, ks), DeleteAll(s, lt, t, ks));
  }
}
