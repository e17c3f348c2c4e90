/** Two-dimensional range sums: an outer map on (x, y) whose augmented values are inner maps on (y, x),
    whose augmented values are sums of weights. */
module RangeTrees {
  import opened Trees
  import opened Maps
  import opened Heap
  import opened Stores
  import opened Augmented
  import Bulk
  import HeapBulk

  type Pair = (int, int)
  type Points = Tree<Entry<Pair, int>>

  function Plus(a: int, b: int): int {
    a + b
  }

  function Weight(e: Entry<Pair, int>): int {
    e.val
  }

  const INNER: Augment<Entry<Pair, int>, int> := Augment(Weight, Plus, 0)

  function Swapped(e: Entry<Pair, int>): Entry<Pair, int> {
    Entry((e.key.1, e.key.0), e.val)
  }

  /** The inner maps are balanced by scheme `s`. */
  function Outer(s: Scheme<Entry<Pair, int>>): Augment<Entry<Pair, int>, Points> {
    Augment((e: Entry<Pair, int>) => Node(Leaf, Swapped(e), Leaf),
        (a: Points, b: Points) => Union(s, Lex, a, b, Plus), Leaf)
  }

  lemma PlusIsMonoid()
    ensures CommutativeMonoid(Plus, 0)
  {
  }

  // -------------------- sums over the points that satisfy a predicate --------------------

  function SumIf(p: Pair -> bool, q: seq<Entry<Pair, int>>): int {
    if q == [] then 0 else (if p(q[0].key) then q[0].val else 0) + SumIf(p, q[1..])
  }

  function Flip(p: Pair -> bool): Pair -> bool {
    (k: Pair) => p((k.1, k.0))
  }

  function Inside(left: Pair, right: Pair): Pair -> bool {
    (k: Pair) => Within(Lex, left, right, k)
  }

  lemma {:induction false} SumIfConcat(p: Pair -> bool, a: seq<Entry<Pair, int>>, b: seq<Entry<Pair, int>>)
    ensures SumIf(p, a + b) == SumIf(p, a) + SumIf(p, b)
  {
    if a == [] {
      assert a + b == b;
    } else {
      assert (a + b)[1..] == a[1..] + b;
      SumIfConcat(p, a[1..], b);
    }
  }

  lemma SumIfParts(p: Pair -> bool, a: seq<Entry<Pair, int>>, e: Entry<Pair, int>, b: seq<Entry<Pair, int>>)
    ensures SumIf(p, a + [e] + b) == SumIf(p, a) + SumIf(p, [e]) + SumIf(p, b)
  {
    SumIfConcat(p, a + [e], b);
    SumIfConcat(p, a, [e]);
  }

  function SumMid(p: Pair -> bool, mid: Option<Entry<Pair, int>>): int {
    if mid.Some? then SumIf(p, [mid.value]) else 0
  }

  lemma JoinSum(p: Pair -> bool, s: Scheme<Entry<Pair, int>>, l: Points, e: Entry<Pair, int>, r: Points)
    ensures SumIf(p, Inorder(Join(s, l, e, r))) == SumIf(p, Inorder(l)) + SumIf(p, [e]) + SumIf(p, Inorder(r))
  {
    JoinInorder(s, l, e, r);
    SumIfParts(p, Inorder(l), e, Inorder(r));
  }

  lemma MergedSum(p: Pair -> bool, mid: Option<Entry<Pair, int>>, e: Entry<Pair, int>)
    requires mid.Some? ==> mid.value.key == e.key
    ensures SumIf(p, [Merged(mid, e, Plus)]) == SumMid(p, mid) + SumIf(p, [e])
  {
    var m := Merged(mid, e, Plus);
    assert forall x: Entry<Pair, int> :: SumIf(p, [x]) == (if p(x.key) then x.val else 0) + SumIf(p, [x][1..]);
  }

  /** A split loses nothing. */
  lemma {:induction false} SplitSum(p: Pair -> bool, s: Scheme<Entry<Pair, int>>, t: Points, k: Pair)
    ensures var z := Split(s, Lex, t, k);
            && SumIf(p, Inorder(t)) == SumIf(p, Inorder(z.first)) + SumMid(p, z.mid) + SumIf(p, Inorder(z.second))
            && (z.mid.Some? ==> z.mid.value.key == k)
  {
    if t.Node? {
      var z := Split(s, Lex, t, k);
      SumIfParts(p, Inorder(t.lc), t.entry, Inorder(t.rc));
      if Lex(t.entry.key, k) {
        var y := Split(s, Lex, t.rc, k);
        SplitSum(p, s, t.rc, k);
        JoinSum(p, s, t.lc, t.entry, y.first);
      } else if Lex(k, t.entry.key) {
        var y := Split(s, Lex, t.lc, k);
        SplitSum(p, s, t.lc, k);
        JoinSum(p, s, y.second, t.entry, t.rc);
      }
    }
  }

  /** A union by addition conserves the sum over any set of keys, also where the maps overlap. */
  lemma {:induction false} UnionSum(p: Pair -> bool, s: Scheme<Entry<Pair, int>>, t1: Points, t2: Points)
    ensures SumIf(p, Inorder(Union(s, Lex, t1, t2, Plus))) == SumIf(p, Inorder(t1)) + SumIf(p, Inorder(t2))
    decreases t2
  {
    if t1.Node? && t2.Node? {
      var z := Split(s, Lex, t1, t2.entry.key);
      SplitSum(p, s, t1, t2.entry.key);
      UnionSum(p, s, z.first, t2.lc);
      UnionSum(p, s, z.second, t2.rc);
      var l, r := Union(s, Lex, z.first, t2.lc, Plus), Union(s, Lex, z.second, t2.rc, Plus);
      var e := Merged(z.mid, t2.entry, Plus);
      JoinSum(p, s, l, e, r);
      SumIfParts(p, Inorder(t2.lc), t2.entry, Inorder(t2.rc));
      MergedSum(p, z.mid, t2.entry);
    }
  }

  /** The inner map of an outer subtree is a search tree that holds the swapped points of the subtree. */
  lemma {:induction false} InnerSum(p: Pair -> bool, s: Scheme<Entry<Pair, int>>, t: Points)
    ensures Ordered(Lex, AugVal(Outer(s), t))
    ensures SumIf(p, Inorder(AugVal(Outer(s), t))) == SumIf(Flip(p), Inorder(t))
  {
    if t.Node? {
      var g := Outer(s);
      InnerSum(p, s, t.lc);
      InnerSum(p, s, t.rc);
      var m := g.fromEntry(t.entry);
      SingleSum(p, t.entry);
      var l := if t.lc.Node? then g.combine(AugVal(g, t.lc), m) else m;
      SumIfParts(Flip(p), Inorder(t.lc), t.entry, Inorder(t.rc));
      LexIsOrder();
      UnionCorrect(s, Lex, AugVal(g, t.lc), m, Plus);
      UnionSum(p, s, AugVal(g, t.lc), m);
      UnionCorrect(s, Lex, l, AugVal(g, t.rc), Plus);
      UnionSum(p, s, l, AugVal(g, t.rc));
    }
  }

  lemma SingleSum(p: Pair -> bool, e: Entry<Pair, int>)
    ensures Ordered(Lex, Node(Leaf, Swapped(e), Leaf))
    ensures SumIf(p, Inorder(Node(Leaf, Swapped(e), Leaf))) == SumIf(Flip(p), [e])
  {
    assert Inorder(Node(Leaf, Swapped(e), Leaf)) == [Swapped(e)];
    LexIsOrder();
    OrderedIsSorted(Lex, Node(Leaf, Swapped(e), Leaf));
  }

  // -------------------- the query --------------------

  /** The accumulator of a query: entries count by y alone, inner maps are asked for their range sum. */
  function Query(x1: int, y1: int, x2: int, y2: int): Acc<Entry<Pair, int>, Points, int> {
    Acc((r: int, e: Entry<Pair, int>) => if y1 <= e.key.1 <= y2 then r + e.val else r,
        (r: int, a: Points) => r + SumRange(INNER, Lex, AugSum(INNER), a, (y1, x1), (y2, x2), 0))
  }

  function Window(x1: int, y1: int, x2: int, y2: int): Pair -> bool {
    (k: Pair) => x1 <= k.0 <= x2 && y1 <= k.1 <= y2
  }

  /** Over points inside a key range, the fold of a range query is a conditional sum. */
  lemma {:induction false} RangeFoldIsSum(left: Pair, right: Pair, q: seq<Entry<Pair, int>>)
    ensures Fold(Plus, 0, Weight, Between(Lex, left, right, q)) == SumIf(Inside(left, right), q)
  {
    if q != [] {
      RangeFoldIsSum(left, right, q[1..]);
      var b := Between(Lex, left, right, q[1..]);
      if Within(Lex, left, right, q[0].key) {
        assert ([q[0]] + b)[1..] == b;
      } else {
        assert [] + b == b;
      }
    }
  }

  function WindowWeight(y1: int, y2: int): Entry<Pair, int> -> int {
    (e: Entry<Pair, int>) => if y1 <= e.key.1 <= y2 then e.val else 0
  }

  /** For points whose x lies in [x1, x2], the lexicographic range on (y, x) is the range on y. */
  lemma {:induction false} SameSums(x1: int, y1: int, x2: int, y2: int, q: seq<Entry<Pair, int>>)
    requires AllWithin(Lex, (x1, y1), (x2, y2), q)
    ensures SumIf(Flip(Inside((y1, x1), (y2, x2))), q) == Fold(Plus, 0, WindowWeight(y1, y2), q)
  {
    if q != [] {
      assert Within(Lex, (x1, y1), (x2, y2), q[0].key);
      assert forall i :: 0 <= i < |q[1..]| ==> q[1..][i] == q[i + 1];
      SameSums(x1, y1, x2, y2, q[1..]);
    }
  }

  /** The sum over the lexicographic range, entries weighed by y alone, is the sum over the window. */
  lemma {:induction false} WindowSum(x1: int, y1: int, x2: int, y2: int, q: seq<Entry<Pair, int>>)
    ensures Fold(Plus, 0, WindowWeight(y1, y2), Between(Lex, (x1, y1), (x2, y2), q))
            == SumIf(Window(x1, y1, x2, y2), q)
  {
    if q != [] {
      WindowSum(x1, y1, x2, y2, q[1..]);
      var b := Between(Lex, (x1, y1), (x2, y2), q[1..]);
      if Within(Lex, (x1, y1), (x2, y2), q[0].key) {
        assert ([q[0]] + b)[1..] == b;
      } else {
        assert [] + b == b;
      }
    }
  }

  /** What an inner map answers is the weight of the window in the outer subtree it stands for. */
  lemma InnerAnswer(s: Scheme<Entry<Pair, int>>, x1: int, y1: int, x2: int, y2: int, t: Points)
    requires Ordered(Lex, t) && AllWithin(Lex, (x1, y1), (x2, y2), Inorder(t))
    ensures SumRange(INNER, Lex, AugSum(INNER), AugVal(Outer(s), t), (y1, x1), (y2, x2), 0)
         == Fold(Plus, 0, WindowWeight(y1, y2), Inorder(t))
  {
    var a := AugVal(Outer(s), t);
    LexIsOrder();
    PlusIsMonoid();
    InnerSum(Inside((y1, x1), (y2, x2)), s, t);
    AugRangeIs(INNER, Lex, a, (y1, x1), (y2, x2));
    RangeFoldIsSum((y1, x1), (y2, x2), Inorder(a));
    SameSums(x1, y1, x2, y2, Inorder(t));
  }

  lemma QueryAdds(s: Scheme<Entry<Pair, int>>, x1: int, y1: int, x2: int, y2: int)
    ensures Adds(Outer(s), Lex, Query(x1, y1, x2, y2), (x1, y1), (x2, y2), Plus, 0, WindowWeight(y1, y2))
  {
    var c := Query(x1, y1, x2, y2);
    forall r: int, t: Points | Ordered(Lex, t) && AllWithin(Lex, (x1, y1), (x2, y2), Inorder(t))
      ensures AddTree(Outer(s), c, t, r) == Plus(r, Fold(Plus, 0, WindowWeight(y1, y2), Inorder(t)))
    {
      InnerAnswer(s, x1, y1, x2, y2, t);
    }
  }

  /** The answer to a query is the sum of the weights of the points in the window, for every tree and window. */
  method QuerySum(st: Store<Entry<Pair, int>, Points>, s: Scheme<Entry<Pair, int>>, root: Ref, x1: int, y1: int,
                  x2: int, y2: int) returns (r: int)
    requires st.g == Outer(s) && Valid(st.g, st.S()) && Heap.Points(st.view, root)
             && Ordered(Lex, TreeAt(st.view, root))
    ensures r == SumIf(Window(x1, y1, x2, y2), Inorder(TreeAt(st.view, root)))
  {
    LexIsOrder();
    PlusIsMonoid();
    QueryAdds(s, x1, y1, x2, y2);
    r := AugSumRange(st, Lex, Query(x1, y1, x2, y2), root, (x1, y1), (x2, y2), 0);
    var t := TreeAt(st.view, root);
    SumRangeIs(Outer(s), Lex, Query(x1, y1, x2, y2), (x1, y1), (x2, y2), Plus, 0, WindowWeight(y1, y2), t, 0);
    WindowSum(x1, y1, x2, y2, Inorder(t));
  }

  lemma Removed<T>(a: seq<T>, b: seq<T>, i: nat)
    requires multiset(a) == multiset(b) && a != [] && i < |b| && b[i] == a[0]
    ensures multiset(a[1..]) == multiset(b[..i] + b[i + 1..])
  {
    assert a == [a[0]] + a[1..];
    assert b == b[..i] + [b[i]] + b[i + 1..];
    assert multiset(a[1..]) == multiset(a) - multiset{a[0]};
    assert multiset(b[..i] + b[i + 1..]) == multiset(b) - multiset{b[i]};
  }

  /** The sum does not depend on the order in which the points are listed, so a tree that holds a list of points
      answers with the brute-force sum over the list. */
  lemma {:induction false} SumIfPermuted(p: Pair -> bool, a: seq<Entry<Pair, int>>, b: seq<Entry<Pair, int>>)
    requires multiset(a) == multiset(b)
    ensures SumIf(p, a) == SumIf(p, b)
  {
    if a == [] {
      assert |b| == |multiset(b)| == 0;
    } else {
      assert a[0] in multiset(b);
      var i :| 0 <= i < |b| && b[i] == a[0];
      assert b == b[..i] + [b[i]] + b[i + 1..];
      Removed(a, b, i);
      SumIfPermuted(p, a[1..], b[..i] + b[i + 1..]);
      SumIfParts(p, b[..i], b[i], b[i + 1..]);
      SumIfConcat(p, b[..i], b[i + 1..]);
    }
  }

  /** The range tree of a list of points. Of points with the same coordinates one is kept. */
  method Construct(st: Store<Entry<Pair, int>, Points>, sort: seq<Entry<Pair, int>> -> seq<Entry<Pair, int>>,
                   points: seq<Entry<Pair, int>>, ghost frame: multiset<Ref>) returns (root: Ref)
    requires Valid(st.g, st.S()) && st.owned == frame && Loose(st.S()) == {} && Bulk.Sorts(Lex, sort)
    modifies st
    ensures Yields(st.g, old(st.S()), st.S(), frame, {}, root, Bulk.MapOf(st.scheme, Lex, sort, points))
  {
    root := HeapBulk.FromArray(st, Bulk.Chosen(Lex, sort, points), frame, {});
  }

  /** From a list of points to the answer: the brute-force sum over the points that are kept, which are all of them if
      the points are distinct. */
  method QueryPoints(st: Store<Entry<Pair, int>, Points>, s: Scheme<Entry<Pair, int>>,
                     sort: seq<Entry<Pair, int>> -> seq<Entry<Pair, int>>, points: seq<Entry<Pair, int>>,
                     x1: int, y1: int, x2: int, y2: int) returns (root: Ref, r: int)
    requires st.g == Outer(s) && Valid(st.g, st.S()) && Loose(st.S()) == {} && Bulk.Sorts(Lex, sort)
    modifies st
    ensures Yields(st.g, old(st.S()), st.S(), old(st.owned), {}, root, Bulk.MapOf(st.scheme, Lex, sort, points))
    ensures r == SumIf(Window(x1, y1, x2, y2), Bulk.Chosen(Lex, sort, points))
    ensures Bulk.DistinctKeys(points) ==> r == SumIf(Window(x1, y1, x2, y2), points)
  {
    root := Construct(st, sort, points, st.owned);
    LexIsOrder();
    Bulk.MapOfIs(st.scheme, Lex, sort, points);
    r := QuerySum(st, s, root, x1, y1, x2, y2);
    if Bulk.DistinctKeys(points) {
      Bulk.ChosenDistinct(Lex, sort, points);
      SumIfPermuted(Window(x1, y1, x2, y2), Bulk.Chosen(Lex, sort, points), points);
    }
  }
}
