/** History independence of treaps: the shape of a treap is a function of the entries it holds. */
module Treaps {
  import opened Trees
  import opened Maps
  import Bulk
  import opened Sessions

  ghost predicate Distinct<E>(hash: E -> nat, q: seq<E>) {
    forall i, j :: 0 <= i < j < |q| ==> hash(q[i]) != hash(q[j])
  }

  /** The root of a treap has the largest priority. */
  lemma {:induction false} RootIsMax<E>(hash: E -> nat, t: Tree<E>)
    requires t.Node? && Balanced(Treap(hash), t)
    ensures forall i :: 0 <= i < |Inorder(t)| ==> hash(Inorder(t)[i]) <= hash(t.entry)
  {
    var a, b := Inorder(t.lc), Inorder(t.rc);
    if t.lc.Node? {
      RootIsMax(hash, t.lc);
    }
    if t.rc.Node? {
      RootIsMax(hash, t.rc);
    }
    forall i | 0 <= i < |Inorder(t)| ensures hash(Inorder(t)[i]) <= hash(t.entry) {
      if i < |a| {
        assert Inorder(t)[i] == a[i];
      } else if i > |a| {
        assert Inorder(t)[i] == b[i - |a| - 1];
      }
    }
  }

  /** Two treaps over the same sequence have the same root. */
  lemma SameRoot<E>(hash: E -> nat, t: Tree<E>, u: Tree<E>)
    requires Balanced(Treap(hash), t) && Balanced(Treap(hash), u) && t.Node? && u.Node?
    requires Inorder(t) == Inorder(u) && Distinct(hash, Inorder(t))
    ensures |Inorder(t.lc)| == |Inorder(u.lc)|
  {
    RootIsMax(hash, t);
    RootIsMax(hash, u);
    var q, i, j := Inorder(t), |Inorder(t.lc)|, |Inorder(u.lc)|;
    assert q[i] == t.entry;
    assert Inorder(u)[j] == u.entry;
    assert hash(q[i]) == hash(q[j]);
  }

  /** Priorities that differ pairwise and the sequence of entries determine the tree. */
  lemma {:induction false} TreapUnique<E>(hash: E -> nat, t: Tree<E>, u: Tree<E>)
    requires Balanced(Treap(hash), t) && Balanced(Treap(hash), u)
    requires Inorder(t) == Inorder(u) && Distinct(hash, Inorder(t))
    ensures t == u
  {
    if t.Node? && u.Node? {
      SameRoot(hash, t, u);
      var q, n := Inorder(t), |Inorder(t.lc)|;
      assert Inorder(t.lc) == q[..n] && Inorder(t.rc) == q[n + 1..] && t.entry == q[n];
      assert Inorder(u.lc) == Inorder(u)[..n] && Inorder(u.rc) == Inorder(u)[n + 1..] && u.entry == Inorder(u)[n];
      TreapUnique(hash, t.lc, u.lc);
      TreapUnique(hash, t.rc, u.rc);
    }
  }

  /** `t` is what some program leaves in a handle, starting from search trees that are treaps. */
  ghost predicate Leaves<K(!new), V>(hash: Entry<K, V> -> nat, lt: (K, K) -> bool, cs: seq<Cmd<K, V>>,
                                     env: seq<Tree<Entry<K, V>>>, i: nat, t: Tree<Entry<K, V>>) {
    && AllBalanced(Treap(hash), env) && AllOrdered(lt, env)
    && (forall n :: 0 <= n < |cs| ==> Runnable(lt, cs[n], |env|)) && SeparatedAll(Treap(hash), lt, cs, env)
    && i < |StepAll(Treap(hash), lt, cs, env)| && t == StepAll(Treap(hash), lt, cs, env)[i]
  }

  lemma LeavesTreap<K(!new), V>(hash: Entry<K, V> -> nat, lt: (K, K) -> bool, cs: seq<Cmd<K, V>>,
                                env: seq<Tree<Entry<K, V>>>, i: nat, t: Tree<Entry<K, V>>)
    requires StrictOrder(lt) && Leaves(hash, lt, cs, env, i, t)
    ensures Balanced(Treap(hash), t) && Ordered(lt, t)
  {
    RunBalanced(Treap(hash), lt, cs, env);
    RunOrdered(Treap(hash), lt, cs, env);
  }

  /** Any two programs, of any operations and any length, that leave the same map in a handle leave the
      identical tree there. */
  lemma HistoryIndependent<K(!new), V>(hash: Entry<K, V> -> nat, lt: (K, K) -> bool,
                                       cs: seq<Cmd<K, V>>, env: seq<Tree<Entry<K, V>>>, i: nat, t: Tree<Entry<K, V>>,
                                       ds: seq<Cmd<K, V>>, fnv: seq<Tree<Entry<K, V>>>, j: nat, u: Tree<Entry<K, V>>)
    requires StrictOrder(lt) && Leaves(hash, lt, cs, env, i, t) && Leaves(hash, lt, ds, fnv, j, u)
    requires forall x :: Get(t, x) == Get(u, x)
    requires Distinct(hash, Inorder(t))
    ensures t == u
  {
    LeavesTreap(hash, lt, cs, env, i, t);
    LeavesTreap(hash, lt, ds, fnv, j, u);
    SameMapSameTree(hash, lt, t, u);
  }

  lemma SameMapSameTree<K(!new), V>(hash: Entry<K, V> -> nat, lt: (K, K) -> bool, t: Tree<Entry<K, V>>,
                                    u: Tree<Entry<K, V>>)
    requires StrictOrder(lt) && Ordered(lt, t) && Ordered(lt, u) && Balanced(Treap(hash), t) && Balanced(Treap(hash), u)
    requires forall x :: Get(t, x) == Get(u, x)
    requires Distinct(hash, Inorder(t))
    ensures t == u
  {
    Bulk.SameEntries(lt, t, u);
    TreapUnique(hash, t, u);
  }

  /** Two entries inserted in either order give the same tree if and only if their priorities differ: with
      equal priorities the tree remembers which one came first. */
  lemma TiesRemember<K(!new), V>(hash: Entry<K, V> -> nat, lt: (K, K) -> bool, a: Entry<K, V>, b: Entry<K, V>,
                                 f: (V, V) -> V)
    requires StrictOrder(lt) && lt(a.key, b.key)
    ensures var s := Treap(hash);
            Insert(s, lt, Insert(s, lt, Leaf, a, f), b, f) == Insert(s, lt, Insert(s, lt, Leaf, b, f), a, f)
            <==> hash(a) != hash(b)
  {
    var s := Treap(hash);
    var ta, tb := Node(Leaf, a, Leaf), Node(Leaf, b, Leaf);
    assert Insert(s, lt, Leaf, a, f) == ta && Insert(s, lt, Leaf, b, f) == tb;
    assert TreapJoin(hash, Leaf, a, Leaf) == ta && TreapJoin(hash, Leaf, b, Leaf) == tb;
    assert TreapJoin(hash, Leaf, a, tb) == if hash(a) >= hash(b) then Node(Leaf, a, tb) else Node(ta, b, Leaf);
    assert TreapJoin(hash, ta, b, Leaf) == if hash(b) >= hash(a) then Node(ta, b, Leaf) else Node(Leaf, a, tb);
    assert Insert(s, lt, ta, b, f) == TreapJoin(hash, Leaf, a, tb);
    assert Insert(s, lt, tb, a, f) == TreapJoin(hash, ta, b, Leaf);
  }
}
