/** Trees as values, the balance schemes, and the join that every map operation is built on.
    A node of the original caches its size, its height and its augmented value; here those are
    functions of the tree, and module Heap proves that the cached fields agree with them. */
module Trees {

  datatype Option<+T> = None | Some(value: T)

  datatype Tree<E> = Leaf | Node(lc: Tree<E>, entry: E, rc: Tree<E>)

  function Size<E>(t: Tree<E>): nat {
    match t
    case Leaf => 0
    case Node(l, _, r) => Size(l) + Size(r) + 1
  }

  function Height<E>(t: Tree<E>): nat {
    match t
    case Leaf => 0
    case Node(l, _, r) => Max(Height(l), Height(r)) + 1
  }

  function Max(a: nat, b: nat): nat {
    if a < b then b else a
  }

  function Inorder<E>(t: Tree<E>): seq<E> {
    match t
    case Leaf => []
    case Node(l, e, r) => Inorder(l) + [e] + Inorder(r)
  }

  /** The weight of a tree is its size plus one, so the weight of a node is the sum of its children's. */
  function Weight<E>(t: Tree<E>): nat {
    Size(t) + 1
  }

  // -------------------- balance schemes --------------------

  datatype Scheme<!E> =
    | WeightBalanced
    | Avl
    | Treap(hash: E -> nat)

  /** With alpha = 29/100: ratio = alpha / (1 - alpha) = 29/71 and beta = (1 - 2 alpha) / (1 - alpha) = 42/71.
      A treap never asks. */
  predicate LeftHeavy<E>(s: Scheme<E>, t1: Tree<E>, t2: Tree<E>) {
    match s
    case WeightBalanced => 29 * Weight(t1) > 71 * Weight(t2)
    case Avl => Height(t1) > Height(t2) + 1
    case Treap(_) => false
  }

  /** `dir` is true when the outer child is the left one. */
  predicate SingleRotation<E>(s: Scheme<E>, t: Tree<E>, dir: bool)
    requires t.Node?
  {
    match s
    case WeightBalanced => 71 * Weight(if dir then t.rc else t.lc) <= 42 * Weight(t)
    case Avl => if dir then Height(t.lc) > Height(t.rc) else Height(t.lc) <= Height(t.rc)
    case Treap(_) => true
  }

  function Priority<E>(hash: E -> nat, t: Tree<E>): nat {
    if t.Leaf? then 0 else hash(t.entry)
  }

  /** The balance condition of one node. */
  predicate NodeBalanced<E>(s: Scheme<E>, t: Tree<E>)
    requires t.Node?
  {
    match s
    case Treap(hash) => hash(t.entry) >= Priority(hash, t.lc) && hash(t.entry) >= Priority(hash, t.rc)
    case _ => !LeftHeavy(s, t.lc, t.rc) && !LeftHeavy(s, t.rc, t.lc)
  }

  predicate Balanced<E>(s: Scheme<E>, t: Tree<E>) {
    t.Leaf? || (NodeBalanced(s, t) && Balanced(s, t.lc) && Balanced(s, t.rc))
  }

  // -------------------- rotations --------------------

  function RotateRight<E>(t: Tree<E>): Tree<E>
    requires t.Node? && t.lc.Node?
  {
    Node(t.lc.lc, t.lc.entry, Node(t.lc.rc, t.entry, t.rc))
  }

  function RotateLeft<E>(t: Tree<E>): Tree<E>
    requires t.Node? && t.rc.Node?
  {
    Node(Node(t.lc, t.entry, t.rc.lc), t.rc.entry, t.rc.rc)
  }

  function DoubleRotateRight<E>(t: Tree<E>): Tree<E>
    requires t.Node? && t.lc.Node? && t.lc.rc.Node?
  {
    RotateRight(Node(RotateLeft(t.lc), t.entry, t.rc))
  }

  function DoubleRotateLeft<E>(t: Tree<E>): Tree<E>
    requires t.Node? && t.rc.Node? && t.rc.lc.Node?
  {
    RotateLeft(Node(t.lc, t.entry, RotateRight(t.rc)))
  }

  /** One rebalancing step after the right child of `t` has grown. */
  function FixRight<E>(s: Scheme<E>, t: Tree<E>): Tree<E>
    requires t.Node?
  {
    if LeftHeavy(s, t.rc, t.lc) then
      if SingleRotation(s, t.rc, false) then RotateLeft(t) else DoubleRotateLeft(t)
    else t
  }

  /** One rebalancing step after the left child of `t` has grown. */
  function FixLeft<E>(s: Scheme<E>, t: Tree<E>): Tree<E>
    requires t.Node?
  {
    if LeftHeavy(s, t.lc, t.rc) then
      if SingleRotation(s, t.lc, true) then RotateRight(t) else DoubleRotateRight(t)
    else t
  }

  // -------------------- join --------------------

  function RightJoin<E>(s: Scheme<E>, t1: Tree<E>, e: E, t2: Tree<E>): Tree<E>
    decreases t1
  {
    if !LeftHeavy(s, t1, t2) then Node(t1, e, t2)
    else FixRight(s, Node(t1.lc, t1.entry, RightJoin(s, t1.rc, e, t2)))
  }

  function LeftJoin<E>(s: Scheme<E>, t1: Tree<E>, e: E, t2: Tree<E>): Tree<E>
    decreases t2
  {
    if !LeftHeavy(s, t2, t1) then Node(t1, e, t2)
    else FixLeft(s, Node(LeftJoin(s, t1, e, t2.lc), t2.entry, t2.rc))
  }

  function TreapJoin<E>(hash: E -> nat, t1: Tree<E>, e: E, t2: Tree<E>): Tree<E>
    decreases Size(t1) + Size(t2)
  {
    if hash(e) >= Priority(hash, t1) && hash(e) >= Priority(hash, t2) then Node(t1, e, t2)
    else if Priority(hash, t1) > Priority(hash, t2) then
      Node(t1.lc, t1.entry, TreapJoin(hash, t1.rc, e, t2))
    else
      Node(TreapJoin(hash, t1, e, t2.lc), t2.entry, t2.rc)
  }

  function Join<E>(s: Scheme<E>, t1: Tree<E>, e: E, t2: Tree<E>): Tree<E> {
    if s.Treap? then TreapJoin(s.hash, t1, e, t2)
    else if LeftHeavy(s, t1, t2) then RightJoin(s, t1, e, t2)
    else if LeftHeavy(s, t2, t1) then LeftJoin(s, t1, e, t2)
    else Node(t1, e, t2)
  }

  /** Join without a middle entry. */
  function Join2<E>(s: Scheme<E>, t1: Tree<E>, t2: Tree<E>): Tree<E>
    decreases Size(t1) + Size(t2)
  {
    if t1.Leaf? then t2
    else if t2.Leaf? then t1
    else if Size(t1) > Size(t2) then Join(s, t1.lc, t1.entry, Join2(s, t1.rc, t2))
    else Join(s, Join2(s, t1, t2.lc), t2.entry, t2.rc)
  }

  // -------------------- in-order sequence --------------------

  lemma {:induction false} RotateInorder<E>(t: Tree<E>)
    requires t.Node?
    ensures t.lc.Node? ==> Inorder(RotateRight(t)) == Inorder(t)
    ensures t.rc.Node? ==> Inorder(RotateLeft(t)) == Inorder(t)
  {
  }

  lemma {:induction false} FixInorder<E>(s: Scheme<E>, t: Tree<E>)
    requires t.Node?
    ensures Inorder(FixRight(s, t)) == Inorder(t)
    ensures Inorder(FixLeft(s, t)) == Inorder(t)
  {
    RotateInorder(t);
    if LeftHeavy(s, t.rc, t.lc) && !SingleRotation(s, t.rc, false) {
      RotateInorder(t.rc);
      RotateInorder(Node(t.lc, t.entry, RotateRight(t.rc)));
    }
    if LeftHeavy(s, t.lc, t.rc) && !SingleRotation(s, t.lc, true) {
      RotateInorder(t.lc);
      RotateInorder(Node(RotateLeft(t.lc), t.entry, t.rc));
    }
  }

  lemma Regroup<E>(a: seq<E>, e: E, b: seq<E>, c: seq<E>)
    ensures a + [e] + (b + c) == a + [e] + b + c
  {
  }

  lemma Append<E>(a: seq<E>, e: E, b: seq<E>, f: E, c: seq<E>)
    ensures a + [e] + (b + [f] + c) == a + [e] + b + [f] + c
  {
  }

  lemma Prepend<E>(a: seq<E>, b: seq<E>, e: E, c: seq<E>)
    ensures a + b + [e] + c == a + (b + [e] + c)
  {
  }

  lemma {:induction false} RightJoinInorder<E>(s: Scheme<E>, t1: Tree<E>, e: E, t2: Tree<E>)
    ensures Inorder(RightJoin(s, t1, e, t2)) == Inorder(t1) + [e] + Inorder(t2)
    decreases t1
  {
    if LeftHeavy(s, t1, t2) {
      RightJoinInorder(s, t1.rc, e, t2);
      Append(Inorder(t1.lc), t1.entry, Inorder(t1.rc), e, Inorder(t2));
      FixInorder(s, Node(t1.lc, t1.entry, RightJoin(s, t1.rc, e, t2)));
    }
  }

  lemma {:induction false} LeftJoinInorder<E>(s: Scheme<E>, t1: Tree<E>, e: E, t2: Tree<E>)
    ensures Inorder(LeftJoin(s, t1, e, t2)) == Inorder(t1) + [e] + Inorder(t2)
    decreases t2
  {
    if LeftHeavy(s, t2, t1) {
      LeftJoinInorder(s, t1, e, t2.lc);
      Prepend(Inorder(t1) + [e], Inorder(t2.lc), t2.entry, Inorder(t2.rc));
      FixInorder(s, Node(LeftJoin(s, t1, e, t2.lc), t2.entry, t2.rc));
    }
  }

  lemma {:induction false} TreapJoinInorder<E>(hash: E -> nat, t1: Tree<E>, e: E, t2: Tree<E>)
    ensures Inorder(TreapJoin(hash, t1, e, t2)) == Inorder(t1) + [e] + Inorder(t2)
    decreases Size(t1) + Size(t2)
  {
    if hash(e) >= Priority(hash, t1) && hash(e) >= Priority(hash, t2) {
    } else if Priority(hash, t1) > Priority(hash, t2) {
      TreapJoinInorder(hash, t1.rc, e, t2);
      Append(Inorder(t1.lc), t1.entry, Inorder(t1.rc), e, Inorder(t2));
    } else {
      TreapJoinInorder(hash, t1, e, t2.lc);
      Prepend(Inorder(t1) + [e], Inorder(t2.lc), t2.entry, Inorder(t2.rc));
    }
  }

  /** Joining keeps the entries and their order, under every scheme and for every pair of trees. */
  lemma JoinInorder<E>(s: Scheme<E>, t1: Tree<E>, e: E, t2: Tree<E>)
    ensures Inorder(Join(s, t1, e, t2)) == Inorder(t1) + [e] + Inorder(t2)
  {
    if s.Treap? {
      TreapJoinInorder(s.hash, t1, e, t2);
    } else {
      RightJoinInorder(s, t1, e, t2);
      LeftJoinInorder(s, t1, e, t2);
    }
  }

  lemma {:induction false} Join2Inorder<E>(s: Scheme<E>, t1: Tree<E>, t2: Tree<E>)
    ensures Inorder(Join2(s, t1, t2)) == Inorder(t1) + Inorder(t2)
    decreases Size(t1) + Size(t2)
  {
    if t1.Leaf? || t2.Leaf? {
    } else if Size(t1) > Size(t2) {
      var r := Join2(s, t1.rc, t2);
      Join2Inorder(s, t1.rc, t2);
      JoinInorder(s, t1.lc, t1.entry, r);
      Regroup(Inorder(t1.lc), t1.entry, Inorder(t1.rc), Inorder(t2));
    } else {
      var l := Join2(s, t1, t2.lc);
      Join2Inorder(s, t1, t2.lc);
      JoinInorder(s, l, t2.entry, t2.rc);
      Prepend(Inorder(t1), Inorder(t2.lc), t2.entry, Inorder(t2.rc));
    }
  }

  lemma {:induction false} SizeIsLength<E>(t: Tree<E>)
    ensures Size(t) == |Inorder(t)|
  {
    if t.Node? {
      SizeIsLength(t.lc);
      SizeIsLength(t.rc);
    }
  }

  // -------------------- weight-balanced join --------------------

  /** Two weights are in balance when neither exceeds 71/29 of the other. */
  predicate InBalance(a: nat, b: nat) {
    29 * a <= 71 * b && 29 * b <= 71 * a
  }

  /** The arithmetic of a rebalancing step. A tree of weight `z`, light against `x + y`, was joined into
      the child of weight `y`, whose sibling has weight `x`; the grown child has an inner part of weight
      `a` and an outer part of weight `b`, and is too heavy for `x`. */
  predicate Overweight(x: nat, y: nat, z: nat, a: nat, b: nat) {
    InBalance(x, y) && InBalance(a, b) && a + b == y + z && 29 * (x + y) > 71 * z && 29 * (y + z) > 71 * x
  }

  lemma DoubleArithmetic(x: nat, y: nat, z: nat, a: nat, b: nat, a1: nat, a2: nat)
    requires Overweight(x, y, z, a, b) && 71 * a > 42 * (a + b)
    requires a1 + a2 == a && InBalance(a1, a2)
    ensures InBalance(x, a1) && InBalance(a2, b) && InBalance(x + a1, a2 + b)
  {
  }

  lemma DoubleInner<E>(m: Tree<E>)
    requires m.Node? && Balanced(WeightBalanced, m)
    ensures InBalance(Weight(m.lc), Weight(m.rc)) && Weight(m) == Weight(m.lc) + Weight(m.rc)
    ensures Balanced(WeightBalanced, m.lc) && Balanced(WeightBalanced, m.rc)
  {
  }

  lemma NodeWeight<E>(l: Tree<E>, e: E, r: Tree<E>)
    requires Balanced(WeightBalanced, l) && Balanced(WeightBalanced, r) && InBalance(Weight(l), Weight(r))
    ensures Balanced(WeightBalanced, Node(l, e, r)) && Weight(Node(l, e, r)) == Weight(l) + Weight(r)
  {
  }

  lemma DoubleWeight<E>(l: Tree<E>, e: E, m: Tree<E>, f: E, n: Tree<E>, g: E, r: Tree<E>)
    requires Balanced(WeightBalanced, l) && Balanced(WeightBalanced, m)
    requires Balanced(WeightBalanced, n) && Balanced(WeightBalanced, r)
    requires InBalance(Weight(l), Weight(m)) && InBalance(Weight(n), Weight(r))
    requires InBalance(Weight(l) + Weight(m), Weight(n) + Weight(r))
    ensures var t := Node(Node(l, e, m), f, Node(n, g, r));
            Balanced(WeightBalanced, t) && Weight(t) == Weight(l) + Weight(m) + Weight(n) + Weight(r)
  {
    NodeWeight(l, e, m);
    NodeWeight(n, g, r);
    NodeWeight(Node(l, e, m), f, Node(n, g, r));
  }

  /** The weights around a child `c` that has grown from `y` to `y + z` beside a sibling `o`;
      `inner` is the child of `c` that lies between the two. */
  predicate Grown<E>(o: Tree<E>, y: nat, z: nat, c: Tree<E>, inner: Tree<E>, outer: Tree<E>) {
    && Balanced(WeightBalanced, o) && Balanced(WeightBalanced, inner) && Balanced(WeightBalanced, outer)
    && Weight(c) == Weight(inner) + Weight(outer)
    && Overweight(Weight(o), y, z, Weight(inner), Weight(outer))
  }

  lemma GrownSingle<E>(o: Tree<E>, y: nat, z: nat, c: Tree<E>, inner: Tree<E>, outer: Tree<E>, e: E, f: E)
    requires Grown(o, y, z, c, inner, outer) && 71 * Weight(inner) <= 42 * Weight(c)
    ensures Balanced(WeightBalanced, Node(Node(o, e, inner), f, outer))
    ensures Balanced(WeightBalanced, Node(outer, f, Node(inner, e, o)))
  {
  }

  lemma GrownDouble<E>(o: Tree<E>, y: nat, z: nat, c: Tree<E>, m: Tree<E>, outer: Tree<E>, e: E, f: E)
    requires Grown(o, y, z, c, m, outer) && 71 * Weight(m) > 42 * Weight(c)
    ensures m.Node?
    ensures Balanced(WeightBalanced, Node(Node(o, e, m.lc), m.entry, Node(m.rc, f, outer)))
    ensures Balanced(WeightBalanced, Node(Node(outer, f, m.lc), m.entry, Node(m.rc, e, o)))
  {
    assert m.Node?;
    DoubleInner(m);
    DoubleArithmetic(Weight(o), y, z, Weight(m), Weight(outer), Weight(m.lc), Weight(m.rc));
    DoubleArithmetic(Weight(o), y, z, Weight(m), Weight(outer), Weight(m.rc), Weight(m.lc));
    DoubleWeight(o, e, m.lc, m.entry, m.rc, f, outer);
    DoubleWeight(outer, f, m.lc, m.entry, m.rc, e, o);
  }

  /** One rebalancing step restores balance. `y` is the weight the right child had before a tree of
      weight `z` was joined into it. */
  lemma {:induction false} FixRightWeight<E>(t: Tree<E>, y: nat, z: nat)
    requires t.Node? && Balanced(WeightBalanced, t.lc) && Balanced(WeightBalanced, t.rc)
    requires Weight(t.rc) == y + z && InBalance(Weight(t.lc), y)
    requires 29 * (Weight(t.lc) + y) > 71 * z
    ensures Balanced(WeightBalanced, FixRight(WeightBalanced, t))
  {
    var r := t.rc;
    if LeftHeavy(WeightBalanced, r, t.lc) {
      assert Grown(t.lc, y, z, r, r.lc, r.rc);
      if SingleRotation(WeightBalanced, r, false) {
        GrownSingle(t.lc, y, z, r, r.lc, r.rc, t.entry, r.entry);
      } else {
        GrownDouble(t.lc, y, z, r, r.lc, r.rc, t.entry, r.entry);
      }
    }
  }

  lemma {:induction false} FixLeftWeight<E>(t: Tree<E>, y: nat, z: nat)
    requires t.Node? && Balanced(WeightBalanced, t.lc) && Balanced(WeightBalanced, t.rc)
    requires Weight(t.lc) == y + z && InBalance(Weight(t.rc), y)
    requires 29 * (Weight(t.rc) + y) > 71 * z
    ensures Balanced(WeightBalanced, FixLeft(WeightBalanced, t))
  {
    var l := t.lc;
    if LeftHeavy(WeightBalanced, l, t.rc) {
      assert Grown(t.rc, y, z, l, l.rc, l.lc);
      if SingleRotation(WeightBalanced, l, true) {
        GrownSingle(t.rc, y, z, l, l.rc, l.lc, t.entry, l.entry);
      } else {
        GrownDouble(t.rc, y, z, l, l.rc, l.lc, t.entry, l.entry);
      }
    }
  }

  lemma FixSize<E>(s: Scheme<E>, t: Tree<E>)
    requires t.Node?
    ensures Size(FixRight(s, t)) == Size(t) == Size(FixLeft(s, t))
  {
  }

  lemma {:induction false} RightJoinWeight<E>(t1: Tree<E>, e: E, t2: Tree<E>)
    requires Balanced(WeightBalanced, t1) && Balanced(WeightBalanced, t2)
    requires !LeftHeavy(WeightBalanced, t2, t1)
    ensures Balanced(WeightBalanced, RightJoin(WeightBalanced, t1, e, t2))
    ensures Weight(RightJoin(WeightBalanced, t1, e, t2)) == Weight(t1) + Weight(t2)
    decreases t1
  {
    if LeftHeavy(WeightBalanced, t1, t2) {
      RightJoinWeight(t1.rc, e, t2);
      var t := Node(t1.lc, t1.entry, RightJoin(WeightBalanced, t1.rc, e, t2));
      FixRightWeight(t, Weight(t1.rc), Weight(t2));
      FixSize(WeightBalanced, t);
    }
  }

  lemma {:induction false} LeftJoinWeight<E>(t1: Tree<E>, e: E, t2: Tree<E>)
    requires Balanced(WeightBalanced, t1) && Balanced(WeightBalanced, t2)
    requires !LeftHeavy(WeightBalanced, t1, t2)
    ensures Balanced(WeightBalanced, LeftJoin(WeightBalanced, t1, e, t2))
    ensures Weight(LeftJoin(WeightBalanced, t1, e, t2)) == Weight(t1) + Weight(t2)
    decreases t2
  {
    if LeftHeavy(WeightBalanced, t2, t1) {
      LeftJoinWeight(t1, e, t2.lc);
      var t := Node(LeftJoin(WeightBalanced, t1, e, t2.lc), t2.entry, t2.rc);
      FixLeftWeight(t, Weight(t2.lc), Weight(t1));
      FixSize(WeightBalanced, t);
    }
  }

  // -------------------- AVL join --------------------

  /** A right child that is two higher than the left is brought back by one step. */
  lemma {:induction false} FixRightHeight<E>(t: Tree<E>)
    requires t.Node? && Balanced(Avl, t.lc) && Balanced(Avl, t.rc)
    requires Height(t.lc) <= Height(t.rc) + 1 && Height(t.rc) <= Height(t.lc) + 2
    ensures Balanced(Avl, FixRight(Avl, t))
    ensures Height(t) - 1 <= Height(FixRight(Avl, t)) <= Height(t)
    ensures Height(t.rc) <= Height(t.lc) + 1 ==> FixRight(Avl, t) == t
  {
    var r := t.rc;
    if LeftHeavy(Avl, r, t.lc) {
      if SingleRotation(Avl, r, false) {
        assert Balanced(Avl, Node(t.lc, t.entry, r.lc));
      } else {
        assert Balanced(Avl, Node(t.lc, t.entry, r.lc.lc));
        assert Balanced(Avl, Node(r.lc.rc, r.entry, r.rc));
      }
    }
  }

  /** The left step rotates twice when the two inner heights are equal, which would not restore
      balance, so equal inner heights must be excluded. */
  lemma {:induction false} FixLeftHeight<E>(t: Tree<E>)
    requires t.Node? && Balanced(Avl, t.lc) && Balanced(Avl, t.rc)
    requires Height(t.rc) <= Height(t.lc) + 1 && Height(t.lc) <= Height(t.rc) + 2
    requires Height(t.lc) == Height(t.rc) + 2 ==> Height(t.lc.lc) != Height(t.lc.rc)
    ensures Balanced(Avl, FixLeft(Avl, t))
    ensures Height(t) - 1 <= Height(FixLeft(Avl, t)) <= Height(t)
    ensures Height(t.lc) <= Height(t.rc) + 1 ==> FixLeft(Avl, t) == t
    ensures Height(t.lc) == Height(t.rc) + 2 ==> Height(FixLeft(Avl, t)) == Height(t) - 1
  {
    var l := t.lc;
    if LeftHeavy(Avl, l, t.rc) {
      if SingleRotation(Avl, l, true) {
        assert Balanced(Avl, Node(l.rc, t.entry, t.rc));
      } else {
        assert Balanced(Avl, Node(l.rc.rc, t.entry, t.rc));
        assert Balanced(Avl, Node(l.lc, l.entry, l.rc.lc));
      }
    }
  }

  /** The spine of a right join ends at a subtree about as high as `t2`, so the height grows by at most one. */
  lemma {:induction false} RightJoinHeight<E>(t1: Tree<E>, e: E, t2: Tree<E>)
    requires Balanced(Avl, t1) && Balanced(Avl, t2)
    requires Height(t2) <= Height(t1)
    ensures Balanced(Avl, RightJoin(Avl, t1, e, t2))
    ensures Height(t1) <= Height(RightJoin(Avl, t1, e, t2)) <= Height(t1) + 1
    decreases t1
  {
    if LeftHeavy(Avl, t1, t2) {
      RightJoinHeight(t1.rc, e, t2);
      FixRightHeight(Node(t1.lc, t1.entry, RightJoin(Avl, t1.rc, e, t2)));
    }
  }

  /** The last clause shows that a grown result with children of equal height only arises
      where no rotation follows. */
  lemma {:induction false} LeftJoinHeight<E>(t1: Tree<E>, e: E, t2: Tree<E>)
    requires Balanced(Avl, t1) && Balanced(Avl, t2)
    requires Height(t1) <= Height(t2)
    ensures Balanced(Avl, LeftJoin(Avl, t1, e, t2))
    ensures Height(t2) <= Height(LeftJoin(Avl, t1, e, t2)) <= Height(t2) + 1
    ensures var r := LeftJoin(Avl, t1, e, t2);
            r.Node? && (Height(r) > Height(t2) && Height(r.lc) == Height(r.rc) ==> Height(t1) == Height(t2))
    decreases t2
  {
    if LeftHeavy(Avl, t2, t1) {
      LeftJoinHeight(t1, e, t2.lc);
      FixLeftHeight(Node(LeftJoin(Avl, t1, e, t2.lc), t2.entry, t2.rc));
    }
  }

  // -------------------- treap join --------------------

  /** The join is a heap under its largest priority; a tie goes to the middle entry, then to the second tree. */
  lemma {:induction false} TreapJoinHeap<E>(hash: E -> nat, t1: Tree<E>, e: E, t2: Tree<E>)
    requires Balanced(Treap(hash), t1) && Balanced(Treap(hash), t2)
    ensures Balanced(Treap(hash), TreapJoin(hash, t1, e, t2))
    ensures Priority(hash, TreapJoin(hash, t1, e, t2)) == Max(hash(e), Max(Priority(hash, t1), Priority(hash, t2)))
    ensures var j := TreapJoin(hash, t1, e, t2);
            && j.Node? && (hash(e) == Priority(hash, j) ==> j.entry == e)
            && (hash(e) < Priority(hash, j) == Priority(hash, t2) ==> t2.Node? && j.entry == t2.entry)
    decreases Size(t1) + Size(t2)
  {
    if hash(e) >= Priority(hash, t1) && hash(e) >= Priority(hash, t2) {
    } else if Priority(hash, t1) > Priority(hash, t2) {
      TreapJoinHeap(hash, t1.rc, e, t2);
    } else {
      TreapJoinHeap(hash, t1, e, t2.lc);
    }
  }

  // -------------------- main results on join --------------------

  /** Under every scheme the join of two balanced trees, of any relative size, is balanced. */
  lemma JoinBalanced<E>(s: Scheme<E>, t1: Tree<E>, e: E, t2: Tree<E>)
    requires Balanced(s, t1) && Balanced(s, t2)
    ensures Balanced(s, Join(s, t1, e, t2))
  {
    match s
    case WeightBalanced =>
      if LeftHeavy(s, t1, t2) {
        RightJoinWeight(t1, e, t2);
      } else if LeftHeavy(s, t2, t1) {
        LeftJoinWeight(t1, e, t2);
      }
    case Avl =>
      if LeftHeavy(s, t1, t2) {
        RightJoinHeight(t1, e, t2);
      } else if LeftHeavy(s, t2, t1) {
        LeftJoinHeight(t1, e, t2);
      }
    case Treap(hash) => TreapJoinHeap(hash, t1, e, t2);
  }

  lemma AvlJoinHeight<E>(t1: Tree<E>, e: E, t2: Tree<E>)
    requires Balanced(Avl, t1) && Balanced(Avl, t2)
    ensures var h := Height(Join(Avl, t1, e, t2)); var m := Max(Height(t1), Height(t2)); h == m || h == m + 1
  {
    if LeftHeavy(Avl, t1, t2) {
      RightJoinHeight(t1, e, t2);
    } else if LeftHeavy(Avl, t2, t1) {
      LeftJoinHeight(t1, e, t2);
    }
  }

  lemma {:induction false} Join2Balanced<E>(s: Scheme<E>, t1: Tree<E>, t2: Tree<E>)
    requires Balanced(s, t1) && Balanced(s, t2)
    ensures Balanced(s, Join2(s, t1, t2))
    decreases Size(t1) + Size(t2)
  {
    if t1.Leaf? || t2.Leaf? {
    } else if Size(t1) > Size(t2) {
      Join2Balanced(s, t1.rc, t2);
      JoinBalanced(s, t1.lc, t1.entry, Join2(s, t1.rc, t2));
    } else {
      Join2Balanced(s, t1, t2.lc);
      JoinBalanced(s, Join2(s, t1, t2.lc), t2.entry, t2.rc);
    }
  }

  // -------------------- what balance is for: the height of a tree --------------------

  function Pow(b: nat, n: nat): nat {
    if n == 0 then 1 else b * Pow(b, n - 1)
  }

  function Fib(n: nat): nat {
    if n < 2 then n else Fib(n - 1) + Fib(n - 2)
  }

  lemma {:induction false} FibMonotone(n: nat)
    ensures Fib(n) <= Fib(n + 1)
  {
    if n >= 2 {
      FibMonotone(n - 1);
    }
  }

  /** One level of a weight-balanced tree: `c` is the weight of the higher child, `w` the weight of its parent. */
  lemma LevelWeight(p: nat, q: nat, c: nat, w: nat)
    requires p * c >= q && 100 * c <= 71 * w
    ensures 71 * p * w >= 100 * q
  {
    assert p * (100 * c) <= p * (71 * w);
    assert p * (100 * c) == 100 * (p * c);
    assert p * (71 * w) == 71 * p * w;
  }

  /** No child holds more than 71/100 of the weight, so the height is at most the logarithm of the weight to
      the base 100/71: a search visits O(log n) nodes. */
  lemma {:induction false} WeightBalancedHeight<E>(t: Tree<E>)
    requires Balanced(WeightBalanced, t)
    ensures Pow(71, Height(t)) * Weight(t) >= Pow(100, Height(t))
  {
    if t.Node? {
      var c := if Height(t.lc) >= Height(t.rc) then t.lc else t.rc;
      WeightBalancedHeight(c);
      LevelWeight(Pow(71, Height(c)), Pow(100, Height(c)), Weight(c), Weight(t));
    }
  }

  /** No tree is lower than its weight allows. */
  lemma {:induction false} LeastHeight<E>(t: Tree<E>)
    ensures Weight(t) <= Pow(2, Height(t))
  {
    if t.Node? {
      LeastHeight(t.lc);
      LeastHeight(t.rc);
      PowMonotone(Height(t.lc), Height(t) - 1);
      PowMonotone(Height(t.rc), Height(t) - 1);
    }
  }

  lemma {:induction false} PowMonotone(m: nat, n: nat)
    requires m <= n
    ensures Pow(2, m) <= Pow(2, n)
    decreases n
  {
    if m < n {
      PowMonotone(m, n - 1);
    }
  }

  /** An AVL tree of a given height has at least as many nodes as the Fibonacci tree of that height. */
  lemma {:induction false} AvlHeight<E>(t: Tree<E>)
    requires Balanced(Avl, t)
    ensures Weight(t) >= Fib(Height(t) + 2)
  {
    if t.Node? {
      var h := Height(t);
      FibMonotone(h);
      assert Fib(h + 2) == Fib(h + 1) + Fib(h);
      AvlHeight(t.lc);
      AvlHeight(t.rc);
      assert Height(t.lc) == h - 1 || Height(t.lc) == h - 2;
    }
  }
}
