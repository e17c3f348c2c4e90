/** Programs over map handles. A session holds any number of handles to trees that share nodes in one
    store; a program is any sequence of map operations. The session computes exactly what the same
    program computes on independent values, and it never leaks a node. */
module Sessions {
  import opened Trees
  import opened Maps
  import Bulk
  import opened Heap
  import opened Stores
  import opened HeapOps
  import opened HeapMaps
  import opened HeapSets
  import HeapBulk

  type Name = nat

  /** Operands of binary operations are moved: the handle is empty afterwards. A program that wants to
      keep an operand copies the handle first. */
  datatype Cmd<!K, !V> =
    | CopyTo(dst: Name, src: Name)
    | Clear(dst: Name)
    | InsertInto(dst: Name, e: Entry<K, V>, f: (V, V) -> V)
    | RemoveFrom(dst: Name, k: K)
    | MultiInsertInto(dst: Name, es: seq<Entry<K, V>>, f: (V, V) -> V)
    | MultiRemoveFrom(dst: Name, ks: seq<K>)
    | SplitAt(dst: Name, dst2: Name, src: Name, k: K)
    | Binary(op: BinOp<V>, dst: Name, a: Name, b: Name)

  datatype BinOp<!V> = UnionBy(op: (V, V) -> V) | IntersectBy(op: (V, V) -> V) | Minus | Concat

  // -------------------- programs on values --------------------

  function Combine<K, V>(s: Scheme<Entry<K, V>>, lt: (K, K) -> bool, op: BinOp<V>, x: Tree<Entry<K, V>>,
                         y: Tree<Entry<K, V>>): Tree<Entry<K, V>> {
    match op
    case UnionBy(f) => Union(s, lt, x, y, f)
    case IntersectBy(f) => Intersect(s, s, lt, x, y, f)
    case Minus => Difference(s, lt, x, y)
    case Concat => Join2(s, x, y)
  }

  ghost predicate Runnable<K(!new), V>(lt: (K, K) -> bool, c: Cmd<K, V>, n: nat) {
    match c
    case CopyTo(d, s) => d < n && s < n
    case Clear(d) => d < n
    case InsertInto(d, _, _) => d < n
    case RemoveFrom(d, _) => d < n
    case MultiInsertInto(d, a, _) => d < n && StrictOrder(lt) && Sorted(lt, a)
    case MultiRemoveFrom(d, ks) => d < n && StrictOrder(lt) && Bulk.SortedKeys(lt, ks)
    case SplitAt(d, d2, s, _) => d < n && d2 < n && s < n && d != d2
    case Binary(_, d, a, b) => d < n && a < n && b < n && a != b
  }

  ghost function Step<K(!new), V>(s: Scheme<Entry<K, V>>, lt: (K, K) -> bool, c: Cmd<K, V>,
                                  env: seq<Tree<Entry<K, V>>>): (r: seq<Tree<Entry<K, V>>>)
    requires Runnable(lt, c, |env|)
    ensures |r| == |env|
  {
    match c
    case CopyTo(d, src) => env[d := env[src]]
    case Clear(d) => env[d := Leaf]
    case InsertInto(d, e, f) => env[d := Insert(s, lt, env[d], e, f)]
    case RemoveFrom(d, k) => env[d := Delete(s, lt, env[d], k)]
    case MultiInsertInto(d, a, f) => env[d := Bulk.MultiInsert(s, lt, env[d], a, f)]
    case MultiRemoveFrom(d, ks) => env[d := Bulk.MultiDelete(s, lt, env[d], ks)]
    case SplitAt(d, d2, src, k) =>
      var p := Split(s, lt, env[src], k);
      env[src := Leaf][d := p.first][d2 := p.second]
    case Binary(op, d, a, b) => env[a := Leaf][b := Leaf][d := Combine(s, lt, op, env[a], env[b])]
  }

  ghost function StepAll<K(!new), V>(s: Scheme<Entry<K, V>>, lt: (K, K) -> bool, cs: seq<Cmd<K, V>>,
                                     env: seq<Tree<Entry<K, V>>>): seq<Tree<Entry<K, V>>>
    requires forall i :: 0 <= i < |cs| ==> Runnable(lt, cs[i], |env|)
    decreases |cs|
  {
    if cs == [] then env else StepAll(s, lt, cs[1..], Step(s, lt, cs[0], env))
  }

  ghost predicate AllBalanced<K, V>(s: Scheme<Entry<K, V>>, env: seq<Tree<Entry<K, V>>>) {
    forall i :: 0 <= i < |env| ==> Balanced(s, env[i])
  }

  ghost predicate AllOrdered<K(!new), V>(lt: (K, K) -> bool, env: seq<Tree<Entry<K, V>>>) {
    forall i :: 0 <= i < |env| ==> Ordered(lt, env[i])
  }

  lemma CombineBalanced<K(!new), V>(s: Scheme<Entry<K, V>>, lt: (K, K) -> bool, op: BinOp<V>, x: Tree<Entry<K, V>>,
                                    y: Tree<Entry<K, V>>)
    requires Balanced(s, x) && Balanced(s, y)
    ensures Balanced(s, Combine(s, lt, op, x, y))
  {
    match op
    case UnionBy(f) => UnionBalanced(s, lt, x, y, f);
    case IntersectBy(f) => IntersectBalanced(s, s, lt, x, y, f);
    case Minus => DifferenceBalanced(s, lt, x, y);
    case Concat => Join2Balanced(s, x, y);
  }

  lemma StepBalanced<K(!new), V>(s: Scheme<Entry<K, V>>, lt: (K, K) -> bool, c: Cmd<K, V>, env: seq<Tree<Entry<K, V>>>)
    requires Runnable(lt, c, |env|) && AllBalanced(s, env)
    ensures AllBalanced(s, Step(s, lt, c, env))
  {
    match c
    case CopyTo(d, src) =>
    case Clear(d) =>
    case InsertInto(d, e, f) => InsertBalanced(s, lt, env[d], e, f);
    case RemoveFrom(d, k) => DeleteBalanced(s, lt, env[d], k);
    case MultiInsertInto(d, es, f) => Bulk.MultiInsertBalanced(s, lt, env[d], es, f);
    case MultiRemoveFrom(d, ks) => Bulk.MultiDeleteBalanced(s, lt, env[d], ks);
    case SplitAt(d, d2, src, k) => SplitBalanced(s, lt, env[src], k);
    case Binary(op, d, a, b) => CombineBalanced(s, lt, op, env[a], env[b]);
  }

  /** Concatenation needs its first operand to lie below its second; the other commands need nothing. */
  ghost predicate Separated<K(!new), V>(lt: (K, K) -> bool, c: Cmd<K, V>, env: seq<Tree<Entry<K, V>>>)
    requires Runnable(lt, c, |env|)
  {
    c.Binary? && c.op.Concat? ==>
      exists k :: Below(lt, env[c.a], k) && Above(lt, k, env[c.b])
  }

  /** What a binary operation makes of the values that its operands have under one key. */
  function Combined<V>(op: BinOp<V>, u: Option<V>, v: Option<V>): Option<V> {
    match op
    case UnionBy(f) => if u.Some? && v.Some? then Some(f(u.value, v.value)) else if u.Some? then u else v
    case IntersectBy(f) => if u.Some? && v.Some? then Some(f(u.value, v.value)) else None
    case Minus => if v.Some? then None else u
    case Concat => if u.Some? then u else v
  }

  /** Search trees are combined key by key; those that are concatenated must be separated. */
  ghost predicate CombinesTo<K(!new), V>(lt: (K, K) -> bool, op: BinOp<V>, x: Tree<Entry<K, V>>, y: Tree<Entry<K, V>>,
                                         r: Tree<Entry<K, V>>) {
    StrictOrder(lt) && Ordered(lt, x) && Ordered(lt, y)
    && (op.Concat? ==> exists k :: Below(lt, x, k) && Above(lt, k, y)) ==>
      Ordered(lt, r) && forall k :: Get(r, k) == Combined(op, Get(x, k), Get(y, k))
  }

  lemma CombineIs<K(!new), V>(s: Scheme<Entry<K, V>>, lt: (K, K) -> bool, op: BinOp<V>, x: Tree<Entry<K, V>>,
                              y: Tree<Entry<K, V>>)
    ensures CombinesTo(lt, op, x, y, Combine(s, lt, op, x, y))
  {
    if StrictOrder(lt) && Ordered(lt, x) && Ordered(lt, y) {
      match op
      case UnionBy(f) => UnionCorrect(s, lt, x, y, f);
      case IntersectBy(f) => IntersectCorrect(s, s, lt, x, y, f);
      case Minus => DifferenceCorrect(s, lt, x, y);
      case Concat =>
        if k :| Below(lt, x, k) && Above(lt, k, y) {
          Join2Ordered(lt, s, x, k, y);
        }
    }
  }

  lemma StepOrdered<K(!new), V>(s: Scheme<Entry<K, V>>, lt: (K, K) -> bool, c: Cmd<K, V>, env: seq<Tree<Entry<K, V>>>)
    requires Runnable(lt, c, |env|) && StrictOrder(lt) && AllOrdered(lt, env) && Separated(lt, c, env)
    ensures AllOrdered(lt, Step(s, lt, c, env))
  {
    match c
    case CopyTo(d, src) =>
    case Clear(d) =>
    case InsertInto(d, e, f) => InsertCorrect(s, lt, env[d], e, f);
    case RemoveFrom(d, k) => DeleteCorrect(s, lt, env[d], k);
    case MultiInsertInto(d, es, f) => Bulk.MultiInsertCorrect(s, lt, env[d], es, f);
    case MultiRemoveFrom(d, ks) => Bulk.MultiDeleteCorrect(s, lt, env[d], ks);
    case SplitAt(d, d2, src, k) => SplitCorrect(s, lt, env[src], k);
    case Binary(op, d, a, b) => CombineIs(s, lt, op, env[a], env[b]);
  }

  /** Every tree of every program state is balanced, starting from balanced trees. */
  lemma {:induction false} RunBalanced<K(!new), V>(s: Scheme<Entry<K, V>>, lt: (K, K) -> bool, cs: seq<Cmd<K, V>>,
                                                   env: seq<Tree<Entry<K, V>>>)
    requires AllBalanced(s, env) && forall i :: 0 <= i < |cs| ==> Runnable(lt, cs[i], |env|)
    ensures AllBalanced(s, StepAll(s, lt, cs, env))
    decreases |cs|
  {
    if cs != [] {
      StepBalanced(s, lt, cs[0], env);
      RunBalanced(s, lt, cs[1..], Step(s, lt, cs[0], env));
    }
  }

  ghost predicate SeparatedAll<K(!new), V>(s: Scheme<Entry<K, V>>, lt: (K, K) -> bool, cs: seq<Cmd<K, V>>,
                                           env: seq<Tree<Entry<K, V>>>)
    requires forall i :: 0 <= i < |cs| ==> Runnable(lt, cs[i], |env|)
    decreases |cs|
  {
    cs == [] || (Separated(lt, cs[0], env) && SeparatedAll(s, lt, cs[1..], Step(s, lt, cs[0], env)))
  }

  /** Every tree of every program state is a search tree, starting from search trees. */
  lemma {:induction false} RunOrdered<K(!new), V>(s: Scheme<Entry<K, V>>, lt: (K, K) -> bool, cs: seq<Cmd<K, V>>,
                                                  env: seq<Tree<Entry<K, V>>>)
    requires StrictOrder(lt) && AllOrdered(lt, env) && forall i :: 0 <= i < |cs| ==> Runnable(lt, cs[i], |env|)
    requires SeparatedAll(s, lt, cs, env)
    ensures AllOrdered(lt, StepAll(s, lt, cs, env))
    decreases |cs|
  {
    if cs != [] {
      StepOrdered(s, lt, cs[0], env);
      RunOrdered(s, lt, cs[1..], Step(s, lt, cs[0], env));
    }
  }

  // -------------------- programs on maps --------------------

  /** The value under key `x` in handle `i` after a command, if the handles held the maps `at` before it. */
  ghost function After<K, V>(lt: (K, K) -> bool, c: Cmd<K, V>, at: (nat, K) -> Option<V>, i: nat, x: K): Option<V> {
    match c
    case CopyTo(d, src) => at(if i == d then src else i, x)
    case Clear(d) => if i == d then None else at(i, x)
    case InsertInto(d, e, f) =>
      if i == d && x == e.key then Some(if at(d, x).Some? then f(at(d, x).value, e.val) else e.val) else at(i, x)
    case RemoveFrom(d, k) => if i == d && x == k then None else at(i, x)
    case MultiInsertInto(d, es, f) =>
      if i == d then Combined(UnionBy(f), at(d, x), Look(es, x)) else at(i, x)
    case MultiRemoveFrom(d, ks) => if i == d && x in ks then None else at(i, x)
    case SplitAt(d, d2, src, k) =>
      if i == d then if lt(x, k) then at(src, x) else None
      else if i == d2 then if lt(k, x) then at(src, x) else None
      else if i == src then None else at(i, x)
    case Binary(op, d, a, b) =>
      if i == d then Combined(op, at(a, x), at(b, x)) else if i == a || i == b then None else at(i, x)
  }

  ghost function Then<K, V>(lt: (K, K) -> bool, c: Cmd<K, V>, at: (nat, K) -> Option<V>): (nat, K) -> Option<V> {
    (i: nat, x: K) => After(lt, c, at, i, x)
  }

  ghost function AfterAll<K, V>(lt: (K, K) -> bool, cs: seq<Cmd<K, V>>, at: (nat, K) -> Option<V>, i: nat,
                                x: K): Option<V>
    decreases |cs|
  {
    if cs == [] then at(i, x) else AfterAll(lt, cs[1..], Then(lt, cs[0], at), i, x)
  }

  ghost function Lookup<K, V>(env: seq<Tree<Entry<K, V>>>): (nat, K) -> Option<V> {
    (i: nat, x: K) => if i < |env| then Get(env[i], x) else None
  }

  /** A split keeps the keys on their side of `k`, with their values. */
  lemma SplitIs<K(!new), V>(s: Scheme<Entry<K, V>>, lt: (K, K) -> bool, t: Tree<Entry<K, V>>, k: K)
    requires StrictOrder(lt) && Ordered(lt, t)
    ensures var p := Split(s, lt, t, k);
            && (forall x :: Get(p.first, x) == if lt(x, k) then Get(t, x) else None)
            && (forall x :: Get(p.second, x) == if lt(k, x) then Get(t, x) else None)
  {
    SplitCorrect(s, lt, t, k);
  }

  /** One command does to the map of every handle what it says, key by key. */
  lemma StepIs<K(!new), V>(s: Scheme<Entry<K, V>>, lt: (K, K) -> bool, c: Cmd<K, V>, env: seq<Tree<Entry<K, V>>>)
    requires Runnable(lt, c, |env|) && StrictOrder(lt) && AllOrdered(lt, env) && Separated(lt, c, env)
    ensures forall i: nat, x :: i < |env| ==> Get(Step(s, lt, c, env)[i], x) == After(lt, c, Lookup(env), i, x)
  {
    match c
    case CopyTo(d, src) =>
    case Clear(d) =>
    case InsertInto(d, e, f) => InsertCorrect(s, lt, env[d], e, f);
    case RemoveFrom(d, k) => DeleteCorrect(s, lt, env[d], k);
    case MultiInsertInto(d, es, f) => Bulk.MultiInsertCorrect(s, lt, env[d], es, f);
    case MultiRemoveFrom(d, ks) => Bulk.MultiDeleteCorrect(s, lt, env[d], ks);
    case SplitAt(d, d2, src, k) => SplitIs(s, lt, env[src], k);
    case Binary(op, d, a, b) => CombineIs(s, lt, op, env[a], env[b]);
  }

  /** Only the maps of the handles matter. */
  lemma {:induction false} AfterAllSame<K(!new), V>(lt: (K, K) -> bool, cs: seq<Cmd<K, V>>, at: (nat, K) -> Option<V>,
                                                    bt: (nat, K) -> Option<V>, n: nat)
    requires forall i :: 0 <= i < |cs| ==> Runnable(lt, cs[i], n)
    requires forall i: nat, x :: i < n ==> at(i, x) == bt(i, x)
    ensures forall i: nat, x :: i < n ==> AfterAll(lt, cs, at, i, x) == AfterAll(lt, cs, bt, i, x)
    decreases |cs|
  {
    if cs != [] {
      forall i: nat, x | i < n ensures Then(lt, cs[0], at)(i, x) == Then(lt, cs[0], bt)(i, x) {
      }
      AfterAllSame(lt, cs[1..], Then(lt, cs[0], at), Then(lt, cs[0], bt), n);
    }
  }

  /** Every program on search trees computes, in every handle and under every key, what it says on maps. */
  lemma {:induction false} RunIs<K(!new), V>(s: Scheme<Entry<K, V>>, lt: (K, K) -> bool, cs: seq<Cmd<K, V>>,
                                             env: seq<Tree<Entry<K, V>>>)
    requires StrictOrder(lt) && AllOrdered(lt, env) && forall i :: 0 <= i < |cs| ==> Runnable(lt, cs[i], |env|)
    requires SeparatedAll(s, lt, cs, env)
    ensures |StepAll(s, lt, cs, env)| == |env|
    ensures forall i: nat, x :: i < |env| ==>
              Get(StepAll(s, lt, cs, env)[i], x) == AfterAll(lt, cs, Lookup(env), i, x)
    decreases |cs|
  {
    if cs != [] {
      var e := Step(s, lt, cs[0], env);
      StepOrdered(s, lt, cs[0], env);
      StepIs(s, lt, cs[0], env);
      RunIs(s, lt, cs[1..], e);
      AfterAllSame(lt, cs[1..], Lookup(e), Then(lt, cs[0], Lookup(env)), |env|);
    }
  }

  // -------------------- the references of the handles --------------------

  function Toks(hs: seq<Ref>): multiset<Ref> {
    if hs == [] then multiset{} else Toks(hs[..|hs| - 1]) + Tok(hs[|hs| - 1])
  }

  lemma {:induction false} ToksAt(hs: seq<Ref>, i: nat)
    requires i < |hs|
    ensures Toks(hs) == Toks(hs[i := 0]) + Tok(hs[i])
  {
    var n := |hs| - 1;
    if i == n {
      assert hs[i := 0][..n] == hs[..n];
    } else {
      ToksAt(hs[..n], i);
      assert hs[i := 0][..n] == hs[..n][i := 0];
      assert hs[i := 0][n] == hs[n];
      HeapOps.Swap(Toks(hs[..n][i := 0]), Tok(hs[i]), Tok(hs[n]));
    }
  }

  lemma {:induction false} ToksHeld(hs: seq<Ref>, h: Ref)
    requires h in Toks(hs)
    ensures exists i :: 0 <= i < |hs| && hs[i] == h
  {
    var n := |hs| - 1;
    if hs[n] != h {
      ToksHeld(hs[..n], h);
      var i :| 0 <= i < n && hs[..n][i] == h;
      assert hs[i] == h;
    }
  }

  function ValuesOf<E>(view: map<Ref, Spine<E>>, hs: seq<Ref>): (v: seq<Tree<E>>)
    ensures |v| == |hs| && forall i :: 0 <= i < |hs| ==> v[i] == TreeAt(view, hs[i])
  {
    if hs == [] then [] else ValuesOf(view, hs[..|hs| - 1]) + [TreeAt(view, hs[|hs| - 1])]
  }

  lemma ValuesKept<E, A>(g: Augment<E, A>, s0: Sys<E, A>, s1: Sys<E, A>, hs: seq<Ref>, lf: set<Ref>)
    requires Valid(g, s0) && Valid(g, s1) && Kept(s0, s1, Toks(hs), lf)
    ensures ValuesOf(s1.view, hs) == ValuesOf(s0.view, hs)
  {
    forall i | 0 <= i < |hs| ensures TreeAt(s1.view, hs[i]) == TreeAt(s0.view, hs[i]) {
      ToksAt(hs, i);
      TreeKept(g, s0, s1, Toks(hs), lf, hs[i]);
    }
  }

  lemma ValuesSet<E>(view: map<Ref, Spine<E>>, hs: seq<Ref>, i: nat, r: Ref)
    requires i < |hs|
    ensures ValuesOf(view, hs[i := r]) == ValuesOf(view, hs)[i := TreeAt(view, r)]
  {
  }

  class Session<K(!new), V, A> {
    const st: Store<Entry<K, V>, A>
    const lt: (K, K) -> bool
    var hs: seq<Ref>

    ghost predicate Ok()
      reads this, st
    {
      Valid(st.g, st.S()) && st.owned == Toks(hs) && Loose(st.S()) == {}
    }

    ghost function Values(): seq<Tree<Entry<K, V>>>
      reads this, st
    {
      ValuesOf(st.view, hs)
    }

    constructor (st: Store<Entry<K, V>, A>, lt: (K, K) -> bool, n: nat)
      requires Valid(st.g, st.S()) && st.mem == map[]
      ensures this.st == st && this.lt == lt && |hs| == n && Ok()
      ensures forall i :: 0 <= i < n ==> Values()[i] == Leaf
    {
      this.st := st;
      this.lt := lt;
      hs := seq(n, i => 0);
      new;
      ToksZero(hs);
      assert forall r :: r !in st.owned;
    }

    /** Moves the tree out of a handle. */
    method Take(i: nat) returns (r: Ref)
      requires Valid(st.g, st.S()) && i < |hs|
      modifies this`hs
      ensures r == old(hs)[i] && hs == old(hs)[i := 0] && Toks(old(hs)) == Toks(hs) + Tok(r)
      ensures ValuesOf(st.view, hs) == old(ValuesOf(st.view, hs))[i := Leaf]
    {
      r := hs[i];
      ToksAt(hs, i);
      ValuesSet(st.view, hs, i, 0);
      ChildCache(st.g, st.S(), 0);
      hs := hs[i := 0];
    }

    /** Move assignment: clears the target, then stores the tree in it. */
    method Put(i: nat, t: Ref, ghost extra: multiset<Ref>)
      requires Valid(st.g, st.S()) && i < |hs| && st.owned == Toks(hs) + extra + Tok(t) && Loose(st.S()) == {}
      modifies this`hs, st
      ensures Valid(st.g, st.S()) && st.owned == Toks(hs) + extra && Loose(st.S()) == {} && |hs| == |old(hs)|
      ensures ValuesOf(st.view, hs) == old(ValuesOf(st.view, hs))[i := old(TreeAt(st.view, t))]
      ensures Kept(old(st.S()), st.S(), extra, {})
    {
      ghost var s0 := st.S();
      SetTwice(ValuesOf(st.view, hs), i, Leaf, TreeAt(st.view, t));
      var r := Take(i);
      ghost var fr := Toks(hs) + extra + Tok(t);
      Last(Toks(hs), Tok(r), extra, Tok(t));
      st.DecrementRecursive(r, fr);
      StoredValues(st.g, s0, st.S(), hs, i, t, extra);
      StoredToks(hs, i, t, extra);
      hs := hs[i := t];
    }

    // -------------------- one command --------------------

    method DoCopy(d: nat, src: nat)
      requires Ok() && d < |hs| && src < |hs|
      modifies this`hs, st
      ensures Ok() && Values() == old(Values())[d := old(Values())[src]]
    {
      if d != src {
        ToksAt(hs, src);
        OwnedPoints(st.g, st.S(), hs[src]);
        ghost var s0 := st.S();
        IncIf(st, hs[src], true, Toks(hs), {});
        ValuesKept(st.g, s0, st.S(), hs, {});
        assert Toks(hs) + multiset{} + Tok(hs[src]) == st.owned;
        Put(d, hs[src], multiset{});
      }
    }

    method DoClear(d: nat)
      requires Ok() && d < |hs|
      modifies this`hs, st
      ensures Ok() && Values() == old(Values())[d := Leaf]
    {
      ChildCache(st.g, st.S(), 0);
      assert Toks(hs) + multiset{} + Tok(0) == st.owned;
      Put(d, 0, multiset{});
    }

    method DoInsert(d: nat, e: Entry<K, V>, f: (V, V) -> V)
      requires Ok() && d < |hs|
      modifies this`hs, st
      ensures Ok() && Values() == old(Values())[d := Insert(st.scheme, lt, old(Values())[d], e, f)]
    {
      ghost var s0, v0 := st.S(), Values();
      var r := Take(d);
      var t := InsertJ(st, lt, r, e, f, false, 0, Toks(hs), {});
      Finish(d, t, s0, v0, TreeAt(st.view, t));
    }

    /** Stores the result of an operation in the handle its operand was taken from. */
    method Finish(d: nat, t: Ref, ghost s0: Sys<Entry<K, V>, A>, ghost v0: seq<Tree<Entry<K, V>>>,
                  ghost tree: Tree<Entry<K, V>>)
      requires d < |hs| == |v0| && Valid(st.g, s0) && Yields(st.g, s0, st.S(), Toks(hs), {}, t, tree)
      requires ValuesOf(s0.view, hs) == v0[d := Leaf]
      modifies this`hs, st
      ensures Ok() && Values() == v0[d := tree]
    {
      SetTwice(v0, d, Leaf, tree);
      PutResult(d, t, s0, tree);
    }

    method PutResult(d: nat, t: Ref, ghost s0: Sys<Entry<K, V>, A>, ghost tree: Tree<Entry<K, V>>)
      requires d < |hs| && Valid(st.g, s0) && Yields(st.g, s0, st.S(), Toks(hs), {}, t, tree)
      modifies this`hs, st
      ensures Ok() && Values() == ValuesOf(s0.view, old(hs))[d := tree]
    {
      ValuesKept(st.g, s0, st.S(), hs, {});
      assert Toks(hs) + multiset{} + Tok(t) == st.owned;
      Put(d, t, multiset{});
    }

    method DoRemove(d: nat, k: K)
      requires Ok() && d < |hs|
      modifies this`hs, st
      ensures Ok() && Values() == old(Values())[d := Delete(st.scheme, lt, old(Values())[d], k)]
    {
      ghost var s0, v0 := st.S(), Values();
      var r := Take(d);
      var t := Deletet(st, lt, r, k, false, 0, Toks(hs), {});
      Finish(d, t, s0, v0, TreeAt(st.view, t));
    }

    method DoMultiInsert(d: nat, es: seq<Entry<K, V>>, f: (V, V) -> V)
      requires Ok() && d < |hs| && StrictOrder(lt) && Sorted(lt, es)
      modifies this`hs, st
      ensures Ok() && Values() == old(Values())[d := Bulk.MultiInsert(st.scheme, lt, old(Values())[d], es, f)]
    {
      ghost var s0, v0 := st.S(), Values();
      var r := Take(d);
      var t := HeapBulk.MultiInsertSorted(st, lt, r, es, f, false, 0, Toks(hs), {});
      Finish(d, t, s0, v0, TreeAt(st.view, t));
    }

    method DoMultiRemove(d: nat, ks: seq<K>)
      requires Ok() && d < |hs| && StrictOrder(lt) && Bulk.SortedKeys(lt, ks)
      modifies this`hs, st
      ensures Ok() && Values() == old(Values())[d := Bulk.MultiDelete(st.scheme, lt, old(Values())[d], ks)]
    {
      ghost var s0, v0 := st.S(), Values();
      var r := Take(d);
      var t := HeapBulk.MultiDeleteSorted(st, lt, r, ks, false, 0, Toks(hs), {});
      Finish(d, t, s0, v0, TreeAt(st.view, t));
    }

    method DoSplit(d: nat, d2: nat, src: nat, k: K)
      requires Ok() && d < |hs| && d2 < |hs| && src < |hs|
      modifies this`hs, st
      ensures Ok()
      ensures var p := Split(st.scheme, lt, old(Values())[src], k);
              Values() == old(Values())[src := Leaf][d := p.first][d2 := p.second]
    {
      ghost var s0, v0 := st.S(), Values();
      var r := Take(src);
      var f, mid, s := SplitInplace(st, lt, r, k, Toks(hs), {});
      PutHalves(d, d2, f, s, s0);
    }

    method PutHalves(d: nat, d2: nat, f: Ref, s: Ref, ghost s0: Sys<Entry<K, V>, A>)
      requires d < |hs| && d2 < |hs| && Valid(st.g, s0)
      requires Yields2(st.g, s0, st.S(), Toks(hs), {}, f, TreeAt(st.view, f), s, TreeAt(st.view, s))
      modifies this`hs, st
      ensures Ok()
      ensures Values() == ValuesOf(s0.view, old(hs))[d := old(TreeAt(st.view, f))][d2 := old(TreeAt(st.view, s))]
    {
      ValuesKept(st.g, s0, st.S(), hs, {});
      Swap(Toks(hs), Tok(f), Tok(s));
      PutBoth(d, f, d2, s);
    }

    method PutBoth(d: nat, f: Ref, d2: nat, s: Ref)
      requires d < |hs| && d2 < |hs| && Valid(st.g, st.S()) && st.owned == Toks(hs) + Tok(s) + Tok(f)
      requires Loose(st.S()) == {}
      modifies this`hs, st
      ensures Ok()
      ensures Values() == old(Values())[d := old(TreeAt(st.view, f))][d2 := old(TreeAt(st.view, s))]
    {
      ghost var s1 := st.S();
      Put(d, f, Tok(s));
      TreeKept(st.g, s1, st.S(), Tok(s), {}, s);
      assert Toks(hs) + multiset{} + Tok(s) == Toks(hs) + Tok(s);
      Put(d2, s, multiset{});
    }

    method DoBinary(op: BinOp<V>, d: nat, a: nat, b: nat)
      requires Ok() && d < |hs| && a < |hs| && b < |hs| && a != b
      modifies this`hs, st
      ensures Ok()
      ensures var v := old(Values());
              Values() == v[a := Leaf][b := Leaf][d := Combine(st.scheme, lt, op, v[a], v[b])]
      ensures CombinesTo(lt, op, old(Values())[a], old(Values())[b], Values()[d])
    {
      ghost var s0 := st.S();
      CombineIs(st.scheme, lt, op, Values()[a], Values()[b]);
      var x := Take(a);
      var y := Take(b);
      Swap(Toks(hs), Tok(y), Tok(x));
      var t := Operate(op, x, y);
      PutResult(d, t, s0, TreeAt(st.view, t));
    }

    method Operate(op: BinOp<V>, x: Ref, y: Ref) returns (t: Ref)
      requires Valid(st.g, st.S()) && st.owned == Toks(hs) + Tok(x) + Tok(y) && Loose(st.S()) == {}
      modifies st
      ensures Yields(st.g, old(st.S()), st.S(), Toks(hs), {}, t,
              Combine(st.scheme, lt, op, old(TreeAt(st.view, x)), old(TreeAt(st.view, y))))
    {
      Swap(Toks(hs), Tok(y), Tok(x));
      match op
      case UnionBy(f) => t := Uniont(st, lt, x, y, f, false, 0, Toks(hs), {});
      case IntersectBy(f) => t := IntersectI(st, lt, x, y, f, false, 0, Toks(hs), {});
      case Minus => t := DifferenceI(st, lt, x, y, false, 0, Toks(hs), {});
      case Concat => t := Join2I(st, x, y, false, false, 0, 0, Toks(hs), {});
    }

    /** One command does to the handles what it does to independent values, and to their maps what it says. */
    method Exec(c: Cmd<K, V>)
      requires Ok() && Runnable(lt, c, |hs|)
      modifies this`hs, st
      ensures Ok() && Values() == Step(st.scheme, lt, c, old(Values()))
      ensures StrictOrder(lt) && AllOrdered(lt, old(Values())) && Separated(lt, c, old(Values())) ==>
                forall i: nat, x :: i < |hs| ==> Get(Values()[i], x) == After(lt, c, Lookup(old(Values())), i, x)
    {
      ghost var v := Values();
      if StrictOrder(lt) && AllOrdered(lt, v) && Separated(lt, c, v) {
        StepIs(st.scheme, lt, c, v);
      }
      match c
      case CopyTo(d, s) => DoCopy(d, s);
      case Clear(d) => DoClear(d);
      case InsertInto(d, e, f) => DoInsert(d, e, f);
      case RemoveFrom(d, k) => DoRemove(d, k);
      case MultiInsertInto(d, es, f) => DoMultiInsert(d, es, f);
      case MultiRemoveFrom(d, ks) => DoMultiRemove(d, ks);
      case SplitAt(d, d2, s, k) => DoSplit(d, d2, s, k);
      case Binary(op, d, a, b) => DoBinary(op, d, a, b);
    }

    /** Any program: the handles end up with the values of the same program on independent values, their maps are
        those of the program on maps, and the live cells are exactly the ones some handle can reach. */
    method Run(cs: seq<Cmd<K, V>>)
      requires Ok() && forall i :: 0 <= i < |cs| ==> Runnable(lt, cs[i], |hs|)
      modifies this`hs, st
      ensures Ok() && Values() == StepAll(st.scheme, lt, cs, old(Values()))
      ensures StrictOrder(lt) && AllOrdered(lt, old(Values())) && SeparatedAll(st.scheme, lt, cs, old(Values())) ==>
                forall i: nat, x :: i < |hs| ==> Get(Values()[i], x) == AfterAll(lt, cs, Lookup(old(Values())), i, x)
      ensures forall r :: r in st.mem <==> exists i :: 0 <= i < |hs| && Reaches(At0(st.view, hs[i]), r)
      decreases |cs|
    {
      ghost var v := Values();
      if StrictOrder(lt) && AllOrdered(lt, v) && SeparatedAll(st.scheme, lt, cs, v) {
        RunIs(st.scheme, lt, cs, v);
      }
      if |cs| > 0 {
        Exec(cs[0]);
        Run(cs[1..]);
      } else {
        ExactlyReachable(st.g, st.S(), hs);
      }
    }
  }

  /** With exact counts and no loose cells, a cell is live if and only if a handle reaches it. */
  lemma ExactlyReachable<E, A>(g: Augment<E, A>, s: Sys<E, A>, hs: seq<Ref>)
    requires Valid(g, s) && s.owned == Toks(hs) && Loose(s) == {}
    ensures forall r :: r in s.mem <==> exists i :: 0 <= i < |hs| && Reaches(At0(s.view, hs[i]), r)
  {
    forall r | r in s.mem ensures exists i :: 0 <= i < |hs| && Reaches(At0(s.view, hs[i]), r) {
      assert r !in Loose(s);
      NoLeak(g, s, r);
      var h :| h in s.owned && h in s.view && Reaches(s.view[h], r);
      ToksHeld(hs, h);
      var i :| 0 <= i < |hs| && hs[i] == h;
    }
    forall i, r | 0 <= i < |hs| && Reaches(At0(s.view, hs[i]), r) ensures r in s.mem {
      SubIsView(g, s, hs[i], r);
    }
  }

  lemma SetTwice<T>(q: seq<T>, i: nat, x: T, y: T)
    requires i < |q|
    ensures q[i := x][i := y] == q[i := y]
  {
  }

  lemma StoredToks(hs: seq<Ref>, i: nat, t: Ref, extra: multiset<Ref>)
    requires i < |hs| && hs[i] == 0
    ensures Toks(hs[i := t]) + extra == Toks(hs) + extra + Tok(t)
  {
    ToksAt(hs[i := t], i);
    assert hs[i := t][i := 0] == hs;
    Swap(Toks(hs), Tok(t), extra);
  }

  /** Storing `t` in the empty handle `i`, after the old tree of the handle has been given up. */
  lemma StoredValues<E, A>(g: Augment<E, A>, s0: Sys<E, A>, s1: Sys<E, A>, hs: seq<Ref>, i: nat, t: Ref,
                           extra: multiset<Ref>)
    requires Valid(g, s0) && Valid(g, s1) && i < |hs| && Kept(s0, s1, Toks(hs) + extra + Tok(t), {})
    ensures ValuesOf(s1.view, hs[i := t]) == ValuesOf(s0.view, hs)[i := TreeAt(s0.view, t)]
    ensures Kept(s0, s1, extra, {})
  {
    var fr := Toks(hs) + extra + Tok(t);
    TreeKept(g, s0, s1, fr, {}, t);
    ValuesKept(g, s0, s1, hs, {});
    ValuesSet(s1.view, hs, i, t);
  }

  lemma {:induction false} ToksZero(hs: seq<Ref>)
    requires forall i :: 0 <= i < |hs| ==> hs[i] == 0
    ensures Toks(hs) == multiset{}
  {
    if hs != [] {
      ToksZero(hs[..|hs| - 1]);
    }
  }
}
