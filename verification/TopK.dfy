/** Top-k documents of an inverted index: posting lists are maps from document to weight, augmented with
    the largest weight. */
module TopK {
  import opened Trees
  import opened Maps
  import opened Heap
  import opened Augmented

  type Posting = Entry<int, real>
  type Postings = Tree<Posting>

  function WeightOf(e: Posting): real {
    e.val
  }

  function Larger(a: real, b: real): real {
    if b > a then b else a
  }

  const LARGEST: Augment<Posting, real> := Augment(WeightOf, Larger, 0.0)

  function Under(m: real): real -> bool {
    (v: real) => v < m
  }

  // -------------------- the first largest entry --------------------

  /** The cached value of a list that is not empty is its largest weight. */
  lemma {:induction false} MaxSatisfied(t: Postings, m: real)
    requires t.Node?
    ensures AugVal(LARGEST, t) < m <==> Satisfied(LARGEST, Under(m), Inorder(t))
  {
    SatisfiedParts(LARGEST, Under(m), Inorder(t.lc), t.entry, Inorder(t.rc));
    if t.lc.Node? {
      MaxSatisfied(t.lc, m);
    }
    if t.rc.Node? {
      MaxSatisfied(t.rc, m);
    }
  }

  /** Whatever selection finds is the first entry of weight `m` or more. */
  lemma {:induction false} SelectFirst(t: Postings, m: real) returns (n: nat)
    requires AugSelect(LARGEST, t, Under(m)).Some?
    ensures FirstFailing(LARGEST, Under(m), Inorder(t), AugSelect(LARGEST, t, Under(m)).value, n)
  {
    var f := Under(m);
    var a, e, b := Inorder(t.lc), t.entry, Inorder(t.rc);
    if t.lc.Node? {
      MaxSatisfied(t.lc, m);
    }
    if f(AugVal(LARGEST, t.lc)) && f(WeightOf(e)) {
      n := SelectFirst(t.rc, m);
      FirstAfter(LARGEST, f, a, e, b, AugSelect(LARGEST, t.rc, f).value, n);
      n := |a| + 1 + n;
    } else if f(AugVal(LARGEST, t.lc)) {
      assert Inorder(t)[..|a|] == a;
      n := |a|;
    } else {
      n := SelectFirst(t.lc, m);
      assert Inorder(t)[..n] == a[..n];
    }
  }

  /** Selecting the largest weight finds something when that weight is positive. */
  lemma SelectFinds(t: Postings)
    requires t.Node? && AugVal(LARGEST, t) > 0.0
    ensures AugSelect(LARGEST, t, Under(AugVal(LARGEST, t))).Some?
  {
  }

  /** Every node on the way to position `n`, the one at `n` included, has a left child. */
  predicate Padded(t: Postings, n: nat) {
    t.Node? && t.lc.Node?
    && (n < |Inorder(t.lc)| ==> Padded(t.lc, n))
    && (n > |Inorder(t.lc)| ==> Padded(t.rc, n - |Inorder(t.lc)| - 1))
  }

  /** A threshold that is not positive: an empty left child counts as weight 0, which is not under it, and stops the
      search. So the first entry of weight `m` or more, at position `n`, is found exactly when no node on the way
      lacks a left child. */
  lemma {:induction false} SelectPadded(t: Postings, m: real, n: nat)
    requires m <= 0.0 && n < |Inorder(t)| && FirstFailing(LARGEST, Under(m), Inorder(t), Inorder(t)[n], n)
    ensures AugSelect(LARGEST, t, Under(m)).Some? <==> Padded(t, n)
  {
    var f := Under(m);
    var a, e, b, q := Inorder(t.lc), t.entry, Inorder(t.rc), Inorder(t);
    if t.lc.Node? {
      MaxSatisfied(t.lc, m);
      if n < |a| {
        assert a[n] == q[n] && a[..n] == q[..n];
        assert !f(WeightOf(a[n]));
        SelectPadded(t.lc, m, n);
      } else {
        assert q[..n][..|a|] == a;
        assert forall i :: 0 <= i < |a| ==> a[i] == q[..n][i];
        assert n > |a| ==> q[..n][|a|] == e;
        if n > |a| {
          RestFailing(a, e, b, m, n);
          SelectPadded(t.rc, m, n - |a| - 1);
        }
      }
    }
  }

  lemma RestFailing(a: seq<Posting>, e: Posting, b: seq<Posting>, m: real, n: nat)
    requires var q := a + [e] + b; |a| < n < |q| && FirstFailing(LARGEST, Under(m), q, q[n], n)
    ensures var k := n - |a| - 1; k < |b| && FirstFailing(LARGEST, Under(m), b, b[k], k)
  {
    var q, k := a + [e] + b, n - |a| - 1;
    assert q[n] == b[k];
    assert forall i :: 0 <= i < k ==> b[..k][i] == q[..n][|a| + 1 + i];
  }

  /** The first largest entry exists in every list that is not empty. */
  lemma LargestExists(t: Postings) returns (n: nat)
    requires t.Node?
    ensures n < |Inorder(t)| && FirstFailing(LARGEST, Under(AugVal(LARGEST, t)), Inorder(t), Inorder(t)[n], n)
  {
    var m, q := AugVal(LARGEST, t), Inorder(t);
    MaxSatisfied(t, m);
    n := 0;
    while n < |q| && Under(m)(WeightOf(q[n]))
      invariant n <= |q| && Satisfied(LARGEST, Under(m), q[..n])
    {
      n := n + 1;
    }
    assert q[..|q|] == q;
  }

  /** With `n` the position of the first largest entry: selection of the largest weight finds it if and only if that
      weight is positive or every node on the way there has a left child. */
  lemma SelectExact(t: Postings) returns (n: nat)
    requires t.Node?
    ensures n < |Inorder(t)| && FirstFailing(LARGEST, Under(AugVal(LARGEST, t)), Inorder(t), Inorder(t)[n], n)
    ensures AugSelect(LARGEST, t, Under(AugVal(LARGEST, t))).Some? <==> AugVal(LARGEST, t) > 0.0 || Padded(t, n)
  {
    n := LargestExists(t);
    if AugVal(LARGEST, t) > 0.0 {
      SelectFinds(t);
    } else {
      SelectPadded(t, AugVal(LARGEST, t), n);
    }
  }

  /** A list of one entry: found if and only if its weight is positive. */
  lemma SingleSelect(e: Posting)
    ensures AugSelect(LARGEST, Node(Leaf, e, Leaf), Under(e.val)).Some? <==> e.val > 0.0
    ensures AugVal(LARGEST, Node(Leaf, e, Leaf)) == e.val
  {
    assert AugSelect(LARGEST, Leaf, Under(e.val)) == None;
  }

  // -------------------- the result --------------------

  /** The order of the answer: heavier first, and among equal weights the smaller document. */
  predicate Precedes(a: Posting, b: Posting) {
    a.val > b.val || (a.val == b.val && a.key < b.key)
  }

  /** `vec` has been taken from `q0`, best first, and `q` is what is left. */
  ghost predicate Taken(q0: seq<Posting>, vec: seq<Posting>, q: seq<Posting>) {
    && |q0| == |vec| + |q|
    && (forall e :: e in q0 <==> e in vec || e in q)
    && (forall i, j :: 0 <= i < j < |vec| ==> Precedes(vec[i], vec[j]))
    && (forall i, j :: 0 <= i < |vec| && 0 <= j < |q| ==> Precedes(vec[i], q[j]))
  }

  /** `vec` is the best min(k, |q|) entries of `q`, in order. */
  ghost predicate Best(q: seq<Posting>, k: nat, vec: seq<Posting>) {
    && |vec| == (if k < |q| then k else |q|)
    && (forall i :: 0 <= i < |vec| ==> vec[i] in q)
    && (forall i, j :: 0 <= i < j < |vec| ==> Precedes(vec[i], vec[j]))
    && (forall i, e :: 0 <= i < |vec| && e in q && e !in vec ==> Precedes(vec[i], e))
  }

  /** There is only one answer. */
  lemma {:induction false} BestUnique(q: seq<Posting>, k: nat, v: seq<Posting>, u: seq<Posting>, n: nat)
    requires Best(q, k, v) && Best(q, k, u) && n <= |v|
    ensures v[..n] == u[..n]
    decreases n
  {
    if n > 0 {
      BestUnique(q, k, v, u, n - 1);
      NextPrecedes(q, k, v, u, n - 1);
      NextPrecedes(q, k, u, v, n - 1);
      assert v[..n] == v[..n - 1] + [v[n - 1]] && u[..n] == u[..n - 1] + [u[n - 1]];
    }
  }

  lemma NextPrecedes(q: seq<Posting>, k: nat, v: seq<Posting>, u: seq<Posting>, i: nat)
    requires Best(q, k, v) && Best(q, k, u) && i < |v| && v[..i] == u[..i]
    ensures v[i] == u[i] || Precedes(v[i], u[i])
  {
  }

  function Positives(q: seq<Posting>): nat {
    if q == [] then 0 else (if q[0].val > 0.0 then 1 else 0) + Positives(q[1..])
  }

  lemma {:induction false} PositivesConcat(p: seq<Posting>, q: seq<Posting>)
    ensures Positives(p + q) == Positives(p) + Positives(q)
  {
    if p == [] {
      assert p + q == q;
    } else {
      assert (p + q)[1..] == p[1..] + q;
      PositivesConcat(p[1..], q);
    }
  }

  lemma {:induction false} PositivesBound(q: seq<Posting>)
    ensures Positives(q) <= |q|
    ensures Positives(q) > 0 ==> exists i :: 0 <= i < |q| && q[i].val > 0.0
  {
    if q != [] {
      PositivesBound(q[1..]);
      if q[0].val > 0.0 {
        assert q[0].val > 0.0;
      } else if Positives(q) > 0 {
        var i :| 0 <= i < |q[1..]| && q[1..][i].val > 0.0;
        assert q[i + 1].val > 0.0;
      }
    }
  }

  /** Deleting the entry at position `n`. */
  lemma DeleteAt(s: Scheme<Posting>, t: Postings, n: nat)
    requires Ordered(Less, t) && n < |Inorder(t)|
    ensures var q := Inorder(t); var u := Delete(s, Less, t, q[n].key);
            Ordered(Less, u) && Inorder(u) == q[..n] + q[n + 1..]
  {
    var q := Inorder(t);
    var e := q[n];
    var u := Delete(s, Less, t, e.key);
    var rest := q[..n] + q[n + 1..];
    DeleteCorrect(s, Less, t, e.key);
    OrderedIsSorted(Less, t);
    OrderedIsSorted(Less, u);
    forall x ensures Look(Inorder(u), x) == Look(rest, x) {
      assert Get(u, x) == if x == e.key then None else Get(t, x);
      LookWithout(q, n, x);
    }
    SortedUnique(Less, Inorder(u), rest);
  }

  lemma LookWithout(q: seq<Posting>, n: nat, x: int)
    requires Sorted(Less, q) && n < |q|
    ensures Look(q[..n] + q[n + 1..], x) == if x == q[n].key then None else Look(q, x)
  {
    if x == q[n].key {
      NotElsewhere(q, n);
    } else {
      var a, b := q[..n], q[n + 1..];
      assert q == a + [q[n]] + b;
      GetParts(a, q[n], b, x);
      LookConcat(a, b, x);
    }
  }

  lemma NotElsewhere(q: seq<Posting>, n: nat)
    requires Sorted(Less, q) && n < |q|
    ensures Look(q[..n] + q[n + 1..], q[n].key) == None
  {
    var rest := q[..n] + q[n + 1..];
    LookIndex(rest, q[n].key);
    assert forall i :: 0 <= i < |rest| ==> rest[i] == if i < n then q[i] else q[i + 1];
  }

  /** The first entry of the largest weight precedes all others. */
  lemma FirstPrecedes(q: seq<Posting>, m: real, e: Posting, n: nat)
    requires Sorted(Less, q) && (forall i :: 0 <= i < |q| ==> q[i].val <= m) && FirstFailing(LARGEST, Under(m), q, e, n)
    ensures forall j :: 0 <= j < |q| && j != n ==> Precedes(e, q[j])
  {
  }

  lemma TakeOne(q0: seq<Posting>, vec: seq<Posting>, q: seq<Posting>, n: nat)
    requires Taken(q0, vec, q) && n < |q| && forall j :: 0 <= j < |q| && j != n ==> Precedes(q[n], q[j])
    ensures Taken(q0, vec + [q[n]], q[..n] + q[n + 1..])
  {
  }

  lemma PositivesTake(vec: seq<Posting>, q: seq<Posting>, n: nat)
    requires n < |q|
    ensures Positives(vec + [q[n]]) + Positives(q[..n] + q[n + 1..]) == Positives(vec) + Positives(q)
  {
    assert q == q[..n] + [q[n]] + q[n + 1..];
    PositivesConcat(q[..n] + [q[n]], q[n + 1..]);
    PositivesConcat(q[..n], [q[n]]);
    PositivesConcat(q[..n], q[n + 1..]);
    PositivesConcat(vec, [q[n]]);
  }

  lemma TakenIsBest(q0: seq<Posting>, vec: seq<Posting>, q: seq<Posting>, k: nat)
    requires Taken(q0, vec, q) && |vec| == (if k < |q0| then k else |q0|)
    ensures Best(q0, k, vec)
  {
  }

  /** One round: the first largest entry is taken out. */
  lemma Round(s: Scheme<Posting>, b: Postings, q0: seq<Posting>, vec: seq<Posting>, e: Posting)
    requires Ordered(Less, b) && b.Node? && Taken(q0, vec, Inorder(b))
    requires AugSelect(LARGEST, b, Under(AugVal(LARGEST, b))) == Some(e)
    ensures var d := Delete(s, Less, b, e.key);
            && Ordered(Less, d) && Taken(q0, vec + [e], Inorder(d))
            && Positives(vec + [e]) + Positives(Inorder(d)) == Positives(vec) + Positives(Inorder(b))
  {
    var m, q := AugVal(LARGEST, b), Inorder(b);
    var n := SelectFirst(b, m);
    OrderedIsSorted(Less, b);
    NoneLarger(b);
    FirstPrecedes(q, m, e, n);
    DeleteAt(s, b, n);
    TakeOne(q0, vec, q, n);
    PositivesTake(vec, q, n);
  }

  lemma NoneLarger(b: Postings)
    requires b.Node?
    ensures forall i :: 0 <= i < |Inorder(b)| ==> Inorder(b)[i].val <= AugVal(LARGEST, b)
  {
  }

  lemma StillPositive(b: Postings, q0: seq<Posting>, vec: seq<Posting>)
    requires Positives(vec) + Positives(Inorder(b)) == Positives(q0) && Positives(q0) > |vec|
    ensures b.Node? && AugVal(LARGEST, b) > 0.0
  {
    PositivesBound(vec);
    PositivesBound(Inorder(b));
    var i :| 0 <= i < |Inorder(b)| && Inorder(b)[i].val > 0.0;
    NoneLarger(b);
  }

  /** What is left when one entry remains has been taken only if its weight is positive, and then so are all before it.
      */
  lemma LastRound(b: Postings, q0: seq<Posting>, vec: seq<Posting>, e: Posting)
    requires |Inorder(b)| == 1 && Taken(q0, vec, Inorder(b))
    requires AugSelect(LARGEST, b, Under(AugVal(LARGEST, b))) == Some(e)
    ensures Positives(vec + [e]) == |vec| + 1
  {
    OneEntry(b);
    SingleSelect(b.entry);
    assert Inorder(b)[0] == b.entry == e;
    AllPositive(vec);
    PositivesConcat(vec, [e]);
  }

  lemma OneEntry(b: Postings)
    requires |Inorder(b)| == 1
    ensures b == Node(Leaf, Inorder(b)[0], Leaf)
  {
    SizeIsLength(b);
    assert Inorder(b)[0] == b.entry;
  }

  lemma {:induction false} AllPositive(q: seq<Posting>)
    requires forall i :: 0 <= i < |q| ==> q[i].val > 0.0
    ensures Positives(q) == |q|
  {
    if q != [] {
      AllPositive(q[1..]);
    }
  }

  /** `n` is the position of the first largest entry, and nothing stops the search for it. */
  ghost predicate Findable(t: Postings, n: nat) {
    && t.Node? && n < |Inorder(t)|
    && FirstFailing(LARGEST, Under(AugVal(LARGEST, t)), Inorder(t), Inorder(t)[n], n)
    && (AugVal(LARGEST, t) > 0.0 || Padded(t, n))
  }

  /** In `l` rounds of taking the first largest entry out, it is findable every time. */
  ghost predicate Answerable(s: Scheme<Posting>, t: Postings, l: nat)
    decreases l
  {
    l == 0 || exists n: nat :: Findable(t, n) && Answerable(s, Without(s, t, n), l - 1)
  }

  function Without(s: Scheme<Posting>, t: Postings, n: nat): Postings
    requires n < |Inorder(t)|
  {
    Delete(s, Less, t, Inorder(t)[n].key)
  }

  /** In `l` rounds selection finds something every time. */
  predicate Finds(s: Scheme<Posting>, t: Postings, l: nat)
    decreases l
  {
    l == 0 || (var r := AugSelect(LARGEST, t, Under(AugVal(LARGEST, t)));
               r.Some? && Finds(s, Delete(s, Less, t, r.value.key), l - 1))
  }

  lemma Earlier(q: seq<Posting>, m: real, e: Posting, n: nat, i: nat)
    requires FirstFailing(LARGEST, Under(m), q, e, n) && i < n
    ensures Under(m)(WeightOf(q[i]))
  {
    assert q[..n][i] == q[i];
  }

  lemma FirstUnique(q: seq<Posting>, m: real, e: Posting, n: nat, e': Posting, n': nat)
    requires FirstFailing(LARGEST, Under(m), q, e, n) && FirstFailing(LARGEST, Under(m), q, e', n')
    ensures n == n' && e == e'
  {
    if n < n' {
      Earlier(q, m, e', n', n);
    } else if n' < n {
      Earlier(q, m, e, n, n');
    }
  }

  /** One round: the search succeeds exactly when the first largest entry is findable, and then finds that. */
  lemma RoundFindable(t: Postings) returns (n: nat)
    requires t.Node?
    ensures n < |Inorder(t)|
    ensures AugSelect(LARGEST, t, Under(AugVal(LARGEST, t))) == if Findable(t, n) then Some(Inorder(t)[n]) else None
    ensures forall i: nat :: Findable(t, i) ==> i == n
  {
    var m, q := AugVal(LARGEST, t), Inorder(t);
    n := SelectExact(t);
    if AugSelect(LARGEST, t, Under(m)).Some? {
      var k := SelectFirst(t, m);
      FirstUnique(q, m, q[n], n, AugSelect(LARGEST, t, Under(m)).value, k);
    }
    forall i: nat | Findable(t, i) ensures i == n {
      FirstUnique(q, m, q[n], n, q[i], i);
    }
  }

  lemma {:induction false} FindsIsAnswerable(s: Scheme<Posting>, t: Postings, l: nat)
    requires Ordered(Less, t) && l <= |Inorder(t)|
    ensures Finds(s, t, l) <==> Answerable(s, t, l)
    decreases l
  {
    if l > 0 {
      var n := RoundFindable(t);
      DeleteAt(s, t, n);
      FindsIsAnswerable(s, Without(s, t, n), l - 1);
      AnswerableStep(s, t, l, n);
    }
  }

  lemma AnswerableStep(s: Scheme<Posting>, t: Postings, l: nat, n: nat)
    requires l > 0 && n < |Inorder(t)| && forall i: nat :: Findable(t, i) ==> i == n
    ensures Answerable(s, t, l) <==> Findable(t, n) && Answerable(s, Without(s, t, n), l - 1)
  {
  }

  /** `u` is what one round makes of `t`. */
  predicate Next(s: Scheme<Posting>, t: Postings, u: Postings) {
    var r := AugSelect(LARGEST, t, Under(AugVal(LARGEST, t)));
    r.Some? && u == Delete(s, Less, t, r.value.key)
  }

  predicate Stuck(t: Postings) {
    AugSelect(LARGEST, t, Under(AugVal(LARGEST, t))).None?
  }

  ghost predicate Chain(s: Scheme<Posting>, bs: seq<Postings>) {
    forall i :: 0 <= i < |bs| - 1 ==> Next(s, bs[i], bs[i + 1])
  }

  lemma ChainSnoc(s: Scheme<Posting>, bs: seq<Postings>, e: Posting)
    requires bs != [] && Chain(s, bs)
    requires AugSelect(LARGEST, bs[|bs| - 1], Under(AugVal(LARGEST, bs[|bs| - 1]))) == Some(e)
    ensures Chain(s, bs + [Delete(s, Less, bs[|bs| - 1], e.key)])
  {
    var cs := bs + [Delete(s, Less, bs[|bs| - 1], e.key)];
    forall i | 0 <= i < |cs| - 1 ensures Next(s, cs[i], cs[i + 1]) {
      assert i < |bs| - 1 ==> Next(s, bs[i], bs[i + 1]);
    }
  }

  /** What the loop keeps: `vec` has been taken from `q0` and `b` is left. */
  ghost predicate Going(q0: seq<Posting>, vec: seq<Posting>, b: Postings) {
    && Ordered(Less, b) && Taken(q0, vec, Inorder(b))
    && Positives(vec) + Positives(Inorder(b)) == Positives(q0)
    && (Inorder(b) == [] ==> Positives(vec) == |vec|)
  }

  lemma GoOn(s: Scheme<Posting>, q0: seq<Posting>, vec: seq<Posting>, b: Postings, e: Posting)
    requires Going(q0, vec, b) && b.Node? && AugSelect(LARGEST, b, Under(AugVal(LARGEST, b))) == Some(e)
    ensures Going(q0, vec + [e], Delete(s, Less, b, e.key))
  {
    Round(s, b, q0, vec, e);
    if |Inorder(b)| == 1 {
      LastRound(b, q0, vec, e);
    }
  }

  lemma {:induction false} ChainFinds(s: Scheme<Posting>, bs: seq<Postings>, l: nat)
    requires bs != [] && Chain(s, bs) && |bs| <= l + 1 && (|bs| <= l ==> Stuck(bs[|bs| - 1]))
    ensures Finds(s, bs[0], l) <==> |bs| == l + 1
    decreases l
  {
    if |bs| > 1 {
      assert Next(s, bs[0], bs[0 + 1]);
      assert forall i :: 0 <= i < |bs[1..]| ==> bs[1..][i] == bs[i + 1];
      ChainFinds(s, bs[1..], l - 1);
    }
  }

  /** The rounds of the loop; `bs` is what is left before each round. */
  method TakeRounds(s: Scheme<Posting>, a: Postings, l: nat) returns (r: Option<seq<Posting>>, ghost bs: seq<Postings>)
    requires Ordered(Less, a) && l <= |Inorder(a)|
    ensures bs != [] && bs[0] == a && Chain(s, bs) && |bs| <= l + 1
    ensures if r.Some? then |bs| == l + 1 else |bs| <= l && Stuck(bs[|bs| - 1])
    ensures r.Some? ==> Best(Inorder(a), l, r.value)
    ensures Positives(Inorder(a)) >= l ==> r.Some?
    ensures l == |Inorder(a)| && r.Some? ==> Positives(Inorder(a)) == l
  {
    ghost var q0 := Inorder(a);
    var vec: seq<Posting> := [];
    var b := a;
    var i := 0;
    bs := [a];
    while i < l
      invariant 0 <= i <= l && |vec| == i && Going(q0, vec, b)
      invariant |bs| == i + 1 && bs[0] == a && bs[i] == b && Chain(s, bs)
    {
      var m := AugVal(LARGEST, b);
      var e := AugSelect(LARGEST, b, Under(m));
      if Positives(q0) >= l {
        StillPositive(b, q0, vec);
        SelectFinds(b);
      }
      if e.None? {
        return None, bs;
      }
      GoOn(s, q0, vec, b, e.value);
      ChainSnoc(s, bs, e.value);
      vec := vec + [e.value];
      b := Delete(s, Less, b, e.value.key);
      bs := bs + [b];
      i := i + 1;
    }
    TakenIsBest(q0, vec, Inorder(b), l);
    r := Some(vec);
  }

  /** None stands for a negative length or for reading an entry that selection left unset. Whenever there is an
      answer it is the best one. There is one if and only if the first largest entry is findable in every round; that
      is so if enough entries have positive weight, and when all entries are asked for only if all weights are
      positive. */
  method TopK(s: Scheme<Posting>, a: Postings, k: int) returns (r: Option<seq<Posting>>)
    requires Ordered(Less, a)
    ensures k < 0 ==> r.None?
    ensures k >= 0 && r.Some? ==> Best(Inorder(a), k, r.value)
    ensures k >= 0 ==> (r.Some? <==> Answerable(s, a, if k < Size(a) then k else Size(a)))
    ensures k >= 0 && Positives(Inorder(a)) >= (if k < Size(a) then k else Size(a)) ==> r.Some?
    ensures k >= Size(a) ==> (r.Some? <==> Positives(Inorder(a)) == Size(a))
  {
    SizeIsLength(a);
    var l := if k < Size(a) then k else Size(a);
    if l < 0 {
      return None;
    }
    ghost var bs;
    r, bs := TakeRounds(s, a, l);
    ChainFinds(s, bs, l);
    FindsIsAnswerable(s, a, l);
  }
}
