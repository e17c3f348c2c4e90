/** The blocked sweep: all prefixes of a sequence of events are folded into results, a block at a time. */
module Sweeps {

  /** `rep(x, j)` says that `x` is a correct result for the first `j` events. It holds of the initial value, and
      both ways of going on keep it: one event at a time with `f`, and a whole block at a time with `g` and `h`. */
  ghost predicate Sound<T, P, R(!new)>(a: seq<T>, init: R, f: (R, T) -> R, g: seq<T> -> P, h: (R, P) -> R,
                                       rep: (R, nat) -> bool) {
    && rep(init, 0)
    && (forall x, j: nat {:trigger f(x, a[j])} :: j < |a| && rep(x, j) ==> rep(f(x, a[j]), j + 1))
    && (forall x, l: nat, r: nat {:trigger h(x, g(a[l..r]))} :: l <= r <= |a| && rep(x, l) ==> rep(h(x, g(a[l..r])), r))
  }

  /** Where block `i` begins. */
  function Start(i: nat, size: nat): nat {
    i * size
  }

  const SIZE_MAX: nat := 0xFFFF_FFFF_FFFF_FFFF

  /** The block size. With no events n - 1 wraps around, which only a single block survives. */
  function BlockSize(n: nat, blocks: nat): nat
    requires blocks >= 1
  {
    if n == 0 then SIZE_MAX / blocks else (n - 1) / blocks
  }

  /** All blocks begin inside the array, and all but the last end there: the last one takes up the remainder. */
  lemma StartBound(n: nat, blocks: nat, size: nat)
    requires blocks >= 1 && size == BlockSize(n, blocks) && (n >= 1 || blocks == 1)
    ensures forall i: nat :: i < blocks ==> Start(i, size) <= n
    ensures forall i: nat :: i < blocks - 1 ==> Start(i, size) + size <= n
  {
    if n >= 1 {
      assert Start(blocks, size) <= n - 1;
      forall i: nat | i < blocks ensures Start(i, size) + size <= n {
        StartMonotone(i + 1, blocks, size);
      }
    }
  }

  /** The blocks stay inside the array, all but the last, exactly if there is an event or a single block. */
  lemma BlocksInside(n: nat, blocks: nat, size: nat)
    requires 1 <= blocks <= SIZE_MAX && size == BlockSize(n, blocks)
    ensures (forall i: nat :: i < blocks - 1 ==> Start(i, size) + size <= n) <==> n >= 1 || blocks == 1
  {
    if n >= 1 || blocks == 1 {
      StartBound(n, blocks, size);
    } else {
      assert size >= 1;
      assert Start(0, size) + size > n;
    }
  }

  lemma StartMonotone(i: nat, j: nat, size: nat)
    requires i <= j
    ensures Start(i, size) <= Start(j, size)
  {
    assert j * size == i * size + (j - i) * size;
  }

  /** Position `j` holds a correct result. */
  ghost predicate Right<R>(r: array<R>, rep: (R, nat) -> bool, j: nat)
    reads r
  {
    j < r.Length && rep(r[j], j)
  }

  /** With `blocks` equal to 0 there is one block per worker. */
  method Sweep<T, P, R(!new)>(a: seq<T>, init: R, f: (R, T) -> R, g: seq<T> -> P, h: (R, P) -> R, blocks: nat,
                              workers: nat, ghost rep: (R, nat) -> bool) returns (r: array<R>)
    requires workers >= 1 && (|a| >= 1 || blocks == 1 || (blocks == 0 && workers == 1)) && Sound(a, init, f, g, h, rep)
    ensures fresh(r) && r.Length == |a| + 1
    ensures forall j: nat :: j <= |a| ==> rep(r[j], j)
  {
    var n := |a|;
    var nb := if blocks == 0 then workers else blocks;
    var size := BlockSize(n, nb);
    r := new R[n + 1](_ => init);
    var sums := Partial(a, g, nb, size);
    Boundaries(a, init, f, g, h, nb, size, sums, r, rep);
    FillBlocks(a, init, f, g, h, nb, size, r, rep);
    forall j: nat | j <= n ensures rep(r[j], j) {
      assert Right(r, rep, j);
    }
  }

  /** The partial results of all blocks but the last. */
  method Partial<T, P>(a: seq<T>, g: seq<T> -> P, nb: nat, size: nat) returns (sums: seq<P>)
    requires nb >= 1 && size == BlockSize(|a|, nb) && (|a| >= 1 || nb == 1)
    ensures |sums| == nb - 1
    ensures forall t: nat :: t < nb - 1 ==>
            Start(t, size) + size <= |a| && sums[t] == g(a[Start(t, size)..Start(t, size) + size])
  {
    StartBound(|a|, nb, size);
    sums := [];
    var i := 0;
    while i < nb - 1
      invariant 0 <= i <= nb - 1 && |sums| == i
      invariant forall t: nat :: t < i ==>
          Start(t, size) + size <= |a| && sums[t] == g(a[Start(t, size)..Start(t, size) + size])
    {
      sums := sums + [g(a[Start(i, size)..Start(i, size) + size])];
      i := i + 1;
    }
  }

  /** The sequential pass over the first position of every block. */
  method Boundaries<T, P, R(!new)>(a: seq<T>, init: R, f: (R, T) -> R, g: seq<T> -> P, h: (R, P) -> R, nb: nat,
                                   size: nat, sums: seq<P>, r: array<R>, ghost rep: (R, nat) -> bool)
    requires nb >= 1 && size == BlockSize(|a|, nb) && (|a| >= 1 || nb == 1) && Sound(a, init, f, g, h, rep)
    requires r.Length == |a| + 1 && |sums| == nb - 1
    requires forall t: nat :: t < nb - 1 ==>
             Start(t, size) + size <= |a| && sums[t] == g(a[Start(t, size)..Start(t, size) + size])
    modifies r
    ensures forall t: nat :: t < nb ==> Right(r, rep, Start(t, size))
  {
    StartBound(|a|, nb, size);
    r[0] := init;
    var i: nat := 1;
    while i < nb
      invariant 1 <= i <= nb
      invariant forall t: nat :: t < i ==> Right(r, rep, Start(t, size))
    {
      assert Right(r, rep, Start(i - 1, size));
      r[Start(i, size)] := h(r[Start(i - 1, size)], sums[i - 1]);
      i := i + 1;
    }
  }

  /** The results of the block from `l` to `end`, from the one at its beginning. Nothing that is right is spoiled. */
  method FillBlock<T, P, R(!new)>(a: seq<T>, init: R, f: (R, T) -> R, g: seq<T> -> P, h: (R, P) -> R, l: nat, end: nat,
                                  r: array<R>, ghost rep: (R, nat) -> bool)
    requires Sound(a, init, f, g, h, rep) && end <= |a| + 1 == r.Length && Right(r, rep, l)
    modifies r
    ensures forall j: nat :: old(Right(r, rep, j)) ==> Right(r, rep, j)
    ensures forall j: nat :: l <= j < end ==> Right(r, rep, j)
  {
    var j := l + 1;
    while j < end
      invariant l < j
      invariant forall x: nat :: old(Right(r, rep, x)) ==> Right(r, rep, x)
      invariant forall x: nat :: l <= x < j && x < r.Length && (x == l || x < end) ==> rep(r[x], x)
    {
      r[j] := f(r[j - 1], a[j - 1]);
      j := j + 1;
    }
  }

  /** All blocks, each from its beginning; the last one takes up the remainder. */
  method FillBlocks<T, P, R(!new)>(a: seq<T>, init: R, f: (R, T) -> R, g: seq<T> -> P, h: (R, P) -> R, nb: nat,
                                   size: nat, r: array<R>, ghost rep: (R, nat) -> bool)
    requires nb >= 1 && size == BlockSize(|a|, nb) && (|a| >= 1 || nb == 1) && Sound(a, init, f, g, h, rep)
    requires r.Length == |a| + 1 && forall t: nat :: t < nb ==> Right(r, rep, Start(t, size))
    modifies r
    ensures forall j: nat :: j <= |a| ==> Right(r, rep, j)
  {
    var i: nat := 0;
    ghost var done: nat := 0;
    while i < nb
      invariant i <= nb && done == if i == nb then |a| + 1 else Start(i, size)
      invariant forall j: nat :: j < done ==> Right(r, rep, j)
      invariant forall t: nat :: t < nb ==> Right(r, rep, Start(t, size))
    {
      assert Right(r, rep, Start(i, size)) && Start(i, size) + size == Start(i + 1, size);
      var l := Start(i, size);
      var end := if i == nb - 1 then |a| + 1 else l + size;
      assert end <= |a| + 1 by { StartBound(|a|, nb, size); }
      FillBlock(a, init, f, g, h, l, end, r, rep);
      i, done := i + 1, end;
    }
  }

  // -------------------- folds --------------------

  function Foldl<T, R>(f: (R, T) -> R, x: R, s: seq<T>): R {
    if s == [] then x else f(Foldl(f, x, s[..|s| - 1]), s[|s| - 1])
  }

  lemma {:induction false} FoldlConcat<T, R>(f: (R, T) -> R, x: R, s: seq<T>, t: seq<T>)
    ensures Foldl(f, x, s + t) == Foldl(f, Foldl(f, x, s), t)
  {
    if t == [] {
      assert s + t == s;
    } else {
      assert (s + t)[..|s + t| - 1] == s + t[..|t| - 1];
      FoldlConcat(f, x, s, t[..|t| - 1]);
    }
  }

  /** If folding a block with `g` and `h` is folding its events with `f`, the sweep computes the fold of every prefix.
      */
  method SweepFold<T, P, R(!new)>(a: seq<T>, init: R, f: (R, T) -> R, g: seq<T> -> P, h: (R, P) -> R, blocks: nat,
                                  workers: nat) returns (r: array<R>)
    requires workers >= 1 && (|a| >= 1 || blocks == 1 || (blocks == 0 && workers == 1))
    requires forall x, l, u :: 0 <= l <= u <= |a| ==> h(x, g(a[l..u])) == Foldl(f, x, a[l..u])
    ensures r.Length == |a| + 1 && forall j: nat :: j <= |a| ==> r[j] == Foldl(f, init, a[..j])
  {
    ghost var rep := (x: R, j: nat) => j <= |a| && x == Foldl(f, init, a[..j]);
    forall x, j: nat | j < |a| && rep(x, j) ensures rep(f(x, a[j]), j + 1) {
      assert a[..j + 1][..j] == a[..j];
    }
    forall x, l: nat, u: nat | l <= u <= |a| && rep(x, l) ensures rep(h(x, g(a[l..u])), u) {
      FoldlConcat(f, init, a[..l], a[l..u]);
      assert a[..l] + a[l..u] == a[..u];
    }
    r := Sweep(a, init, f, g, h, blocks, workers, rep);
  }
}
