/** The mutable node store: allocation, reference counts, copy-on-write, rotations and join.
    Fields of a cell are assigned only while the cell is loose, that is, held by one local variable. */
module Stores {
  import opened Trees
  import opened Heap

  /** The outcome of an operation that gives up what it was handed and returns the reference `t`:
      the heap is valid again, `t` leads to `tree`, and everything else that is held is untouched. */
  ghost predicate Yields<E, A>(g: Augment<E, A>, s0: Sys<E, A>, s1: Sys<E, A>,
                               frame: multiset<Ref>, lf: set<Ref>, t: Ref, tree: Tree<E>) {
    && Valid(g, s1) && s1.owned == frame + Tok(t) && Loose(s1) == lf
    && Kept(s0, s1, frame, lf)
    && Points(s1.view, t) && TreeAt(s1.view, t) == tree
  }

  /** `t` is held once and from nowhere else, so it may be written. */
  ghost predicate Unique<E, A>(s: Sys<E, A>, t: Ref) {
    t in s.view && t in s.mem && s.mem[t].cnt == 1
  }

  /** `p` is a loose cell whose two children are held. */
  ghost predicate Open<E, A>(g: Augment<E, A>, s: Sys<E, A>, p: Ref, frame: multiset<Ref>, lf: set<Ref>) {
    && Valid(g, s) && p in s.mem && p !in lf && Loose(s) == lf + {p}
    && s.owned == frame + Tok(s.mem[p].lc) + Tok(s.mem[p].rc)
  }

  /** The tree that a loose cell heads once it is updated. */
  function Pending<E, A>(s: Sys<E, A>, p: Ref): Tree<E>
    requires p in s.mem
  {
    Node(TreeAt(s.view, s.mem[p].lc), s.mem[p].entry, TreeAt(s.view, s.mem[p].rc))
  }

  // -------------------- outcomes on values --------------------

  lemma {:induction false} Bound(s: set<Ref>) returns (b: Ref)
    ensures b != 0 && forall p :: p in s ==> p < b
  {
    if s == {} {
      b := 1;
    } else {
      var x :| x in s;
      var b' := Bound(s - {x});
      b := if x < b' then b' else x + 1;
      assert forall p :: p in s ==> p == x || p in s - {x};
    }
  }

  lemma ExistsFresh(s: set<Ref>)
    ensures exists p: Ref :: p != 0 && p !in s
  {
    var b := Bound(s);
    assert b !in s;
  }

  /** The cached fields of a child are those of its tree. */
  lemma ChildCache<E, A>(g: Augment<E, A>, s: Sys<E, A>, t: Ref)
    requires Valid(g, s) && Points(s.view, t)
    ensures t != 0 ==> t in s.mem && Cached(g, s.mem[t], TreeAt(s.view, t)) && TreeAt(s.view, t).Node?
    ensures t != 0 ==> TreeAt(s.view, t) == Pending(s, t)
    ensures t == 0 ==> t !in s.mem && TreeAt(s.view, t) == Leaf
  {
    if t != 0 {
      assert LinkedAt(g, s, t);
    }
  }

  lemma WrittenKept<E, A>(g: Augment<E, A>, s0: Sys<E, A>, s1: Sys<E, A>, frame: multiset<Ref>, lf: set<Ref>)
    requires Valid(g, s0) && frame <= s0.owned && s1.view == s0.view
    requires forall q :: q in lf ==> q in s0.mem && q in s1.mem && s1.mem[q] == s0.mem[q]
    ensures Kept(s0, s1, frame, lf)
  {
  }

  lemma SetOpens<E, A>(g: Augment<E, A>, s0: Sys<E, A>, s1: Sys<E, A>, p: Ref, l: Ref, r: Ref,
                       frame: multiset<Ref>, lf: set<Ref>)
    requires Valid(g, s0) && p in s0.mem && p !in lf && Loose(s0) == lf + {p} && Valid(g, s1)
    requires s1 == s0.(mem := s0.mem[p := s0.mem[p].(lc := l, rc := r)])
    requires s0.owned == frame + Tok(l) + Tok(r)
    ensures Open(g, s1, p, frame, lf) && Kept(s0, s1, frame, lf)
    ensures Pending(s1, p) == Node(TreeAt(s0.view, l), s0.mem[p].entry, TreeAt(s0.view, r))
  {
    assert forall q :: q in lf ==> q in Loose(s0);
    WrittenKept(g, s0, s1, frame, lf);
    assert Loose(s1) == Loose(s0);
  }

  lemma YieldsAfter<E, A>(g: Augment<E, A>, s0: Sys<E, A>, s1: Sys<E, A>, s2: Sys<E, A>,
                          frame: multiset<Ref>, lf: set<Ref>, t: Ref, tree: Tree<E>)
    requires Kept(s0, s1, frame, lf) && Yields(g, s1, s2, frame, lf, t, tree)
    ensures Yields(g, s0, s2, frame, lf, t, tree)
  {
  }

  lemma KeptTrans<E, A>(s0: Sys<E, A>, s1: Sys<E, A>, s2: Sys<E, A>,
                        big: multiset<Ref>, bigl: set<Ref>, frame: multiset<Ref>, lf: set<Ref>)
    requires Kept(s0, s1, big, bigl) && Kept(s1, s2, frame, lf) && frame <= big && lf <= bigl
    ensures Kept(s0, s2, frame, lf)
  {
  }

  lemma AttachYields<E, A>(g: Augment<E, A>, s0: Sys<E, A>, s: Sys<E, A>, p: Ref, frame: multiset<Ref>, lf: set<Ref>)
    requires Open(g, s, p, frame, lf) && p in s0.mem && Loose(s0) == lf + {p}
    requires s == s0.(mem := s0.mem[p := s.mem[p]])
    requires Cached(g, s.mem[p], Pending(s, p))
    ensures Yields(g, s0, Attached(s, p, frame), frame, lf, p, Pending(s, p))
    ensures Unique(Attached(s, p, frame), p)
  {
    assert p in Loose(s);
    FrameHeld(g, s, frame);
    assert CountAt(s, p);
    AttachValid(g, s, p, frame);
    var s' := Attached(s, p, frame);
    assert Kept(s0, s', frame, lf) by {
      assert forall q :: q in lf ==> q in Loose(s0);
    }
  }

  class Store<E, A> {
    const scheme: Scheme<E>
    const g: Augment<E, A>
    var mem: map<Ref, Cell<E, A>>
    ghost var view: map<Ref, Spine<E>>
    ghost var owned: multiset<Ref>

    ghost function S(): Sys<E, A>
      reads this
    {
      Sys(mem, view, owned)
    }

    constructor (scheme: Scheme<E>, g: Augment<E, A>)
      ensures this.scheme == scheme && this.g == g
      ensures mem == map[] && owned == multiset{} && Valid(g, S())
    {
      this.scheme := scheme;
      this.g := g;
      mem, view, owned := map[], map[], multiset{};
    }

    // -------------------- cells --------------------

    method MakeNode(e: E) returns (p: Ref)
      requires Valid(g, S())
      modifies this`mem
      ensures Valid(g, S())
      ensures p != 0 && p !in old(mem) && Loose(S()) == old(Loose(S())) + {p}
      ensures p in mem && mem == old(mem)[p := mem[p]] && mem[p].entry == e && mem[p].cnt == 1
      ensures mem[p].lc == mem[p].rc == 0
    {
      ExistsFresh(mem.Keys);
      p :| p != 0 && p !in mem;
      var c := Cell(0, 0, e, 0, 0, g.empty, 1);
      AllocValid(g, S(), p, c);
      mem := mem[p := c];
    }

    /** Assignment to the fields of a loose cell. */
    method Write(p: Ref, c: Cell<E, A>)
      requires Valid(g, S()) && p in Loose(S()) && c.cnt == mem[p].cnt
      modifies this`mem
      ensures Valid(g, S()) && mem == old(mem)[p := c] && Loose(S()) == old(Loose(S()))
    {
      WriteValid(g, S(), p, c);
      mem := mem[p := c];
    }

    /** Assignment to both child fields of a loose cell, in exchange for what is held of the children. */
    method SetChildren(p: Ref, l: Ref, r: Ref, ghost frame: multiset<Ref>, ghost lf: set<Ref>)
      requires Valid(g, S()) && p in mem && p !in lf && Loose(S()) == lf + {p}
      requires owned == frame + Tok(l) + Tok(r)
      modifies this`mem
      ensures Open(g, S(), p, frame, lf) && Kept(old(S()), S(), frame, lf)
      ensures mem == old(mem)[p := old(mem[p]).(lc := l, rc := r)]
      ensures Pending(S(), p) == Node(old(TreeAt(view, l)), old(mem[p].entry), old(TreeAt(view, r)))
    {
      ghost var s0 := S();
      assert p in Loose(s0);
      Write(p, mem[p].(lc := l, rc := r));
      SetOpens(g, s0, S(), p, l, r, frame, lf);
    }

    function SizeOf(t: Ref): nat
      reads this
    {
      if t in mem then mem[t].size else 0
    }

    function HeightOf(t: Ref): nat
      reads this
    {
      if t in mem then mem[t].height else 0
    }

    /** Recomputes the cached fields of a cell from its children; the cell becomes part of a tree. */
    method Update(p: Ref, ghost frame: multiset<Ref>, ghost lf: set<Ref>)
      requires Open(g, S(), p, frame, lf)
      modifies this
      ensures Yields(g, old(S()), S(), frame, lf, p, old(Pending(S(), p)))
      ensures Unique(S(), p)
    {
      ghost var s0 := S();
      assert p in Loose(s0);
      Recompute(p);
      AttachYields(g, s0, S(), p, frame, lf);
      view, owned := Attached(S(), p, frame).view, frame + Tok(p);
    }

    method Recompute(p: Ref)
      requires Valid(g, S()) && p in Loose(S())
      requires Tok(mem[p].lc) <= owned && Tok(mem[p].rc) <= owned
      modifies this`mem
      ensures Valid(g, S()) && Loose(S()) == old(Loose(S()))
      ensures p in mem && mem == old(mem)[p := mem[p]] && mem[p].cnt == old(mem[p].cnt)
      ensures mem[p].lc == old(mem[p].lc) && mem[p].rc == old(mem[p].rc) && mem[p].entry == old(mem[p].entry)
      ensures Cached(g, mem[p], Pending(S(), p))
    {
      var c := mem[p];
      OwnedPoints(g, S(), c.lc);
      OwnedPoints(g, S(), c.rc);
      ChildCache(g, S(), c.lc);
      ChildCache(g, S(), c.rc);
      var av := g.fromEntry(c.entry);
      if c.lc != 0 { av := g.combine(mem[c.lc].aug, av); }
      if c.rc != 0 { av := g.combine(av, mem[c.rc].aug); }
      Write(p, c.(size := SizeOf(c.lc) + SizeOf(c.rc) + 1,
                  height := Max(HeightOf(c.lc), HeightOf(c.rc)) + 1,
                  aug := av));
    }

    // -------------------- reference counts --------------------

    /** Takes a uniquely held cell out of its tree, so that its children are held instead. */
    ghost method Unlink(t: Ref, frame: multiset<Ref>, lf: set<Ref>)
      requires Valid(g, S()) && t in view && mem[t].cnt <= 1 && owned == frame + Tok(t) && Loose(S()) == lf
      modifies this`view, this`owned
      ensures Open(g, S(), t, frame, lf) && Kept(old(S()), S(), frame, lf)
      ensures Pending(S(), t) == old(TreeAt(view, t)) && view == old(view) - {t}
    {
      FrameHeld(g, S(), frame);
      assert CountAt(S(), t) && LinkedAt(g, S(), t);
      UniqueHasNoParent(g, S(), t, t);
      DetachValid(g, S(), t, frame);
      view, owned := view - {t}, frame + Tok(mem[t].lc) + Tok(mem[t].rc);
    }

    method Increment(t: Ref)
      requires Valid(g, S()) && Points(view, t)
      modifies this`mem, this`owned
      ensures Valid(g, S()) && owned == old(owned) + Tok(t) && Loose(S()) == old(Loose(S()))
      ensures t == 0 ==> mem == old(mem)
      ensures t != 0 ==> t in old(mem) && mem == old(mem)[t := old(mem[t]).(cnt := old(mem[t].cnt) + 1)]
    {
      if t != 0 {
        CountValid(g, S(), t, mem[t].cnt + 1, owned + Tok(t));
        mem := mem[t := mem[t].(cnt := mem[t].cnt + 1)];
        owned := owned + Tok(t);
      }
    }

    /** Gives up one reference. When it was the last one the cell is freed and its children are held instead. */
    method Decrement(t: Ref, ghost frame: multiset<Ref>) returns (freed: bool)
      requires Valid(g, S()) && t != 0 && owned == frame + Tok(t)
      modifies this
      ensures Valid(g, S()) && Loose(S()) == old(Loose(S()))
      ensures t in old(view) && t in old(mem) && freed == (old(mem[t].cnt) == 1)
      ensures Kept(old(S()), S(), frame, old(Loose(S()))) && mem.Keys <= old(mem).Keys
      ensures !freed ==> owned == frame && t in mem && mem[t].entry == old(mem[t].entry)
      ensures freed ==> owned == frame + Tok(old(mem[t].lc)) + Tok(old(mem[t].rc))
      ensures freed ==>
              var l, r := old(mem[t].lc), old(mem[t].rc);
              old(TreeAt(view, t)) == Node(TreeAt(view, l), old(mem[t].entry), TreeAt(view, r))
    {
      OwnedPoints(g, S(), t);
      freed := mem[t].cnt == 1;
      if freed {
        Unlink(t, frame, Loose(S()));
        FreeNode(t);
      } else {
        DropShared(t, frame);
      }
    }

    method DropShared(t: Ref, ghost frame: multiset<Ref>)
      requires Valid(g, S()) && t in view && mem[t].cnt != 1 && owned == frame + Tok(t)
      modifies this`mem, this`owned
      ensures Valid(g, S()) && owned == frame && Loose(S()) == old(Loose(S()))
      ensures Kept(old(S()), S(), frame, old(Loose(S()))) && mem.Keys == old(mem).Keys
      ensures mem[t].entry == old(mem[t].entry)
    {
      FrameHeld(g, S(), frame);
      assert CountAt(S(), t);
      CountValid(g, S(), t, mem[t].cnt - 1, frame);
      mem := mem[t := mem[t].(cnt := mem[t].cnt - 1)];
      owned := frame;
    }

    /** Frees a loose cell. */
    method FreeNode(p: Ref)
      requires Valid(g, S()) && p in Loose(S())
      modifies this`mem
      ensures Valid(g, S()) && mem == old(mem) - {p} && Loose(S()) == old(Loose(S())) - {p}
    {
      FreeValid(g, S(), p);
      mem := mem - {p};
    }

    /** Gives up one reference and frees every cell that nothing holds any more. */
    method DecrementRecursive(t: Ref, ghost frame: multiset<Ref>)
      requires Valid(g, S()) && owned == frame + Tok(t)
      modifies this
      ensures Valid(g, S()) && owned == frame && Loose(S()) == old(Loose(S()))
      ensures Kept(old(S()), S(), frame, old(Loose(S())))
      ensures mem.Keys <= old(mem).Keys
      ensures t in old(mem) && old(mem[t].cnt) > 1 ==> t in mem && mem[t].entry == old(mem[t].entry)
      decreases TreeAt(view, t)
    {
      if t == 0 { return; }
      OwnedPoints(g, S(), t);
      var lsub, rsub := mem[t].lc, mem[t].rc;
      var freed := Decrement(t, frame);
      if freed {
        ghost var s1 := S();
        DecrementRecursive(lsub, frame + Tok(rsub));
        TreeKept(g, s1, S(), frame + Tok(rsub), Loose(s1), rsub);
        DecrementRecursive(rsub, frame);
      }
    }

    // -------------------- copy on write --------------------

    /** A fresh cell with the entry and children of `t`, which are now held once more. Not updated. */
    method Copy(t: Ref, ghost lf: set<Ref>) returns (o: Ref)
      requires Valid(g, S()) && t in view && Loose(S()) == lf
      modifies this`mem, this`owned
      ensures Open(g, S(), o, old(owned), lf) && Kept(old(S()), S(), old(owned), lf)
      ensures Pending(S(), o) == old(TreeAt(view, t))
    {
      FrameHeld(g, S(), owned);
      assert LinkedAt(g, S(), t);
      var c := mem[t];
      o := MakeNode(c.entry);
      IncrementBoth(c.lc, c.rc);
      Write(o, mem[o].(lc := c.lc, rc := c.rc));
    }

    method IncrementBoth(l: Ref, r: Ref)
      requires Valid(g, S()) && Points(view, l) && Points(view, r)
      modifies this`mem, this`owned
      ensures Valid(g, S()) && owned == old(owned) + Tok(l) + Tok(r) && Loose(S()) == old(Loose(S()))
      ensures forall q :: q in old(Loose(S())) ==> q in mem && mem[q] == old(mem)[q]
    {
      Increment(l);
      Increment(r);
    }

    /** A cell with the entry and children of `t` that may be written: `t` itself if it is held only here,
        otherwise a copy. Its children are held on return. */
    method CopyIfNeeded(t: Ref, ghost frame: multiset<Ref>, ghost lf: set<Ref>) returns (o: Ref)
      requires Valid(g, S()) && t != 0 && owned == frame + Tok(t) && Loose(S()) == lf
      modifies this
      ensures Open(g, S(), o, frame, lf) && Kept(old(S()), S(), frame, lf)
      ensures Pending(S(), o) == old(TreeAt(view, t))
    {
      OwnedPoints(g, S(), t);
      if mem[t].cnt > 1 {
        ghost var s0 := S();
        o := Copy(t, lf);
        ghost var s1 := S();
        DecrementRecursive(t, frame + Tok(mem[o].lc) + Tok(mem[o].rc));
      } else {
        Unlink(t, frame, lf);
        o := t;
      }
    }

    // -------------------- rotations --------------------

    /** `k` becomes the root over `l` and `r`; no rotation. */
    method BalancedJoin(l: Ref, r: Ref, k: Ref, ghost frame: multiset<Ref>, ghost lf: set<Ref>)
      requires Valid(g, S()) && owned == frame + Tok(l) + Tok(r)
      requires k in mem && k !in lf && Loose(S()) == lf + {k}
      modifies this
      ensures Yields(g, old(S()), S(), frame, lf, k,
              Node(old(TreeAt(view, l)), old(mem[k].entry), old(TreeAt(view, r))))
      ensures Unique(S(), k)
    {
      ghost var s0 := S();
      SetChildren(k, l, r, frame, lf);
      ghost var s1 := S();
      Update(k, frame, lf);
      YieldsAfter(g, s0, s1, S(), frame, lf, k, Pending(s1, k));
    }

    /** Updates `t` and then its parent `root`; `x` is the other child of `root`. */
    method UpdateBoth(t: Ref, root: Ref, ghost x: Ref, ghost frame: multiset<Ref>, ghost lf: set<Ref>)
      requires Valid(g, S()) && t in mem && root in mem && t !in lf && root !in lf && t != root
      requires Loose(S()) == lf + {root} + {t}
      requires (mem[root].lc == t && mem[root].rc == x) || (mem[root].lc == x && mem[root].rc == t)
      requires owned == frame + Tok(x) + Tok(mem[t].lc) + Tok(mem[t].rc)
      modifies this
      ensures Yields(g, old(S()), S(), frame, lf, root, old(Stacked(S(), t, root)))
      ensures Unique(S(), root)
    {
      ghost var s0 := S();
      Update(t, frame + Tok(x), lf + {root});
      ghost var s1 := S();
      assert mem[root] == s0.mem[root];
      assert owned == frame + Tok(mem[root].lc) + Tok(mem[root].rc);
      Update(root, frame, lf);
      UpdateBothYields(g, s0, s1, S(), t, root, x, frame, lf);
    }

    /** Requires `t` and its right child to be loose. */
    method RotateLeft(t: Ref, ghost frame: multiset<Ref>, ghost lf: set<Ref>) returns (root: Ref)
      requires t in mem && Nested(g, S(), t, mem[t].rc, mem[t].lc, frame, lf)
      modifies this
      ensures Yields(g, old(S()), S(), frame, lf, root,
              old(Trees.RotateLeft(Node(TreeAt(view, mem[t].lc), mem[t].entry, Pending(S(), mem[t].rc)))))
      ensures Unique(S(), root)
    {
      ghost var s0 := S();
      root := mem[t].rc;
      Relink(root, mem[root].(lc := t), t, mem[t].(rc := mem[root].lc), frame, lf);
      ghost var s1 := S();
      RelinkedLeft(g, s0, s1, t, frame, lf);
      UpdateBoth(t, root, mem[root].rc, frame, lf);
      YieldsAfter(g, s0, s1, S(), frame, lf, root, Stacked(s1, t, root));
    }

    /** Requires `t` and its left child to be loose. */
    method RotateRight(t: Ref, ghost frame: multiset<Ref>, ghost lf: set<Ref>) returns (root: Ref)
      requires t in mem && Nested(g, S(), t, mem[t].lc, mem[t].rc, frame, lf)
      modifies this
      ensures Yields(g, old(S()), S(), frame, lf, root,
              old(Trees.RotateRight(Node(Pending(S(), mem[t].lc), mem[t].entry, TreeAt(view, mem[t].rc)))))
      ensures Unique(S(), root)
    {
      ghost var s0 := S();
      root := mem[t].lc;
      Relink(root, mem[root].(rc := t), t, mem[t].(lc := mem[root].rc), frame, lf);
      ghost var s1 := S();
      RelinkedRight(g, s0, s1, t, frame, lf);
      UpdateBoth(t, root, mem[root].lc, frame, lf);
      YieldsAfter(g, s0, s1, S(), frame, lf, root, Stacked(s1, t, root));
    }

    /** Assignment to the fields of two loose cells. */
    method Relink(a: Ref, ca: Cell<E, A>, b: Ref, cb: Cell<E, A>, ghost frame: multiset<Ref>, ghost lf: set<Ref>)
      requires Valid(g, S()) && a in mem && b in mem && a != b && a !in lf && b !in lf && Loose(S()) == lf + {a} + {b}
      requires ca.cnt == mem[a].cnt && cb.cnt == mem[b].cnt && frame <= owned
      modifies this`mem
      ensures Valid(g, S()) && Loose(S()) == old(Loose(S())) && mem == old(mem)[a := ca][b := cb]
      ensures Kept(old(S()), S(), frame, lf)
    {
      ghost var s0 := S();
      assert a in Loose(s0) && b in Loose(s0);
      Write(a, ca);
      Write(b, cb);
      assert forall q :: q in lf ==> q in Loose(s0);
      WrittenKept(g, s0, S(), frame, lf);
    }

    /** First half of a double rotation: the left child of the loose cell `r` is made writable and lifted above `r`. */
    method RaiseLeft(r: Ref, ghost frame: multiset<Ref>, ghost lf: set<Ref>) returns (root: Ref)
      requires Open(g, S(), r, frame, lf) && mem[r].lc != 0
      modifies this
      ensures Open(g, S(), root, frame, lf) && Kept(old(S()), S(), frame, lf)
      ensures old(Pending(S(), r)).lc.Node? && Pending(S(), root) == Trees.RotateRight(old(Pending(S(), r)))
    {
      ghost var s0 := S();
      var x := mem[r].rc;
      root := CopyIfNeeded(mem[r].lc, frame + Tok(x), lf + {r});
      ghost var s1 := S();
      assert mem[r] == s0.mem[r];
      TreeKept(g, s0, s1, frame + Tok(x), lf + {r}, x);
      var y := mem[root].lc;
      SetChildren(r, mem[root].rc, x, frame + Tok(y), lf + {root});
      ghost var s2 := S();
      Update(r, frame + Tok(y), lf + {root});
      RaisedKept(g, s0, s1, s2, S(), r, root, x, y, Pending(s2, r), frame, lf);
      SetRaised(root, y, r, s0, frame, lf);
    }

    /** Mirror image of RaiseLeft. */
    method RaiseRight(l: Ref, ghost frame: multiset<Ref>, ghost lf: set<Ref>) returns (root: Ref)
      requires Open(g, S(), l, frame, lf) && mem[l].rc != 0
      modifies this
      ensures Open(g, S(), root, frame, lf) && Kept(old(S()), S(), frame, lf)
      ensures old(Pending(S(), l)).rc.Node? && Pending(S(), root) == Trees.RotateLeft(old(Pending(S(), l)))
    {
      ghost var s0 := S();
      var x := mem[l].lc;
      root := CopyIfNeeded(mem[l].rc, frame + Tok(x), lf + {l});
      ghost var s1 := S();
      assert mem[l] == s0.mem[l];
      TreeKept(g, s0, s1, frame + Tok(x), lf + {l}, x);
      var y := mem[root].rc;
      SetChildren(l, x, mem[root].lc, frame + Tok(y), lf + {root});
      ghost var s2 := S();
      Update(l, frame + Tok(y), lf + {root});
      RaisedKept(g, s0, s1, s2, S(), l, root, x, y, Pending(s2, l), frame, lf);
      SetRaised(root, l, y, s0, frame, lf);
    }

    method SetRaised(root: Ref, l: Ref, r: Ref, ghost s0: Sys<E, A>, ghost frame: multiset<Ref>, ghost lf: set<Ref>)
      requires Valid(g, S()) && root in mem && root !in lf && Loose(S()) == lf + {root}
      requires owned == frame + Tok(l) + Tok(r) && Kept(s0, S(), frame, lf)
      modifies this`mem
      ensures Open(g, S(), root, frame, lf) && Kept(s0, S(), frame, lf)
      ensures Pending(S(), root) == Node(old(TreeAt(view, l)), old(mem[root].entry), old(TreeAt(view, r)))
    {
      ghost var s1 := S();
      SetChildren(root, l, r, frame, lf);
      KeptTrans(s0, s1, S(), frame, lf, frame, lf);
    }

    method DoubleRotateLeft(t: Ref, ghost frame: multiset<Ref>, ghost lf: set<Ref>) returns (root: Ref)
      requires t in mem && Nested(g, S(), t, mem[t].rc, mem[t].lc, frame, lf) && mem[mem[t].rc].lc != 0
      modifies this
      ensures old(Pending(S(), mem[t].rc)).lc.Node?
      ensures Yields(g, old(S()), S(), frame, lf, root,
                     old(Trees.DoubleRotateLeft(Node(TreeAt(view, mem[t].lc), mem[t].entry, Pending(S(), mem[t].rc)))))
      ensures Unique(S(), root)
    {
      ghost var s0 := S();
      var l := mem[t].lc;
      var c := RaiseLeft(mem[t].rc, frame + Tok(l), lf + {t});
      ghost var s1 := S();
      Write(t, mem[t].(rc := c));
      ghost var s2 := S();
      NestedAfter(g, s0, s1, s2, t, c, l, frame, lf);
      root := RotateLeft(t, frame, lf);
      YieldsAfter(g, s0, s2, S(), frame, lf, root,
          Trees.RotateLeft(Node(TreeAt(s2.view, l), s2.mem[t].entry, Pending(s2, c))));
    }

    method DoubleRotateRight(t: Ref, ghost frame: multiset<Ref>, ghost lf: set<Ref>) returns (root: Ref)
      requires t in mem && Nested(g, S(), t, mem[t].lc, mem[t].rc, frame, lf) && mem[mem[t].lc].rc != 0
      modifies this
      ensures old(Pending(S(), mem[t].lc)).rc.Node?
      ensures Yields(g, old(S()), S(), frame, lf, root,
                     old(Trees.DoubleRotateRight(Node(Pending(S(), mem[t].lc), mem[t].entry, TreeAt(view, mem[t].rc)))))
      ensures Unique(S(), root)
    {
      ghost var s0 := S();
      var r := mem[t].rc;
      var c := RaiseRight(mem[t].lc, frame + Tok(r), lf + {t});
      ghost var s1 := S();
      Write(t, mem[t].(lc := c));
      ghost var s2 := S();
      NestedAfter(g, s0, s1, s2, t, c, r, frame, lf);
      root := RotateRight(t, frame, lf);
      YieldsAfter(g, s0, s2, S(), frame, lf, root,
          Trees.RotateRight(Node(Pending(s2, c), s2.mem[t].entry, TreeAt(s2.view, r))));
    }
  }

  lemma NestedAfter<E, A>(g: Augment<E, A>, s0: Sys<E, A>, s1: Sys<E, A>, s2: Sys<E, A>,
                          t: Ref, c: Ref, o: Ref, frame: multiset<Ref>, lf: set<Ref>)
    requires Open(g, s1, c, frame + Tok(o), lf + {t}) && Kept(s0, s1, frame, lf) && t in s1.mem && t !in lf
    requires Valid(g, s2) && t in s2.mem && s2 == s1.(mem := s1.mem[t := s2.mem[t]])
    ensures Nested(g, s2, t, c, o, frame, lf) && Kept(s0, s2, frame, lf) && Pending(s2, c) == Pending(s1, c)
  {
  }

  lemma RaisedKept<E, A>(g: Augment<E, A>, s0: Sys<E, A>, s1: Sys<E, A>, s2: Sys<E, A>, s3: Sys<E, A>,
                         r: Ref, root: Ref, x: Ref, y: Ref, tree: Tree<E>, frame: multiset<Ref>, lf: set<Ref>)
    requires Open(g, s1, root, frame + Tok(x), lf + {r}) && Kept(s0, s1, frame + Tok(x), lf + {r})
    requires Kept(s1, s2, frame + Tok(y), lf + {root})
    requires Yields(g, s2, s3, frame + Tok(y), lf + {root}, r, tree)
    requires Valid(g, s2)
    ensures Kept(s0, s3, frame, lf) && root in s3.mem && s3.mem[root] == s1.mem[root]
    ensures TreeAt(s3.view, y) == TreeAt(s1.view, y)
  {
  }

  /** Two loose cells, `c` a child of `t`; `o` is the other child of `t`. */
  ghost predicate Nested<E, A>(g: Augment<E, A>, s: Sys<E, A>, t: Ref, c: Ref, o: Ref, frame: multiset<Ref>,
                               lf: set<Ref>) {
    && Valid(g, s) && t in s.mem && c in s.mem && t != c && t !in lf && c !in lf && Loose(s) == lf + {c} + {t}
    && s.owned == frame + Tok(o) + Tok(s.mem[c].lc) + Tok(s.mem[c].rc)
  }

  /** The tree that `root` heads once the loose cells `t`, its child, and `root` are updated. */
  function Stacked<E, A>(s: Sys<E, A>, t: Ref, root: Ref): Tree<E>
    requires t in s.mem && root in s.mem
  {
    var c := s.mem[root];
    if c.lc == t then Node(Pending(s, t), c.entry, TreeAt(s.view, c.rc))
    else Node(TreeAt(s.view, c.lc), c.entry, Pending(s, t))
  }

  lemma RelinkedLeft<E, A>(g: Augment<E, A>, s0: Sys<E, A>, s1: Sys<E, A>, t: Ref, frame: multiset<Ref>, lf: set<Ref>)
    requires t in s0.mem && Nested(g, s0, t, s0.mem[t].rc, s0.mem[t].lc, frame, lf)
    requires var c := s0.mem[t].rc;
             s1 == s0.(mem := s0.mem[c := s0.mem[c].(lc := t)][t := s0.mem[t].(rc := s0.mem[c].lc)])
    ensures var c := s0.mem[t].rc;
            && s1.mem[c].lc == t && s1.owned == frame + Tok(s1.mem[c].rc) + Tok(s1.mem[t].lc) + Tok(s1.mem[t].rc)
            && Stacked(s1, t, c)
                == Trees.RotateLeft(Node(TreeAt(s0.view, s0.mem[t].lc), s0.mem[t].entry, Pending(s0, c)))
  {
  }

  lemma RelinkedRight<E, A>(g: Augment<E, A>, s0: Sys<E, A>, s1: Sys<E, A>, t: Ref, frame: multiset<Ref>, lf: set<Ref>)
    requires t in s0.mem && Nested(g, s0, t, s0.mem[t].lc, s0.mem[t].rc, frame, lf)
    requires var c := s0.mem[t].lc;
             s1 == s0.(mem := s0.mem[c := s0.mem[c].(rc := t)][t := s0.mem[t].(lc := s0.mem[c].rc)])
    ensures var c := s0.mem[t].lc;
            && s1.mem[c].rc == t && s1.owned == frame + Tok(s1.mem[c].lc) + Tok(s1.mem[t].lc) + Tok(s1.mem[t].rc)
            && Stacked(s1, t, c)
                == Trees.RotateRight(Node(Pending(s0, c), s0.mem[t].entry, TreeAt(s0.view, s0.mem[t].rc)))
  {
    var c := s0.mem[t].lc;
    assert t in Loose(s0) && c in Loose(s0);
    assert t !in s0.owned;
    assert s0.mem[c].lc != 0 ==> s0.owned[s0.mem[c].lc] > 0;
  }

  lemma UpdateBothYields<E, A>(g: Augment<E, A>, s0: Sys<E, A>, s1: Sys<E, A>, s2: Sys<E, A>,
                               t: Ref, root: Ref, x: Ref, frame: multiset<Ref>, lf: set<Ref>)
    requires Valid(g, s0) && t in s0.mem && root in s0.mem && t != root && t in Loose(s0) && root in Loose(s0)
    requires (s0.mem[root].lc == t && s0.mem[root].rc == x) || (s0.mem[root].lc == x && s0.mem[root].rc == t)
    requires Yields(g, s0, s1, frame + Tok(x), lf + {root}, t, Pending(s0, t))
    requires root in s1.mem && s1.mem[root] == s0.mem[root]
    requires Yields(g, s1, s2, frame, lf, root, Pending(s1, root))
    ensures Yields(g, s0, s2, frame, lf, root, Stacked(s0, t, root))
  {
  }

  /** A cell and its children hold what the tree says. */
  lemma Cells<E, A>(st: Store<E, A>, b: Ref)
    requires Valid(st.g, st.S()) && Points(st.view, b) && b != 0
    ensures b in st.mem && Points(st.view, st.mem[b].lc) && Points(st.view, st.mem[b].rc)
    ensures TreeAt(st.view, b) == Node(TreeAt(st.view, st.mem[b].lc), st.mem[b].entry, TreeAt(st.view, st.mem[b].rc))
    ensures var l := st.mem[b].lc; if l == 0 then TreeAt(st.view, l) == Leaf
            else l in st.mem && TreeAt(st.view, l).Node? && st.mem[l].aug == AugVal(st.g, TreeAt(st.view, l))
    ensures var r := st.mem[b].rc; if r == 0 then TreeAt(st.view, r) == Leaf
            else r in st.mem && TreeAt(st.view, r).Node? && st.mem[r].aug == AugVal(st.g, TreeAt(st.view, r))
  {
    assert LinkedAt(st.g, st.S(), b);
    ChildCache(st.g, st.S(), b);
    ChildCache(st.g, st.S(), st.mem[b].lc);
    ChildCache(st.g, st.S(), st.mem[b].rc);
  }
}
