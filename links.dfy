/** Node records linked through `left`, `right` and `parent` fields.

    Each field of the node records is a map from node identity to the field's
    value, so a state of the object graph is a handful of maps. The predicates
    here say when such maps describe a given `Tree` shape, and the lemmas say
    what survives a change confined to one part of a tree. */
module Links {
  import opened Shapes

  /** The `left`/`right` fields reached from `p` spell out the shape `t`. */
  ghost predicate Shaped(L: map<Ref, Ptr>, R: map<Ref, Ptr>, p: Ptr, t: Tree)
    decreases t
  {
    match t
    case Nil => p == Null
    case Node(l, x, rt) =>
      p == Ptr(x) && x in L && x in R && Shaped(L, R, L[x], l) && Shaped(L, R, R[x], rt)
  }

  /** Every node of `t` has its `parent` field set to the node above it; the root's is `par`. */
  ghost predicate ParentsOk(P: map<Ref, Ptr>, t: Tree, par: Ptr)
    decreases t
  {
    match t
    case Nil => true
    case Node(l, x, rt) => x in P && P[x] == par && ParentsOk(P, l, Ptr(x)) && ParentsOk(P, rt, Ptr(x))
  }

  /** The node a pointer names, as a set: empty for `null`. */
  function PtrRefs(p: Ptr): set<Ref> {
    if p.Null? then {} else {p.ref}
  }

  /** `m1` holds what `m0` holds at every key of `s`. */
  ghost predicate AgreeOn<T>(m0: map<Ref, T>, m1: map<Ref, T>, s: set<Ref>) {
    forall q :: q in s && q in m0 ==> q in m1 && m1[q] == m0[q]
  }

  /** `m1` holds what `m0` holds at every key outside `s`. */
  ghost predicate Keeps<T>(m0: map<Ref, T>, m1: map<Ref, T>, s: set<Ref>) {
    forall q :: q in m0 && q !in s ==> q in m1 && m1[q] == m0[q]
  }

  /** The subtree `s` hangs from `par`: linked, without sharing, with correct parents,
      and `par` (when not `null`) is a node outside `s` that holds the root of `s` as a child. */
  ghost predicate Hangs(L: map<Ref, Ptr>, R: map<Ref, Ptr>, P: map<Ref, Ptr>, s: Tree, par: Ptr) {
    s.Node? && Shaped(L, R, Ptr(s.ref), s) && Distinct(s) && ParentsOk(P, s, par) &&
    (par.Ptr? ==> par.ref in L && par.ref in R && par.ref !in Refs(s) &&
                  (L[par.ref] == Ptr(s.ref) || R[par.ref] == Ptr(s.ref)))
  }

  /** The child field of `par` that pointed at `x` now points at `nr`; like the rotations,
      `left` is tested first and `right` is written otherwise. */
  ghost predicate Relinked(L0: map<Ref, Ptr>, R0: map<Ref, Ptr>, L1: map<Ref, Ptr>, R1: map<Ref, Ptr>,
                           par: Ptr, x: Ref, nr: Ptr) {
    par.Ptr? ==>
      par.ref in L0 && par.ref in R0 && par.ref in L1 && par.ref in R1 &&
      if L0[par.ref] == Ptr(x) then L1[par.ref] == nr && R1[par.ref] == R0[par.ref]
      else L1[par.ref] == L0[par.ref] && R1[par.ref] == nr
  }

  // ---------------------------------------------------------------- lemmas

  /** What is kept outside `s` is kept on any set disjoint from `s`. */
  lemma KeepsAgree<T>(m0: map<Ref, T>, m1: map<Ref, T>, s: set<Ref>, a: set<Ref>)
    requires Keeps(m0, m1, s) && a !! s
    ensures AgreeOn(m0, m1, a)
  {
  }

  /** A change confined to `a` is confined to any larger set. */
  lemma KeepsWider<T>(m0: map<Ref, T>, m1: map<Ref, T>, a: set<Ref>, b: set<Ref>)
    requires Keeps(m0, m1, a) && a <= b
    ensures Keeps(m0, m1, b)
  {
  }

  /** Two changes in a row confined to `s` are together confined to `s`. */
  lemma KeepsTrans<T>(m0: map<Ref, T>, m1: map<Ref, T>, m2: map<Ref, T>, s: set<Ref>)
    requires Keeps(m0, m1, s) && Keeps(m1, m2, s)
    ensures Keeps(m0, m2, s)
  {
  }

  /** Two changes in a row, the first confined to `a` and the second to `b`, are together
      confined to `s` when `a` lies in `s` and `b` adds at most a key `n` the maps did not
      hold before. */
  lemma KeepsCompose<T>(m0: map<Ref, T>, m1: map<Ref, T>, m2: map<Ref, T>, a: set<Ref>, b: set<Ref>, s: set<Ref>, n: Ref)
    requires Keeps(m0, m1, a) && Keeps(m1, m2, b) && a <= s && b <= s + {n} && n !in m0
    ensures Keeps(m0, m2, s)
  {
  }

  lemma {:induction false} ShapedRefs(L: map<Ref, Ptr>, R: map<Ref, Ptr>, p: Ptr, t: Tree)
    requires Shaped(L, R, p, t)
    ensures Refs(t) <= L.Keys && Refs(t) <= R.Keys && p == Root(t)
    decreases t
  {
    match t
    case Nil =>
    case Node(l, x, rt) =>
      ShapedRefs(L, R, L[x], l);
      ShapedRefs(L, R, R[x], rt);
  }

  lemma {:induction false} ParentsRefs(P: map<Ref, Ptr>, t: Tree, par: Ptr)
    requires ParentsOk(P, t, par)
    ensures Refs(t) <= P.Keys
  {
    match t
    case Nil =>
    case Node(l, x, rt) =>
      ParentsRefs(P, l, Ptr(x));
      ParentsRefs(P, rt, Ptr(x));
  }

  /** The fields determine the shape: a pointer spells out at most one tree. */
  lemma {:induction false} ShapedUnique(L: map<Ref, Ptr>, R: map<Ref, Ptr>, p: Ptr, t1: Tree, t2: Tree)
    requires Shaped(L, R, p, t1) && Shaped(L, R, p, t2)
    ensures t1 == t2
    decreases t1
  {
    match t1
    case Nil =>
    case Node(l, x, rt) =>
      ShapedUnique(L, R, L[x], l, t2.left);
      ShapedUnique(L, R, R[x], rt, t2.right);
  }

  /** The shape only depends on the child fields of its own nodes. */
  lemma {:induction false} ShapedFrame(L0: map<Ref, Ptr>, R0: map<Ref, Ptr>, L1: map<Ref, Ptr>, R1: map<Ref, Ptr>,
                                       p: Ptr, t: Tree)
    requires Shaped(L0, R0, p, t) && AgreeOn(L0, L1, Refs(t)) && AgreeOn(R0, R1, Refs(t))
    ensures Shaped(L1, R1, p, t)
    decreases t
  {
    match t
    case Nil =>
    case Node(l, x, rt) =>
      ShapedFrame(L0, R0, L1, R1, L0[x], l);
      ShapedFrame(L0, R0, L1, R1, R0[x], rt);
  }

  /** The shape determines the child fields of its own nodes: two states that spell out
      the same shape agree on `left` and `right` at every node of it. */
  lemma {:induction false} ShapedAgree(L0: map<Ref, Ptr>, R0: map<Ref, Ptr>, L1: map<Ref, Ptr>, R1: map<Ref, Ptr>,
                                       p0: Ptr, p1: Ptr, t: Tree)
    requires Shaped(L0, R0, p0, t) && Shaped(L1, R1, p1, t)
    ensures AgreeOn(L0, L1, Refs(t)) && AgreeOn(R0, R1, Refs(t))
    decreases t
  {
    match t
    case Nil =>
    case Node(l, x, rt) =>
      ShapedRefs(L0, R0, L0[x], l);
      ShapedRefs(L0, R0, R0[x], rt);
      ShapedRefs(L1, R1, L1[x], l);
      ShapedRefs(L1, R1, R1[x], rt);
      ShapedAgree(L0, R0, L1, R1, L0[x], L1[x], l);
      ShapedAgree(L0, R0, L1, R1, R0[x], R1[x], rt);
  }

  /** Parent links only depend on the parent fields of their own nodes. */
  lemma {:induction false} ParentsFrame(P0: map<Ref, Ptr>, P1: map<Ref, Ptr>, t: Tree, par: Ptr)
    requires ParentsOk(P0, t, par) && AgreeOn(P0, P1, Refs(t))
    ensures ParentsOk(P1, t, par)
  {
    match t
    case Nil =>
    case Node(l, x, rt) =>
      ParentsFrame(P0, P1, l, Ptr(x));
      ParentsFrame(P0, P1, rt, Ptr(x));
  }

  /** Each subtree of a linked tree is linked from its own root. */
  lemma {:induction false} ShapedSub(L: map<Ref, Ptr>, R: map<Ref, Ptr>, t: Tree, x: Ref)
    requires Shaped(L, R, Root(t), t) && x in Refs(t)
    ensures Shaped(L, R, Ptr(x), SubAt(t, x))
  {
    if t.ref != x {
      if x in Refs(t.left) {
        ShapedRefs(L, R, L[t.ref], t.left);
        ShapedSub(L, R, t.left, x);
      } else {
        ShapedRefs(L, R, R[t.ref], t.right);
        ShapedSub(L, R, t.right, x);
      }
    }
  }

  /** The parent field of a node is the node `ParentIn` names. */
  lemma {:induction false} ParentsSub(P: map<Ref, Ptr>, t: Tree, top: Ptr, x: Ref)
    requires ParentsOk(P, t, top) && Distinct(t) && x in Refs(t)
    ensures ParentsOk(P, SubAt(t, x), ParentIn(t, x, top))
    ensures x in P && P[x] == ParentIn(t, x, top)
  {
    if t.ref != x {
      if x in Refs(t.left) { ParentsSub(P, t.left, Ptr(t.ref), x); }
      else { ParentsSub(P, t.right, Ptr(t.ref), x); }
    }
  }

  /** Inside a linked tree without sharing, every subtree hangs from its parent. */
  lemma HangsSub(L: map<Ref, Ptr>, R: map<Ref, Ptr>, P: map<Ref, Ptr>, t: Tree, x: Ref)
    requires Shaped(L, R, Root(t), t) && Distinct(t) && ParentsOk(P, t, Null) && x in Refs(t)
    ensures Hangs(L, R, P, SubAt(t, x), ParentIn(t, x, Null))
  {
    ShapedSub(L, R, t, x);
    ParentsSub(P, t, Null, x);
    SubDistinct(t, x);
    ParentInFacts(t, x, Null);
    if x != t.ref {
      var q := ParentIn(t, x, Null).ref;
      ShapedSub(L, R, t, q);
      var sq := SubAt(t, q);
      ShapedRefs(L, R, Ptr(q), sq);
      assert L[q] == Root(sq.left) && R[q] == Root(sq.right) by {
        ShapedRefs(L, R, L[q], sq.left);
        ShapedRefs(L, R, R[q], sq.right);
      }
      SubParentOutside(t, x, Null);
    }
  }

  /** Below the root, the parent of `x` lies outside the subtree at `x`. */
  lemma {:induction false} SubParentOutside(t: Tree, x: Ref, top: Ptr)
    requires Distinct(t) && x in Refs(t) && x != t.ref
    ensures ParentIn(t, x, top).Ptr? && ParentIn(t, x, top).ref !in Refs(SubAt(t, x))
    ensures ParentIn(t, x, top).ref in Refs(t)
  {
    ParentInTop(t, x, top);
    if x in Refs(t.left) {
      ReplaceAtRefs(t.left, x, Nil);
      if t.left.ref != x { SubParentOutside(t.left, x, Ptr(t.ref)); }
    } else {
      ReplaceAtRefs(t.right, x, Nil);
      if t.right.ref != x { SubParentOutside(t.right, x, Ptr(t.ref)); }
    }
  }

  /** A change confined to the subtree at `x` (plus the child field of its parent that is
      relinked to the new subtree root) leaves a linked tree: the old tree with that subtree
      replaced. */
  lemma {:induction false} Plug(L0: map<Ref, Ptr>, R0: map<Ref, Ptr>, P0: map<Ref, Ptr>,
                                L1: map<Ref, Ptr>, R1: map<Ref, Ptr>, P1: map<Ref, Ptr>,
                                t: Tree, top: Ptr, x: Ref, s': Tree)
    requires Shaped(L0, R0, Root(t), t) && Distinct(t) && ParentsOk(P0, t, top) && x in Refs(t)
    requires Shaped(L1, R1, Root(s'), s') && ParentsOk(P1, s', ParentIn(t, x, top))
    requires Relinked(L0, R0, L1, R1, ParentIn(t, x, top), x, Root(s'))
    requires AgreeOn(L0, L1, Refs(t) - Refs(SubAt(t, x)) - PtrRefs(ParentIn(t, x, top)))
    requires AgreeOn(R0, R1, Refs(t) - Refs(SubAt(t, x)) - PtrRefs(ParentIn(t, x, top)))
    requires AgreeOn(P0, P1, Refs(t) - Refs(SubAt(t, x)))
    ensures x == t.ref ==> ReplaceAt(t, x, s') == s'
    ensures Shaped(L1, R1, Root(ReplaceAt(t, x, s')), ReplaceAt(t, x, s'))
    ensures ParentsOk(P1, ReplaceAt(t, x, s'), top)
    decreases t
  {
    if t.ref != x {
      ShapedRefs(L0, R0, L0[t.ref], t.left);
      ShapedRefs(L0, R0, R0[t.ref], t.right);
      ParentsRefs(P0, t, top);
      if x in Refs(t.left) {
        PlugLeft(L0, R0, P0, L1, R1, P1, t, top, x, s');
      } else {
        PlugRight(L0, R0, P0, L1, R1, P1, t, top, x, s');
      }
    }
  }

  lemma {:induction false} PlugLeft(L0: map<Ref, Ptr>, R0: map<Ref, Ptr>, P0: map<Ref, Ptr>,
                                    L1: map<Ref, Ptr>, R1: map<Ref, Ptr>, P1: map<Ref, Ptr>,
                                    t: Tree, top: Ptr, x: Ref, s': Tree)
    requires Shaped(L0, R0, Root(t), t) && Distinct(t) && ParentsOk(P0, t, top)
    requires t.Node? && t.ref != x && x in Refs(t.left)
    requires Shaped(L1, R1, Root(s'), s') && ParentsOk(P1, s', ParentIn(t, x, top))
    requires Relinked(L0, R0, L1, R1, ParentIn(t, x, top), x, Root(s'))
    requires AgreeOn(L0, L1, Refs(t) - Refs(SubAt(t, x)) - PtrRefs(ParentIn(t, x, top)))
    requires AgreeOn(R0, R1, Refs(t) - Refs(SubAt(t, x)) - PtrRefs(ParentIn(t, x, top)))
    requires AgreeOn(P0, P1, Refs(t) - Refs(SubAt(t, x)))
    ensures Shaped(L1, R1, Root(ReplaceAt(t, x, s')), ReplaceAt(t, x, s'))
    ensures ParentsOk(P1, ReplaceAt(t, x, s'), top)
    decreases t, 0
  {
    var y, l := t.ref, t.left;
    ShapedRefs(L0, R0, L0[y], l);
    ShapedRefs(L0, R0, R0[y], t.right);
    ReplaceAtRefs(l, x, s');
    assert ReplaceAt(t, x, s') == Node(ReplaceAt(l, x, s'), y, t.right);
    if l.ref == x {
      assert ParentIn(t, x, top) == Ptr(y);
      assert L0[y] == Ptr(x);
    } else {
      ParentInTop(l, x, Ptr(y));
      assert ParentIn(t, x, top) == ParentIn(l, x, Ptr(y));
      assert ParentIn(l, x, Ptr(y)).ref in Refs(l);
      Plug(L0, R0, P0, L1, R1, P1, l, Ptr(y), x, s');
      assert L1[y] == L0[y];
    }
    ShapedFrame(L0, R0, L1, R1, R0[y], t.right);
    ParentsFrame(P0, P1, t.right, Ptr(y));
  }

  lemma {:induction false} PlugRight(L0: map<Ref, Ptr>, R0: map<Ref, Ptr>, P0: map<Ref, Ptr>,
                                     L1: map<Ref, Ptr>, R1: map<Ref, Ptr>, P1: map<Ref, Ptr>,
                                     t: Tree, top: Ptr, x: Ref, s': Tree)
    requires Shaped(L0, R0, Root(t), t) && Distinct(t) && ParentsOk(P0, t, top)
    requires t.Node? && t.ref != x && x !in Refs(t.left) && x in Refs(t.right)
    requires Shaped(L1, R1, Root(s'), s') && ParentsOk(P1, s', ParentIn(t, x, top))
    requires Relinked(L0, R0, L1, R1, ParentIn(t, x, top), x, Root(s'))
    requires AgreeOn(L0, L1, Refs(t) - Refs(SubAt(t, x)) - PtrRefs(ParentIn(t, x, top)))
    requires AgreeOn(R0, R1, Refs(t) - Refs(SubAt(t, x)) - PtrRefs(ParentIn(t, x, top)))
    requires AgreeOn(P0, P1, Refs(t) - Refs(SubAt(t, x)))
    ensures Shaped(L1, R1, Root(ReplaceAt(t, x, s')), ReplaceAt(t, x, s'))
    ensures ParentsOk(P1, ReplaceAt(t, x, s'), top)
    decreases t, 0
  {
    var y, r := t.ref, t.right;
    ShapedRefs(L0, R0, L0[y], t.left);
    ShapedRefs(L0, R0, R0[y], r);
    ReplaceAtRefs(r, x, s');
    assert ReplaceAt(t, x, s') == Node(t.left, y, ReplaceAt(r, x, s'));
    if r.ref == x {
      assert ParentIn(t, x, top) == Ptr(y);
      assert L0[y] != Ptr(x);
    } else {
      ParentInTop(r, x, Ptr(y));
      assert ParentIn(t, x, top) == ParentIn(r, x, Ptr(y));
      assert ParentIn(r, x, Ptr(y)).ref in Refs(r);
      Plug(L0, R0, P0, L1, R1, P1, r, Ptr(y), x, s');
      assert R1[y] == R0[y];
    }
    ShapedFrame(L0, R0, L1, R1, L0[y], t.left);
    ParentsFrame(P0, P1, t.left, Ptr(y));
  }
}
