/** The tree engine: node records linked by `left`, `right` and `parent`, and the
    operations that build, rotate, rebalance, recolour, delete and lay out trees.

    `Nodes` is the set of all node records ever created. Each field of the records
    is one map from node identity to the field's value; a method changes exactly
    the maps its `modifies` clause names. Callers pass the root pointer and, as a
    ghost argument, the shape of the tree it reaches; each method states the new
    shape as one of the pure functions of `Shapes`, `SearchTree`, `Avl`, and the
    properties of those functions are proved there. */
module TreeEngine {
  import opened Shapes
  import opened Links
  import SearchTree
  import Avl
  import opened RedBlack

  /** Horizontal distance between in-order neighbours in a layout. */
  const H_GAP: int := 70
  /** Vertical distance between tree levels in a layout. */
  const V_GAP: int := 90

  /** The map has an entry for exactly the nodes created so far, `0 .. next - 1`. */
  ghost predicate Dom<T>(m: map<Ref, T>, next: nat) {
    forall q: Ref :: q in m <==> q < next
  }

  lemma DomAdd<T>(m: map<Ref, T>, next: nat, v: T)
    requires Dom(m, next)
    ensures next !in m && Dom(m[next := v], next + 1)
  {
  }

  lemma DomPut<T>(m: map<Ref, T>, next: nat, k: Ref, v: T)
    requires Dom(m, next) && k in m
    ensures Dom(m[k := v], next)
  {
  }

  /** Storing a field's own value back changes nothing. */
  lemma UpdateSame<T>(m: map<Ref, T>, k: Ref)
    requires k in m
    ensures m[k := m[k]] == m
  {
  }

  /** Parent fields of `t` below the root are right, and the root's is now `par1`. */
  lemma ParentsReroot(P0: map<Ref, Ptr>, P1: map<Ref, Ptr>, t: Tree, par0: Ptr, par1: Ptr)
    requires ParentsOk(P0, t, par0) && Distinct(t)
    requires t.Node? ==> t.ref in P1 && P1[t.ref] == par1
    requires AgreeOn(P0, P1, Refs(t) - (if t.Nil? then {} else {t.ref}))
    ensures ParentsOk(P1, t, par1)
  {
    if t.Node? {
      ParentsFrame(P0, P1, t.left, Ptr(t.ref));
      ParentsFrame(P0, P1, t.right, Ptr(t.ref));
    }
  }

  /** The child fields after `rotateLeft` at the root `x` of `s`, whose right child is `y`:
      `x.right` takes `y.left`, `y.left` becomes `x`, and the child field of `par` that
      held `x` now holds `y`; nothing else changes. */
  lemma RotateLeftShape(L0: map<Ref, Ptr>, R0: map<Ref, Ptr>, L1: map<Ref, Ptr>, R1: map<Ref, Ptr>,
                        s: Tree, par: Ptr)
    requires Shaped(L0, R0, Root(s), s) && Distinct(s) && s.Node? && s.right.Node?
    requires par.Ptr? ==> par.ref !in Refs(s)
    requires s.right.ref in L0 && s.right.ref in R0
    requires s.ref in L1 && s.right.ref in L1 && s.ref in R1 && s.right.ref in R1
    requires L1[s.right.ref] == Ptr(s.ref) && L1[s.ref] == L0[s.ref]
    requires R1[s.ref] == L0[s.right.ref] && R1[s.right.ref] == R0[s.right.ref]
    requires Keeps(L0, L1, {s.ref, s.right.ref} + PtrRefs(par))
    requires Keeps(R0, R1, {s.ref, s.right.ref} + PtrRefs(par))
    ensures Shaped(L1, R1, Ptr(s.right.ref), Shapes.RotateLeft(s))
  {
    var Node(a, x, m) := s;
    var Node(b, y, c) := m;
    assert Distinct(m) && x !in Refs(b) && x !in Refs(c);
    ShapedRefs(L0, R0, L0[x], a);
    ShapedRefs(L0, R0, L0[y], b);
    ShapedRefs(L0, R0, R0[y], c);
    var kept := {x, y} + PtrRefs(par);
    KeepsAgree(L0, L1, kept, Refs(a));
    KeepsAgree(L0, L1, kept, Refs(b));
    KeepsAgree(L0, L1, kept, Refs(c));
    KeepsAgree(R0, R1, kept, Refs(a));
    KeepsAgree(R0, R1, kept, Refs(b));
    KeepsAgree(R0, R1, kept, Refs(c));
    ShapedFrame(L0, R0, L1, R1, L0[x], a);
    ShapedFrame(L0, R0, L1, R1, L0[y], b);
    ShapedFrame(L0, R0, L1, R1, R0[y], c);
  }

  /** The child fields after `rotateRight` at the root `y` of `s`, whose left child is `x`:
      the mirror image of `RotateLeftShape`. */
  lemma RotateRightShape(L0: map<Ref, Ptr>, R0: map<Ref, Ptr>, L1: map<Ref, Ptr>, R1: map<Ref, Ptr>,
                         s: Tree, par: Ptr)
    requires Shaped(L0, R0, Root(s), s) && Distinct(s) && s.Node? && s.left.Node?
    requires par.Ptr? ==> par.ref !in Refs(s)
    requires s.left.ref in L0 && s.left.ref in R0
    requires s.ref in R1 && s.left.ref in R1 && s.ref in L1 && s.left.ref in L1
    requires R1[s.left.ref] == Ptr(s.ref) && R1[s.ref] == R0[s.ref]
    requires L1[s.ref] == R0[s.left.ref] && L1[s.left.ref] == L0[s.left.ref]
    requires Keeps(L0, L1, {s.ref, s.left.ref} + PtrRefs(par))
    requires Keeps(R0, R1, {s.ref, s.left.ref} + PtrRefs(par))
    ensures Shaped(L1, R1, Ptr(s.left.ref), Shapes.RotateRight(s))
  {
    var Node(m, y, c) := s;
    var Node(a, x, b) := m;
    assert Distinct(m) && y !in Refs(a) && y !in Refs(b);
    ShapedRefs(L0, R0, R0[y], c);
    ShapedRefs(L0, R0, L0[x], a);
    ShapedRefs(L0, R0, R0[x], b);
    var kept := {x, y} + PtrRefs(par);
    KeepsAgree(L0, L1, kept, Refs(a));
    KeepsAgree(L0, L1, kept, Refs(b));
    KeepsAgree(L0, L1, kept, Refs(c));
    KeepsAgree(R0, R1, kept, Refs(a));
    KeepsAgree(R0, R1, kept, Refs(b));
    KeepsAgree(R0, R1, kept, Refs(c));
    ShapedFrame(L0, R0, L1, R1, R0[y], c);
    ShapedFrame(L0, R0, L1, R1, L0[x], a);
    ShapedFrame(L0, R0, L1, R1, R0[x], b);
  }

  /** The parent fields after a left rotation at the root `x` of `s`: `y` takes over
      `x`'s parent, `x`'s parent becomes `y`, and `y`'s old left child `b` gets parent `x`. */
  lemma RotateLeftParents(P0: map<Ref, Ptr>, P1: map<Ref, Ptr>, s: Tree, par: Ptr)
    requires ParentsOk(P0, s, par) && Distinct(s) && s.Node? && s.right.Node?
    requires s.ref in P1 && s.right.ref in P1
    requires P1[s.right.ref] == par && P1[s.ref] == Ptr(s.right.ref)
    requires s.right.left.Node? ==> s.right.left.ref in P1 && P1[s.right.left.ref] == Ptr(s.ref)
    requires Keeps(P0, P1, {s.ref, s.right.ref} + PtrRefs(Root(s.right.left)))
    ensures ParentsOk(P1, Shapes.RotateLeft(s), par)
  {
    var Node(a, x, m) := s;
    var Node(b, y, c) := m;
    assert ParentsOk(P0, m, Ptr(x));
    assert Distinct(m) && x !in Refs(b) && x !in Refs(c);
    var kept := {x, y} + PtrRefs(Root(b));
    KeepsAgree(P0, P1, kept, Refs(a));
    KeepsAgree(P0, P1, kept, Refs(b) - (if b.Nil? then {} else {b.ref}));
    KeepsAgree(P0, P1, kept, Refs(c));
    ParentsFrame(P0, P1, a, Ptr(x));
    ParentsReroot(P0, P1, b, Ptr(y), Ptr(x));
    ParentsFrame(P0, P1, c, Ptr(y));
  }

  /** The parent fields after a right rotation: the mirror image of `RotateLeftParents`. */
  lemma RotateRightParents(P0: map<Ref, Ptr>, P1: map<Ref, Ptr>, s: Tree, par: Ptr)
    requires ParentsOk(P0, s, par) && Distinct(s) && s.Node? && s.left.Node?
    requires s.ref in P1 && s.left.ref in P1
    requires P1[s.left.ref] == par && P1[s.ref] == Ptr(s.left.ref)
    requires s.left.right.Node? ==> s.left.right.ref in P1 && P1[s.left.right.ref] == Ptr(s.ref)
    requires Keeps(P0, P1, {s.ref, s.left.ref} + PtrRefs(Root(s.left.right)))
    ensures ParentsOk(P1, Shapes.RotateRight(s), par)
  {
    var Node(m, y, c) := s;
    var Node(a, x, b) := m;
    assert ParentsOk(P0, m, Ptr(y));
    assert Distinct(m) && y !in Refs(a) && y !in Refs(b);
    var kept := {x, y} + PtrRefs(Root(b));
    KeepsAgree(P0, P1, kept, Refs(a));
    KeepsAgree(P0, P1, kept, Refs(b) - (if b.Nil? then {} else {b.ref}));
    KeepsAgree(P0, P1, kept, Refs(c));
    ParentsFrame(P0, P1, c, Ptr(y));
    ParentsReroot(P0, P1, b, Ptr(x), Ptr(y));
    ParentsFrame(P0, P1, a, Ptr(x));
  }

  /** The child fields after `bstInsert` went down the left side of the root `x` of `t`:
      the left subtree was replaced by the grown one rooted at `kid`, and `x.left = kid`. */
  lemma InsertShapeLeft(L0: map<Ref, Ptr>, R0: map<Ref, Ptr>, L1: map<Ref, Ptr>, R1: map<Ref, Ptr>,
                       V: map<Ref, real>, t: Tree, v: real, n: Ref, kid: Ref)
    requires Shaped(L0, R0, Root(t), t) && Distinct(t) && t.Node? && Refs(t) <= V.Keys
    requires v < V[t.ref] && n !in Refs(t)
    requires Shaped(L1, R1, Ptr(kid), SearchTree.Insert(V, t.left, v, n))
    requires Keeps(L0, L1, Refs(t.left)) && Keeps(R0, R1, Refs(t.left))
    ensures SearchTree.Insert(V, t, v, n) == Node(SearchTree.Insert(V, t.left, v, n), t.ref, t.right)
    ensures Shaped(L1[t.ref := Ptr(kid)], R1, Ptr(t.ref), SearchTree.Insert(V, t, v, n))
    ensures Keeps(L0, L1[t.ref := Ptr(kid)], Refs(t)) && Keeps(R0, R1, Refs(t))
  {
    var Node(l, x, rt) := t;
    var c' := SearchTree.Insert(V, l, v, n);
    var L2 := L1[x := Ptr(kid)];
    ShapedRefs(L0, R0, L0[x], l);
    ShapedRefs(L0, R0, R0[x], rt);
    ShapedRefs(L1, R1, Ptr(kid), c');
    assert x !in Refs(c') && Refs(c') !! Refs(rt);
    KeepsAgree(L0, L1, Refs(l), Refs(rt));
    KeepsAgree(R0, R1, Refs(l), Refs(rt));
    ShapedFrame(L1, R1, L2, R1, Ptr(kid), c');
    ShapedFrame(L0, R0, L2, R1, R0[x], rt);
  }

  /** The parent fields after the same step: the grown left subtree has correct parents
      below its root, and `kid.parent = x`. */
  lemma InsertParentsLeft(L0: map<Ref, Ptr>, R0: map<Ref, Ptr>, P0: map<Ref, Ptr>,
                         L1: map<Ref, Ptr>, R1: map<Ref, Ptr>, P1: map<Ref, Ptr>,
                         V: map<Ref, real>, t: Tree, v: real, n: Ref, kid: Ref, top: Ptr)
    requires Shaped(L0, R0, Root(t), t) && Distinct(t) && t.Node? && Refs(t) <= V.Keys
    requires v < V[t.ref] && n !in Refs(t)
    requires Shaped(L1, R1, Ptr(kid), SearchTree.Insert(V, t.left, v, n))
    requires Keeps(P0, P1, Refs(t.left) - PtrRefs(Root(t.left)))
    requires ParentsOk(P0, t.left, Ptr(t.ref)) ==>
               ParentsOk(P1, SearchTree.Insert(V, t.left, v, n), if t.left.Nil? then Null else Ptr(t.ref))
    ensures ParentsOk(P0, t, top) ==> ParentsOk(P1[kid := Ptr(t.ref)], SearchTree.Insert(V, t, v, n), top)
    ensures n !in P0 ==> Keeps(P0, P1[kid := Ptr(t.ref)], Refs(t) - {t.ref})
  {
    var Node(l, x, rt) := t;
    var c' := SearchTree.Insert(V, l, v, n);
    var P2 := P1[kid := Ptr(x)];
    assert SearchTree.Insert(V, t, v, n) == Node(SearchTree.Insert(V, l, v, n), x, rt);
    ShapedRefs(L0, R0, L0[x], l);
    ShapedRefs(L0, R0, R0[x], rt);
    ShapedRefs(L1, R1, Ptr(kid), c');
    assert x !in Refs(c') && Refs(c') !! Refs(rt);
    if ParentsOk(P0, t, top) {
      SearchTree.InsertDistinct(V, l, v, n);
      ParentsReroot(P1, P2, c', if l.Nil? then Null else Ptr(x), Ptr(x));
      KeepsAgree(P0, P1, Refs(l) - PtrRefs(Root(l)), Refs(rt));
      ParentsFrame(P0, P2, rt, Ptr(x));
    }
  }

  /** The mirror image of `InsertShapeLeft`: the insertion went down the right side and
      `x.right = kid`. */
  lemma InsertShapeRight(L0: map<Ref, Ptr>, R0: map<Ref, Ptr>, L1: map<Ref, Ptr>, R1: map<Ref, Ptr>,
                       V: map<Ref, real>, t: Tree, v: real, n: Ref, kid: Ref)
    requires Shaped(L0, R0, Root(t), t) && Distinct(t) && t.Node? && Refs(t) <= V.Keys
    requires !(v < V[t.ref]) && n !in Refs(t)
    requires Shaped(L1, R1, Ptr(kid), SearchTree.Insert(V, t.right, v, n))
    requires Keeps(L0, L1, Refs(t.right)) && Keeps(R0, R1, Refs(t.right))
    ensures SearchTree.Insert(V, t, v, n) == Node(t.left, t.ref, SearchTree.Insert(V, t.right, v, n))
    ensures Shaped(L1, R1[t.ref := Ptr(kid)], Ptr(t.ref), SearchTree.Insert(V, t, v, n))
    ensures Keeps(L0, L1, Refs(t)) && Keeps(R0, R1[t.ref := Ptr(kid)], Refs(t))
  {
    var Node(l, x, rt) := t;
    var c' := SearchTree.Insert(V, rt, v, n);
    var R2 := R1[x := Ptr(kid)];
    ShapedRefs(L0, R0, L0[x], l);
    ShapedRefs(L0, R0, R0[x], rt);
    ShapedRefs(L1, R1, Ptr(kid), c');
    assert x !in Refs(c') && Refs(c') !! Refs(l);
    KeepsAgree(L0, L1, Refs(rt), Refs(l));
    KeepsAgree(R0, R1, Refs(rt), Refs(l));
    ShapedFrame(L1, R1, L1, R2, Ptr(kid), c');
    ShapedFrame(L0, R0, L1, R2, L0[x], l);
  }

  /** The mirror image of `InsertParentsLeft`. */
  lemma InsertParentsRight(L0: map<Ref, Ptr>, R0: map<Ref, Ptr>, P0: map<Ref, Ptr>,
                         L1: map<Ref, Ptr>, R1: map<Ref, Ptr>, P1: map<Ref, Ptr>,
                         V: map<Ref, real>, t: Tree, v: real, n: Ref, kid: Ref, top: Ptr)
    requires Shaped(L0, R0, Root(t), t) && Distinct(t) && t.Node? && Refs(t) <= V.Keys
    requires !(v < V[t.ref]) && n !in Refs(t)
    requires Shaped(L1, R1, Ptr(kid), SearchTree.Insert(V, t.right, v, n))
    requires Keeps(P0, P1, Refs(t.right) - PtrRefs(Root(t.right)))
    requires ParentsOk(P0, t.right, Ptr(t.ref)) ==>
               ParentsOk(P1, SearchTree.Insert(V, t.right, v, n), if t.right.Nil? then Null else Ptr(t.ref))
    ensures ParentsOk(P0, t, top) ==> ParentsOk(P1[kid := Ptr(t.ref)], SearchTree.Insert(V, t, v, n), top)
    ensures n !in P0 ==> Keeps(P0, P1[kid := Ptr(t.ref)], Refs(t) - {t.ref})
  {
    var Node(l, x, rt) := t;
    var c' := SearchTree.Insert(V, rt, v, n);
    var P2 := P1[kid := Ptr(x)];
    assert SearchTree.Insert(V, t, v, n) == Node(l, x, SearchTree.Insert(V, rt, v, n));
    ShapedRefs(L0, R0, L0[x], l);
    ShapedRefs(L0, R0, R0[x], rt);
    ShapedRefs(L1, R1, Ptr(kid), c');
    assert x !in Refs(c') && Refs(c') !! Refs(l);
    if ParentsOk(P0, t, top) {
      SearchTree.InsertDistinct(V, rt, v, n);
      ParentsReroot(P1, P2, c', if rt.Nil? then Null else Ptr(x), Ptr(x));
      KeepsAgree(P0, P1, Refs(rt) - PtrRefs(Root(rt)), Refs(l));
      ParentsFrame(P0, P2, l, Ptr(x));
    }
  }

  /** The links at `x`, the root of `s`, after its left subtree was rearranged into `l'`
      (same nodes, hanging from `x`) and `x.left` was set to the root of `l'`. */
  lemma GraftLeft(L0: map<Ref, Ptr>, R0: map<Ref, Ptr>, P0: map<Ref, Ptr>,
                  L1: map<Ref, Ptr>, R1: map<Ref, Ptr>, P1: map<Ref, Ptr>, s: Tree, par: Ptr, l': Tree)
    requires Shaped(L0, R0, Root(s), s) && Distinct(s) && s.Node? && ParentsOk(P0, s, par)
    requires Shaped(L1, R1, Root(l'), l') && Distinct(l') && ParentsOk(P1, l', Ptr(s.ref))
    requires Refs(l') == Refs(s.left)
    requires s.ref in L1 && s.ref in R1 && L1[s.ref] == Root(l') && R1[s.ref] == R0[s.ref]
    requires Keeps(L0, L1, Refs(s.left) + {s.ref}) && Keeps(R0, R1, Refs(s.left) + {s.ref})
    requires Keeps(P0, P1, Refs(s.left))
    ensures Shaped(L1, R1, Ptr(s.ref), Node(l', s.ref, s.right))
    ensures ParentsOk(P1, Node(l', s.ref, s.right), par) && Distinct(Node(l', s.ref, s.right))
  {
    var Node(l, x, rt) := s;
    ShapedRefs(L0, R0, R0[x], rt);
    KeepsAgree(L0, L1, Refs(l) + {x}, Refs(rt));
    KeepsAgree(R0, R1, Refs(l) + {x}, Refs(rt));
    KeepsAgree(P0, P1, Refs(l), Refs(rt));
    ShapedFrame(L0, R0, L1, R1, R0[x], rt);
    ParentsFrame(P0, P1, rt, Ptr(x));
  }

  /** The mirror image of `GraftLeft`: the right subtree was rearranged into `r'`. */
  lemma GraftRight(L0: map<Ref, Ptr>, R0: map<Ref, Ptr>, P0: map<Ref, Ptr>,
                   L1: map<Ref, Ptr>, R1: map<Ref, Ptr>, P1: map<Ref, Ptr>, s: Tree, par: Ptr, r': Tree)
    requires Shaped(L0, R0, Root(s), s) && Distinct(s) && s.Node? && ParentsOk(P0, s, par)
    requires Shaped(L1, R1, Root(r'), r') && Distinct(r') && ParentsOk(P1, r', Ptr(s.ref))
    requires Refs(r') == Refs(s.right)
    requires s.ref in L1 && s.ref in R1 && R1[s.ref] == Root(r') && L1[s.ref] == L0[s.ref]
    requires Keeps(L0, L1, Refs(s.right) + {s.ref}) && Keeps(R0, R1, Refs(s.right) + {s.ref})
    requires Keeps(P0, P1, Refs(s.right))
    ensures Shaped(L1, R1, Ptr(s.ref), Node(s.left, s.ref, r'))
    ensures ParentsOk(P1, Node(s.left, s.ref, r'), par) && Distinct(Node(s.left, s.ref, r'))
  {
    var Node(l, x, rt) := s;
    ShapedRefs(L0, R0, L0[x], l);
    KeepsAgree(L0, L1, Refs(rt) + {x}, Refs(l));
    KeepsAgree(R0, R1, Refs(rt) + {x}, Refs(l));
    KeepsAgree(P0, P1, Refs(rt), Refs(l));
    ShapedFrame(L0, R0, L1, R1, L0[x], l);
    ParentsFrame(P0, P1, l, Ptr(x));
  }

  /** The family of a node `x` of a linked tree: its parent field names the node that holds
      it as a child (`null` exactly at the root), one level up, whose child fields are the
      roots of its two subtrees. */
  lemma Family(L: map<Ref, Ptr>, R: map<Ref, Ptr>, P: map<Ref, Ptr>, T: Tree, x: Ref)
    requires Shaped(L, R, Root(T), T) && Distinct(T) && ParentsOk(P, T, Null) && x in Refs(T)
    ensures x in P && P[x] == ParentIn(T, x, Null) && (P[x].Null? <==> x == T.ref)
    ensures P[x].Ptr? ==> P[x].ref in Refs(T) && Depth(T, P[x].ref) + 1 == Depth(T, x)
    ensures P[x].Ptr? ==>
              var q := P[x].ref;
              var sq := SubAt(T, q);
              q in L && q in R && L[q] == Root(sq.left) && R[q] == Root(sq.right) &&
              ((sq.left.Node? && sq.left.ref == x && SubAt(T, x) == sq.left) ||
               (sq.right.Node? && sq.right.ref == x && SubAt(T, x) == sq.right))
  {
    ParentsSub(P, T, Null, x);
    ParentInFacts(T, x, Null);
    if x != T.ref {
      ChildLinks(L, R, T, P[x].ref, x);
    }
  }

  /** The child fields of a node `q` are the roots of its subtrees; when `x` is one of
      them, the subtree at `x` is that child subtree. */
  lemma ChildLinks(L: map<Ref, Ptr>, R: map<Ref, Ptr>, T: Tree, q: Ref, x: Ref)
    requires Shaped(L, R, Root(T), T) && Distinct(T) && q in Refs(T)
    requires (SubAt(T, q).left.Node? && SubAt(T, q).left.ref == x) ||
             (SubAt(T, q).right.Node? && SubAt(T, q).right.ref == x)
    ensures q in L && q in R && L[q] == Root(SubAt(T, q).left) && R[q] == Root(SubAt(T, q).right)
    ensures x in Refs(T) && (SubAt(T, x) == SubAt(T, q).left || SubAt(T, x) == SubAt(T, q).right)
    ensures SubAt(T, q).left.Node? && SubAt(T, q).left.ref == x ==> SubAt(T, x) == SubAt(T, q).left
    ensures SubAt(T, q).right.Node? && SubAt(T, q).right.ref == x ==> SubAt(T, x) == SubAt(T, q).right
  {
    var sq := SubAt(T, q);
    ShapedSub(L, R, T, q);
    ShapedRefs(L, R, L[q], sq.left);
    ShapedRefs(L, R, R[q], sq.right);
    SubDistinct(T, q);
    SubAtNested(T, q, x);
  }

  /** A restructured subtree hanging where the subtree at `g` hung gives back a linked tree:
      the old one with the subtree at `g` replaced, with the same nodes in the same order. */
  lemma PlugFix(L0: map<Ref, Ptr>, R0: map<Ref, Ptr>, P0: map<Ref, Ptr>,
                L1: map<Ref, Ptr>, R1: map<Ref, Ptr>, P1: map<Ref, Ptr>, T: Tree, g: Ref, s': Tree)
    requires Shaped(L0, R0, Root(T), T) && Distinct(T) && ParentsOk(P0, T, Null) && g in Refs(T)
    requires Hangs(L1, R1, P1, s', ParentIn(T, g, Null))
    requires Refs(s') == Refs(SubAt(T, g)) && InorderRefs(s') == InorderRefs(SubAt(T, g))
    requires Relinked(L0, R0, L1, R1, ParentIn(T, g, Null), g, Ptr(s'.ref))
    requires Keeps(L0, L1, Refs(SubAt(T, g)) + PtrRefs(ParentIn(T, g, Null)))
    requires Keeps(R0, R1, Refs(SubAt(T, g)) + PtrRefs(ParentIn(T, g, Null)))
    requires Keeps(P0, P1, Refs(SubAt(T, g)))
    ensures Shaped(L1, R1, Root(ReplaceAt(T, g, s')), ReplaceAt(T, g, s'))
    ensures ParentsOk(P1, ReplaceAt(T, g, s'), Null) && Distinct(ReplaceAt(T, g, s'))
    ensures Refs(ReplaceAt(T, g, s')) == Refs(T) && InorderRefs(ReplaceAt(T, g, s')) == InorderRefs(T)
    ensures ReplaceAt(T, g, s').Node? && ReplaceAt(T, g, s').ref == (if g == T.ref then s'.ref else T.ref)
  {
    var sub, par := SubAt(T, g), ParentIn(T, g, Null);
    var out := Refs(T) - Refs(sub) - PtrRefs(par);
    KeepsAgree(L0, L1, Refs(sub) + PtrRefs(par), out);
    KeepsAgree(R0, R1, Refs(sub) + PtrRefs(par), out);
    KeepsAgree(P0, P1, Refs(sub), Refs(T) - Refs(sub));
    Plug(L0, R0, P0, L1, R1, P1, T, Null, g, s');
    ReplaceAtRefs(T, g, s');
    ReplaceAtDistinct(T, g, s');
    ReplaceAtInorder(T, g, s');
  }

  /** Where `z`, its parent `p` and its grandparent `g` sit when `p` is the left child of
      `g`: in the subtree at `g`, `p` roots the left subtree and `z` is a child of `p`. */
  lemma LeftCase(L: map<Ref, Ptr>, R: map<Ref, Ptr>, P: map<Ref, Ptr>, T: Tree, z: Ref, p: Ref, g: Ref)
    requires Shaped(L, R, Root(T), T) && Distinct(T) && ParentsOk(P, T, Null) && z in Refs(T)
    requires z in P && P[z] == Ptr(p) && p in P && P[p] == Ptr(g) && g in L && g in R && L[g] == Ptr(p)
    ensures g in Refs(T) && z != T.ref && p != T.ref && z != g && p != g && z != p
    ensures SubAt(T, g).left.Node? && SubAt(T, g).left.ref == p && R[g] == Root(SubAt(T, g).right)
    ensures Root(SubAt(T, g).left.left) == Ptr(z) || Root(SubAt(T, g).left.right) == Ptr(z)
  {
    Family(L, R, P, T, z);
    Family(L, R, P, T, p);
    SubDistinct(T, g);
  }

  /** The mirror image of `LeftCase`. */
  lemma RightCase(L: map<Ref, Ptr>, R: map<Ref, Ptr>, P: map<Ref, Ptr>, T: Tree, z: Ref, p: Ref, g: Ref)
    requires Shaped(L, R, Root(T), T) && Distinct(T) && ParentsOk(P, T, Null) && z in Refs(T)
    requires z in P && P[z] == Ptr(p) && p in P && P[p] == Ptr(g) && g in L && g in R && R[g] == Ptr(p)
    ensures g in Refs(T) && z != T.ref && p != T.ref && z != g && p != g && z != p
    ensures SubAt(T, g).right.Node? && SubAt(T, g).right.ref == p && L[g] == Root(SubAt(T, g).left)
    ensures Root(SubAt(T, g).right.right) == Ptr(z) || Root(SubAt(T, g).right.left) == Ptr(z)
  {
    Family(L, R, P, T, z);
    Family(L, R, P, T, p);
    SubDistinct(T, g);
  }

  /** The state of the fix-up loop of `rbtInsert`, on the fields as maps: the fields spell
      out the tree `T` from `root`, `z` is a red node of it whose parent lies in it, the
      root is black unless it is `z`, and when the tree was red-black before the insertion
      (`ok`) black heights are balanced and no red node has a red child except `z`. */
  ghost predicate Fixing(L: map<Ref, Ptr>, R: map<Ref, Ptr>, P: map<Ref, Ptr>, V: map<Ref, real>,
                         C: map<Ref, Color>, root: Ref, z: Ref, T: Tree, ok: bool) {
    Shaped(L, R, Ptr(root), T) && Distinct(T) && ParentsOk(P, T, Null) &&
    Refs(T) <= V.Keys && Refs(T) <= C.Keys &&
    z in Refs(T) && z in P && (P[z].Ptr? ==> P[z].ref in Refs(T)) && C[z] == Red &&
    root in C && (C[root] == Black || z == root) &&
    (ok ==> BlackBalanced(C, T) && RedOk(C, T, false, Ptr(z)))
  }

  /** Cases 2 and 3 with the parent `p` the left child of `g`, on the whole tree: the
      restructured subtree in place of the subtree at `g` keeps the loop state, and the
      new `z` has a black parent. */
  lemma LeftFixed(L0: map<Ref, Ptr>, R0: map<Ref, Ptr>, P0: map<Ref, Ptr>, C0: map<Ref, Color>,
                  L1: map<Ref, Ptr>, R1: map<Ref, Ptr>, P1: map<Ref, Ptr>, C1: map<Ref, Color>,
                  V: map<Ref, real>, root: Ref, z: Ref, p: Ref, g: Ref, T: Tree, ok: bool,
                  root': Ref, nz: Ref, top: Ref)
    requires Fixing(L0, R0, P0, V, C0, root, z, T, ok) && T.Node? && z != T.ref
    requires g in Refs(T) && SubAt(T, g).left.Node? && SubAt(T, g).left.ref == p && p != g
    requires Root(SubAt(T, g).left.left) == Ptr(z) || Root(SubAt(T, g).left.right) == Ptr(z)
    requires g in R0 && R0[g] == Root(SubAt(T, g).right) && (R0[g].Ptr? ==> R0[g].ref in C0)
    requires p in C0 && C0[p] == Red && !IsRed(C0, R0[g])
    requires Hangs(L1, R1, P1, LeftFix(SubAt(T, g), z), ParentIn(T, g, Null))
    requires top == LeftFix(SubAt(T, g), z).ref
    requires Relinked(L0, R0, L1, R1, ParentIn(T, g, Null), g, Ptr(top))
    requires Keeps(L0, L1, Refs(SubAt(T, g)) + PtrRefs(ParentIn(T, g, Null)))
    requires Keeps(R0, R1, Refs(SubAt(T, g)) + PtrRefs(ParentIn(T, g, Null)))
    requires Keeps(P0, P1, Refs(SubAt(T, g)))
    requires C1 == C0[top := Black][g := Red]
    requires root' == (if ParentIn(T, g, Null).Null? then top else root)
    requires nz == (if Root(SubAt(T, g).left.left) == Ptr(z) then z else p)
    requires nz in P1 && P1[nz] == Ptr(top)
    ensures Fixing(L1, R1, P1, V, C1, root', nz, ReplaceAt(T, g, LeftFix(SubAt(T, g), z)), ok)
    ensures top in C1 && C1[top] == Black
    ensures Refs(ReplaceAt(T, g, LeftFix(SubAt(T, g), z))) == Refs(T)
    ensures InorderRefs(ReplaceAt(T, g, LeftFix(SubAt(T, g), z))) == InorderRefs(T)
  {
    Refit(L0, R0, P0, L1, R1, P1, root, g, T, LeftFix(SubAt(T, g), z), root');
    LeftRecolored(C0, C1, root, z, p, g, T, ok, root', nz, top);
  }

  /** The mirror image of `LeftFixed`. */
  lemma RightFixed(L0: map<Ref, Ptr>, R0: map<Ref, Ptr>, P0: map<Ref, Ptr>, C0: map<Ref, Color>,
                   L1: map<Ref, Ptr>, R1: map<Ref, Ptr>, P1: map<Ref, Ptr>, C1: map<Ref, Color>,
                   V: map<Ref, real>, root: Ref, z: Ref, p: Ref, g: Ref, T: Tree, ok: bool,
                   root': Ref, nz: Ref, top: Ref)
    requires Fixing(L0, R0, P0, V, C0, root, z, T, ok) && T.Node? && z != T.ref
    requires g in Refs(T) && SubAt(T, g).right.Node? && SubAt(T, g).right.ref == p && p != g
    requires Root(SubAt(T, g).right.right) == Ptr(z) || Root(SubAt(T, g).right.left) == Ptr(z)
    requires g in L0 && L0[g] == Root(SubAt(T, g).left) && (L0[g].Ptr? ==> L0[g].ref in C0)
    requires p in C0 && C0[p] == Red && !IsRed(C0, L0[g])
    requires Hangs(L1, R1, P1, RightFix(SubAt(T, g), z), ParentIn(T, g, Null))
    requires top == RightFix(SubAt(T, g), z).ref
    requires Relinked(L0, R0, L1, R1, ParentIn(T, g, Null), g, Ptr(top))
    requires Keeps(L0, L1, Refs(SubAt(T, g)) + PtrRefs(ParentIn(T, g, Null)))
    requires Keeps(R0, R1, Refs(SubAt(T, g)) + PtrRefs(ParentIn(T, g, Null)))
    requires Keeps(P0, P1, Refs(SubAt(T, g)))
    requires C1 == C0[top := Black][g := Red]
    requires root' == (if ParentIn(T, g, Null).Null? then top else root)
    requires nz == (if Root(SubAt(T, g).right.right) == Ptr(z) then z else p)
    requires nz in P1 && P1[nz] == Ptr(top)
    ensures Fixing(L1, R1, P1, V, C1, root', nz, ReplaceAt(T, g, RightFix(SubAt(T, g), z)), ok)
    ensures top in C1 && C1[top] == Black
    ensures Refs(ReplaceAt(T, g, RightFix(SubAt(T, g), z))) == Refs(T)
    ensures InorderRefs(ReplaceAt(T, g, RightFix(SubAt(T, g), z))) == InorderRefs(T)
  {
    Refit(L0, R0, P0, L1, R1, P1, root, g, T, RightFix(SubAt(T, g), z), root');
    RightRecolored(C0, C1, root, z, p, g, T, ok, root', nz, top);
  }

  /** The links part of `LeftFixed` and `RightFixed`: after the subtree at `g` is
      restructured in place into `s'`, the fields spell out the tree with `s'` in place of
      that subtree, from the new root `root'`. */
  lemma Refit(L0: map<Ref, Ptr>, R0: map<Ref, Ptr>, P0: map<Ref, Ptr>,
              L1: map<Ref, Ptr>, R1: map<Ref, Ptr>, P1: map<Ref, Ptr>,
              root: Ref, g: Ref, T: Tree, s': Tree, root': Ref)
    requires Shaped(L0, R0, Ptr(root), T) && Distinct(T) && ParentsOk(P0, T, Null) && g in Refs(T)
    requires Hangs(L1, R1, P1, s', ParentIn(T, g, Null))
    requires Refs(s') == Refs(SubAt(T, g)) && InorderRefs(s') == InorderRefs(SubAt(T, g))
    requires Relinked(L0, R0, L1, R1, ParentIn(T, g, Null), g, Ptr(s'.ref))
    requires Keeps(L0, L1, Refs(SubAt(T, g)) + PtrRefs(ParentIn(T, g, Null)))
    requires Keeps(R0, R1, Refs(SubAt(T, g)) + PtrRefs(ParentIn(T, g, Null)))
    requires Keeps(P0, P1, Refs(SubAt(T, g)))
    requires root' == (if ParentIn(T, g, Null).Null? then s'.ref else root)
    ensures Shaped(L1, R1, Ptr(root'), ReplaceAt(T, g, s')) && Distinct(ReplaceAt(T, g, s'))
    ensures ParentsOk(P1, ReplaceAt(T, g, s'), Null)
    ensures Refs(ReplaceAt(T, g, s')) == Refs(T) && InorderRefs(ReplaceAt(T, g, s')) == InorderRefs(T)
    ensures T.Node? && T.ref == root && (ParentIn(T, g, Null).Null? <==> g == root)
  {
    ShapedRefs(L0, R0, Ptr(root), T);
    ParentInFacts(T, g, Null);
    PlugFix(L0, R0, P0, L1, R1, P1, T, g, s');
  }

  /** The colour part of `LeftFixed`: the new `z` stays red, the new subtree root and the
      tree root are black, and a red-black tree keeps its rules. */
  lemma LeftRecolored(C0: map<Ref, Color>, C1: map<Ref, Color>, root: Ref, z: Ref, p: Ref, g: Ref,
                      T: Tree, ok: bool, root': Ref, nz: Ref, top: Ref)
    requires T.Node? && T.ref == root && Distinct(T) && Refs(T) <= C0.Keys && z in Refs(T) && z != root
    requires C0[z] == Red && C0[root] == Black
    requires ok ==> BlackBalanced(C0, T) && RedOk(C0, T, false, Ptr(z))
    requires g in Refs(T) && SubAt(T, g).left.Node? && SubAt(T, g).left.ref == p && p != g
    requires Root(SubAt(T, g).left.left) == Ptr(z) || Root(SubAt(T, g).left.right) == Ptr(z)
    requires p in C0 && C0[p] == Red && (SubAt(T, g).right.Node? ==> SubAt(T, g).right.ref in C0)
    requires !IsRed(C0, Root(SubAt(T, g).right))
    requires top == LeftFix(SubAt(T, g), z).ref && C1 == C0[top := Black][g := Red]
    requires root' == (if g == root then top else root)
    requires nz == (if Root(SubAt(T, g).left.left) == Ptr(z) then z else p)
    ensures top in C1 && C1[top] == Black && nz in C1 && C1[nz] == Red
    ensures root' in C1 && C1[root'] == Black
    ensures Refs(ReplaceAt(T, g, LeftFix(SubAt(T, g), z))) <= C1.Keys
    ensures ok ==> BlackBalanced(C1, ReplaceAt(T, g, LeftFix(SubAt(T, g), z)))
    ensures ok ==> RedOk(C1, ReplaceAt(T, g, LeftFix(SubAt(T, g), z)), false, Ptr(nz))
  {
    var s := SubAt(T, g);
    SubDistinct(T, g);
    ReplaceAtRefs(T, g, LeftFix(s, z));
    assert g != T.ref ==> T.ref !in Refs(s);
    if ok {
      LeftFixInTree(C0, T, z, g);
      RedOkAway(C1, ReplaceAt(T, g, LeftFix(s, z)), false, Null, Ptr(nz));
    }
  }

  /** The mirror image of `LeftRecolored`. */
  lemma RightRecolored(C0: map<Ref, Color>, C1: map<Ref, Color>, root: Ref, z: Ref, p: Ref, g: Ref,
                       T: Tree, ok: bool, root': Ref, nz: Ref, top: Ref)
    requires T.Node? && T.ref == root && Distinct(T) && Refs(T) <= C0.Keys && z in Refs(T) && z != root
    requires C0[z] == Red && C0[root] == Black
    requires ok ==> BlackBalanced(C0, T) && RedOk(C0, T, false, Ptr(z))
    requires g in Refs(T) && SubAt(T, g).right.Node? && SubAt(T, g).right.ref == p && p != g
    requires Root(SubAt(T, g).right.right) == Ptr(z) || Root(SubAt(T, g).right.left) == Ptr(z)
    requires p in C0 && C0[p] == Red && (SubAt(T, g).left.Node? ==> SubAt(T, g).left.ref in C0)
    requires !IsRed(C0, Root(SubAt(T, g).left))
    requires top == RightFix(SubAt(T, g), z).ref && C1 == C0[top := Black][g := Red]
    requires root' == (if g == root then top else root)
    requires nz == (if Root(SubAt(T, g).right.right) == Ptr(z) then z else p)
    ensures top in C1 && C1[top] == Black && nz in C1 && C1[nz] == Red
    ensures root' in C1 && C1[root'] == Black
    ensures Refs(ReplaceAt(T, g, RightFix(SubAt(T, g), z))) <= C1.Keys
    ensures ok ==> BlackBalanced(C1, ReplaceAt(T, g, RightFix(SubAt(T, g), z)))
    ensures ok ==> RedOk(C1, ReplaceAt(T, g, RightFix(SubAt(T, g), z)), false, Ptr(nz))
  {
    var s := SubAt(T, g);
    SubDistinct(T, g);
    ReplaceAtRefs(T, g, RightFix(s, z));
    assert g != T.ref ==> T.ref !in Refs(s);
    if ok {
      RightFixInTree(C0, T, z, g);
      RedOkAway(C1, ReplaceAt(T, g, RightFix(s, z)), false, Null, Ptr(nz));
    }
  }

  /** Both child fields of a node of `T` point into `T`. */
  lemma ChildrenIn(L: map<Ref, Ptr>, R: map<Ref, Ptr>, T: Tree, g: Ref)
    requires Shaped(L, R, Root(T), T) && g in Refs(T)
    ensures g in L && g in R
    ensures (L[g].Ptr? ==> L[g].ref in Refs(T)) && (R[g].Ptr? ==> R[g].ref in Refs(T))
  {
    ShapedSub(L, R, T, g);
    ShapedRefs(L, R, L[g], SubAt(T, g).left);
    ShapedRefs(L, R, R[g], SubAt(T, g).right);
  }

  /** The state after the red leaf `n` holding `v` is inserted below `root0` is the
      starting state of the fix-up loop, with `z` the new leaf; `ok` records whether the
      tree was red-black before. */
  /** The insertion of `rbtInsert` changes links only on the nodes of `s` and adds `n`;
      the fix-up changes links and colours only on `s` and `n`: together they change
      nothing outside `s`. */
  lemma InsertFixFrames(L0: map<Ref, Ptr>, R0: map<Ref, Ptr>, P0: map<Ref, Ptr>, C0: map<Ref, Color>,
                        L1: map<Ref, Ptr>, R1: map<Ref, Ptr>, P1: map<Ref, Ptr>, C1: map<Ref, Color>,
                        L2: map<Ref, Ptr>, R2: map<Ref, Ptr>, P2: map<Ref, Ptr>, C2: map<Ref, Color>,
                        s: set<Ref>, s': set<Ref>, n: Ref)
    requires Keeps(L0, L1, s) && Keeps(R0, R1, s) && Keeps(P0, P1, s) && C1 == C0[n := Red]
    requires Keeps(L1, L2, s') && Keeps(R1, R2, s') && Keeps(P1, P2, s') && Keeps(C1, C2, s')
    requires s' <= s + {n} && n !in L0 && n !in R0 && n !in P0 && n !in C0
    ensures Keeps(L0, L2, s) && Keeps(R0, R2, s) && Keeps(P0, P2, s) && Keeps(C0, C2, s)
  {
    KeepsCompose(L0, L1, L2, s, s', s, n);
    KeepsCompose(R0, R1, R2, s, s', s, n);
    KeepsCompose(P0, P1, P2, s, s', s, n);
    KeepsCompose(C0, C1, C2, {}, s', s, n);
  }

  lemma StartFixing(L: map<Ref, Ptr>, R: map<Ref, Ptr>, P: map<Ref, Ptr>, V0: map<Ref, real>,
                    C0: map<Ref, Color>, root0: Ptr, t: Tree, v: real, n: Ref, root: Ref)
    requires Refs(t) <= V0.Keys && Refs(t) <= C0.Keys && n !in Refs(t) && Distinct(t)
    requires Shaped(L, R, Ptr(root), SearchTree.Insert(V0, t, v, n))
    requires ParentsOk(P, SearchTree.Insert(V0, t, v, n), Null)
    requires root == (if t.Nil? then n else t.ref) && (t.Node? ==> C0[t.ref] == Black)
    ensures Fixing(L, R, P, V0[n := v], C0[n := Red], root, n, SearchTree.Insert(V0, t, v, n),
                   IsRedBlack(C0, t))
  {
    var u := SearchTree.Insert(V0, t, v, n);
    SearchTree.InsertDistinct(V0, t, v, n);
    ShapedRefs(L, R, Ptr(root), u);
    Family(L, R, P, u, n);
    if IsRedBlack(C0, t) {
      InsertRed(V0, C0, t, v, n, false);
    }
  }

  /** When the loop stops, `z` is the root or has a black parent; blackening the root
      then gives a red-black tree when the loop state says the rules were kept. */
  lemma EndFixing(L: map<Ref, Ptr>, R: map<Ref, Ptr>, P: map<Ref, Ptr>, V: map<Ref, real>,
                  C: map<Ref, Color>, root: Ref, z: Ref, T: Tree, ok: bool)
    requires Fixing(L, R, P, V, C, root, z, T, ok)
    requires !(P[z].Ptr? && C[P[z].ref] == Red)
    ensures T.Node? && T.ref == root && Refs(T) <= C[root := Black].Keys
    ensures ok ==> IsRedBlack(C[root := Black], T)
  {
    ShapedRefs(L, R, Ptr(root), T);
    if ok {
      Family(L, R, P, T, z);
      Settled(C, T, Null, false, z);
      BlackenRoot(C, T);
    }
  }

  /** `x.left = kid` after the left subtree of `t` was rebuilt into `l'` in place: the
      fields spell out `t` with `l'` as its left subtree. */
  lemma GraftShapeLeft(L0: map<Ref, Ptr>, R0: map<Ref, Ptr>, L1: map<Ref, Ptr>, R1: map<Ref, Ptr>,
                       t: Tree, l': Tree, kid: Ptr)
    requires t.Node? && Shaped(L0, R0, Root(t), t) && Distinct(t) && Refs(l') <= Refs(t.left)
    requires Shaped(L1, R1, kid, l') && Keeps(L0, L1, Refs(t.left)) && Keeps(R0, R1, Refs(t.left))
    ensures Shaped(L1[t.ref := kid], R1, Ptr(t.ref), Node(l', t.ref, t.right))
    ensures Keeps(L0, L1[t.ref := kid], Refs(t)) && Keeps(R0, R1, Refs(t))
  {
    var Node(l, x, rt) := t;
    var L2 := L1[x := kid];
    ShapedRefs(L0, R0, L0[x], l);
    ShapedRefs(L0, R0, R0[x], rt);
    ShapedRefs(L1, R1, kid, l');
    KeepsAgree(L0, L1, Refs(l), Refs(rt));
    KeepsAgree(R0, R1, Refs(l), Refs(rt));
    ShapedFrame(L1, R1, L2, R1, kid, l');
    ShapedFrame(L0, R0, L2, R1, R0[x], rt);
  }

  /** The mirror image of `GraftShapeLeft`. */
  lemma GraftShapeRight(L0: map<Ref, Ptr>, R0: map<Ref, Ptr>, L1: map<Ref, Ptr>, R1: map<Ref, Ptr>,
                        t: Tree, r': Tree, kid: Ptr)
    requires t.Node? && Shaped(L0, R0, Root(t), t) && Distinct(t) && Refs(r') <= Refs(t.right)
    requires Shaped(L1, R1, kid, r') && Keeps(L0, L1, Refs(t.right)) && Keeps(R0, R1, Refs(t.right))
    ensures Shaped(L1, R1[t.ref := kid], Ptr(t.ref), Node(t.left, t.ref, r'))
    ensures Keeps(L0, L1, Refs(t)) && Keeps(R0, R1[t.ref := kid], Refs(t))
  {
    var Node(l, x, rt) := t;
    var R2 := R1[x := kid];
    ShapedRefs(L0, R0, L0[x], l);
    ShapedRefs(L0, R0, R0[x], rt);
    ShapedRefs(L1, R1, kid, r');
    KeepsAgree(L0, L1, Refs(rt), Refs(l));
    KeepsAgree(R0, R1, Refs(rt), Refs(l));
    ShapedFrame(L1, R1, L1, R2, kid, r');
    ShapedFrame(L0, R0, L1, R2, L0[x], l);
  }

  /** Every node `q` of `t` is drawn at column `index + Column(t, q)` and row
      `depth + Depth(t, q)`, with `H_GAP` and `V_GAP` between neighbouring columns and rows. */
  ghost predicate LaidOut(X: map<Ref, int>, Y: map<Ref, int>, t: Tree, depth: int, index: int) {
    forall q :: q in Refs(t) ==>
      q in X && q in Y && X[q] == (index + Column(t, q)) * H_GAP && Y[q] == (depth + Depth(t, q)) * V_GAP
  }

  /** The layout of a node from the layouts of its two subtrees: the left subtree from
      column `index`, the node itself at the next column, the right subtree after it. */
  lemma LayoutJoin(t: Tree, depth: nat, index: nat, i1: nat, X0: map<Ref, int>, Y0: map<Ref, int>,
                   X1: map<Ref, int>, Y1: map<Ref, int>, X: map<Ref, int>, Y: map<Ref, int>)
    requires t.Node? && Distinct(t) && i1 == index + Size(t.left)
    requires Keeps(X0, X1, Refs(t.left)) && Keeps(Y0, Y1, Refs(t.left))
    requires LaidOut(X1, Y1, t.left, depth + 1, index)
    requires LaidOut(X, Y, t.right, depth + 1, i1 + 1)
    requires Keeps(X1[t.ref := i1 * H_GAP], X, Refs(t.right))
    requires Keeps(Y1[t.ref := depth * V_GAP], Y, Refs(t.right))
    ensures LaidOut(X, Y, t, depth, index)
    ensures Keeps(X0, X, Refs(t)) && Keeps(Y0, Y, Refs(t))
  {
    forall q | q in Refs(t.right) ensures index + Column(t, q) == i1 + 1 + Column(t.right, q) {
    }
  }

  /** A laid-out tree is drawn left to right in in-order: `x` strictly increases along the
      in-order walk. */
  lemma LayoutIncreasing(X: map<Ref, int>, Y: map<Ref, int>, t: Tree)
    requires Distinct(t) && LaidOut(X, Y, t, 0, 0)
    ensures forall q :: q in InorderRefs(t) ==> q in X
    ensures forall i, j :: 0 <= i < j < |InorderRefs(t)| ==> X[InorderRefs(t)[i]] < X[InorderRefs(t)[j]]
  {
    var s := InorderRefs(t);
    InorderMembers(t);
    DistinctInorder(t);
    forall i | 0 <= i < |s| ensures s[i] in X && X[s[i]] == i * H_GAP {
      ColumnInorder(t, s[i]);
    }
  }

  /** The right-skewed tree 1, 2, 3 (each node the right child of the one before) is drawn
      down a diagonal: columns 0, 70, 140 and rows 0, 90, 180. */
  lemma LayoutRightSkewed(X: map<Ref, int>, Y: map<Ref, int>)
    requires LaidOut(X, Y, Node(Nil, 0, Node(Nil, 1, Node(Nil, 2, Nil))), 0, 0)
    ensures X[0] == 0 && X[1] == 70 && X[2] == 140
    ensures Y[0] == 0 && Y[1] == 90 && Y[2] == 180
  {
    var t := Node(Nil, 0, Node(Nil, 1, Node(Nil, 2, Nil)));
    assert 0 in Refs(t) && 1 in Refs(t) && 2 in Refs(t);
  }

  /** The parent fields of the two children of the root of `t` name the root. */
  lemma ChildParents(P: map<Ref, Ptr>, t: Tree, par: Ptr)
    requires t.Node? && ParentsOk(P, t, par)
    ensures t.left.Node? ==> t.left.ref in P && P[t.left.ref] == Ptr(t.ref)
    ensures t.right.Node? ==> t.right.ref in P && P[t.right.ref] == Ptr(t.ref)
  {
  }

  class Nodes {
    var left: map<Ref, Ptr>
    var right: map<Ref, Ptr>
    var parent: map<Ref, Ptr>
    var value: map<Ref, real>
    var color: map<Ref, Color>
    var posX: map<Ref, int>
    var posY: map<Ref, int>
    /** The identity the next created node gets. */
    var next: nat

    /** Every node has every field, and only created nodes exist. */
    ghost predicate Valid()
      reads this
    {
      Dom(left, next) && Dom(right, next) && Dom(parent, next) && Dom(value, next) &&
      Dom(color, next) && Dom(posX, next) && Dom(posY, next)
    }

    /** `p` is the root of a whole tree of shape `t`: linked, without sharing, with correct
        parent fields (the root's is `null`), and every node carries a value and a colour. */
    ghost predicate IsTree(p: Ptr, t: Tree)
      reads this
    {
      Shaped(left, right, p, t) && Distinct(t) && ParentsOk(parent, t, Null) &&
      Refs(t) <= value.Keys && Refs(t) <= color.Keys
    }

    constructor ()
      ensures Valid() && left == map[] && next == 0
    {
      left, right, parent, value, color, posX, posY := map[], map[], map[], map[], map[], map[], map[];
      next := 0;
    }

    /** `createNode`: a fresh node with no links, the given value and colour, at (0, 0). */
    method CreateNode(v: real, c: Color) returns (n: Ref)
      requires Valid()
      modifies this`left, this`right, this`parent, this`value, this`color, this`posX, this`posY, this`next
      ensures Valid()
      ensures n == old(next) && n !in old(left) && next == old(next) + 1
      ensures left == old(left)[n := Null] && right == old(right)[n := Null] && parent == old(parent)[n := Null]
      ensures value == old(value)[n := v] && color == old(color)[n := c]
      ensures posX == old(posX)[n := 0] && posY == old(posY)[n := 0]
    {
      n := next;
      DomAdd(left, n, Null);
      DomAdd(right, n, Null);
      DomAdd(parent, n, Null);
      DomAdd(value, n, v);
      DomAdd(color, n, c);
      DomAdd(posX, n, 0);
      DomAdd(posY, n, 0);
      left := left[n := Null];
      right := right[n := Null];
      parent := parent[n := Null];
      value := value[n := v];
      color := color[n := c];
      posX := posX[n := 0];
      posY := posY[n := 0];
      next := next + 1;
    }

    /** The field assignment `q.left = p`. */
    method SetLeft(q: Ref, p: Ptr)
      requires Valid() && q in left
      modifies this`left
      ensures Valid() && left == old(left)[q := p]
    {
      DomPut(left, next, q, p);
      left := left[q := p];
    }

    /** The field assignment `q.right = p`. */
    method SetRight(q: Ref, p: Ptr)
      requires Valid() && q in right
      modifies this`right
      ensures Valid() && right == old(right)[q := p]
    {
      DomPut(right, next, q, p);
      right := right[q := p];
    }

    /** The field assignment `q.parent = p`. */
    method SetParent(q: Ref, p: Ptr)
      requires Valid() && q in parent
      modifies this`parent
      ensures Valid() && parent == old(parent)[q := p]
    {
      DomPut(parent, next, q, p);
      parent := parent[q := p];
    }

    /** The field assignment `q.color = c`. */
    method SetColor(q: Ref, c: Color)
      requires Valid() && q in color
      modifies this`color
      ensures Valid() && color == old(color)[q := c]
    {
      DomPut(color, next, q, c);
      color := color[q := c];
    }

    /** The field assignment `q.value = v`. */
    method SetValue(q: Ref, v: real)
      requires Valid() && q in value
      modifies this`value
      ensures Valid() && value == old(value)[q := v]
    {
      DomPut(value, next, q, v);
      value := value[q := v];
    }

    /** The field assignments `q.x = px; q.y = py`. */
    method SetPosition(q: Ref, px: int, py: int)
      requires Valid() && q in posX
      modifies this`posX, this`posY
      ensures Valid() && posX == old(posX)[q := px] && posY == old(posY)[q := py]
    {
      DomPut(posX, next, q, px);
      DomPut(posY, next, q, py);
      posX, posY := posX[q := px], posY[q := py];
    }

    /** `height`: the height of the tree reached from `p`. */
    function HeightOf(p: Ptr, ghost t: Tree): (h: nat)
      reads this
      requires Shaped(left, right, p, t)
      ensures h == Height(t)
      decreases t
    {
      if p.Null? then 0 else 1 + Max(HeightOf(left[p.ref], t.left), HeightOf(right[p.ref], t.right))
    }

    /** `balanceFactor`: left height minus right height of the node at `p`; 0 for `null`. */
    function BalanceFactorOf(p: Ptr, ghost t: Tree): (b: int)
      reads this
      requires Shaped(left, right, p, t)
      ensures b == BalanceFactor(t)
    {
      if p.Null? then 0 else HeightOf(left[p.ref], t.left) - HeightOf(right[p.ref], t.right)
    }

    /** `rotateLeft` at `x`, the root of the subtree `s` hanging from `par`: `x`'s right child
        `y` takes `x`'s place (also in `par`'s child field) and `x` becomes `y`'s left child. */
    method RotateLeft(x: Ref, ghost s: Tree, ghost par: Ptr) returns (y: Ref)
      requires Valid() && Hangs(left, right, parent, s, par) && s.ref == x && s.right.Node?
      modifies this`left, this`right, this`parent
      ensures Valid()
      ensures y == s.right.ref
      ensures Hangs(left, right, parent, Shapes.RotateLeft(s), par)
      ensures Relinked(old(left), old(right), left, right, par, x, Ptr(y))
      ensures Keeps(old(left), left, {x, y} + PtrRefs(par)) && Keeps(old(right), right, {x, y} + PtrRefs(par))
      ensures Keeps(old(parent), parent, Refs(s))
    {
      ShapedRefs(left, right, Ptr(x), s);
      ShapedRefs(left, right, right[x], s.right);
      ShapedRefs(left, right, left[s.right.ref], s.right.left);
      ParentsRefs(parent, s, par);
      assert Distinct(s.right) && x !in Refs(s.right);
      y := right[x].ref;
      SetRight(x, left[y]);
      if left[y].Ptr? {
        SetParent(left[y].ref, Ptr(x));
      }
      SetParent(y, parent[x]);
      if parent[x].Ptr? {
        var q := parent[x].ref;
        if left[q] == Ptr(x) {
          SetLeft(q, Ptr(y));
        } else {
          SetRight(q, Ptr(y));
        }
      }
      SetLeft(y, Ptr(x));
      SetParent(x, Ptr(y));
      RotateLeftShape(old(left), old(right), left, right, s, par);
      RotateLeftParents(old(parent), parent, s, par);
      RotateDistinct(s);
    }

    /** `rotateRight` at `y`, the mirror image of `RotateLeft`. */
    method RotateRight(y: Ref, ghost s: Tree, ghost par: Ptr) returns (x: Ref)
      requires Valid() && Hangs(left, right, parent, s, par) && s.ref == y && s.left.Node?
      modifies this`left, this`right, this`parent
      ensures Valid()
      ensures x == s.left.ref
      ensures Hangs(left, right, parent, Shapes.RotateRight(s), par)
      ensures Relinked(old(left), old(right), left, right, par, y, Ptr(x))
      ensures Keeps(old(left), left, {x, y} + PtrRefs(par)) && Keeps(old(right), right, {x, y} + PtrRefs(par))
      ensures Keeps(old(parent), parent, Refs(s))
    {
      ShapedRefs(left, right, Ptr(y), s);
      ShapedRefs(left, right, left[y], s.left);
      ShapedRefs(left, right, right[s.left.ref], s.left.right);
      ParentsRefs(parent, s, par);
      assert Distinct(s.left) && y !in Refs(s.left);
      x := left[y].ref;
      SetLeft(y, right[x]);
      if right[x].Ptr? {
        SetParent(right[x].ref, Ptr(y));
      }
      SetParent(x, parent[y]);
      if parent[y].Ptr? {
        var q := parent[y].ref;
        if left[q] == Ptr(y) {
          SetLeft(q, Ptr(x));
        } else {
          SetRight(q, Ptr(x));
        }
      }
      SetRight(x, Ptr(y));
      SetParent(y, Ptr(x));
      RotateRightShape(old(left), old(right), left, right, s, par);
      RotateRightParents(old(parent), parent, s, par);
      RotateDistinct(s);
    }

    /** `bstInsert` (new node black) and the inner `bstInsertRed` of `rbtInsert` (new node
        red): descend from `p` to the left when `v` is below the node's value and to the
        right otherwise, hang a new node where `null` is reached, and relink each node on the
        way to its child and the child's parent to the node. Returns the subtree root and the
        new node. */
    method InsertAt(p: Ptr, v: real, c: Color, ghost t: Tree, ghost top: Ptr) returns (r: Ref, n: Ref)
      requires Valid() && Shaped(left, right, p, t) && Distinct(t) && Refs(t) <= value.Keys
      modifies this`left, this`right, this`parent, this`value, this`color, this`posX, this`posY, this`next
      ensures Valid() && n == old(next) && next == old(next) + 1
      ensures Shaped(left, right, Ptr(r), SearchTree.Insert(old(value), t, v, n))
      ensures r == (if t.Nil? then n else t.ref)
      ensures value == old(value)[n := v] && color == old(color)[n := c]
      ensures posX == old(posX)[n := 0] && posY == old(posY)[n := 0]
      ensures Keeps(old(left), left, Refs(t)) && Keeps(old(right), right, Refs(t))
      ensures Keeps(old(parent), parent, Refs(t) - (if t.Nil? then {} else {t.ref}))
      ensures old(ParentsOk(parent, t, top)) ==>
                ParentsOk(parent, SearchTree.Insert(old(value), t, v, n), if t.Nil? then Null else top)
      decreases t, 1
    {
      if p.Null? {
        n := CreateNode(v, c);
        r := n;
        return;
      }
      r := p.ref;
      if v < value[r] {
        n := InsertLeftOf(r, v, c, t, top);
      } else {
        n := InsertRightOf(r, v, c, t, top);
      }
    }

    /** The step of `InsertAt` at a node `x` whose value exceeds `v`: insert into the left
        subtree, then `x.left = kid; kid.parent = x`. */
    method InsertLeftOf(x: Ref, v: real, c: Color, ghost t: Tree, ghost top: Ptr) returns (n: Ref)
      requires x in value && v < value[x]
      requires Valid() && Shaped(left, right, Ptr(x), t) && Distinct(t) && Refs(t) <= value.Keys
      modifies this`left, this`right, this`parent, this`value, this`color, this`posX, this`posY, this`next
      ensures Valid() && n == old(next) && next == old(next) + 1
      ensures Shaped(left, right, Ptr(x), SearchTree.Insert(old(value), t, v, n))
      ensures value == old(value)[n := v] && color == old(color)[n := c]
      ensures posX == old(posX)[n := 0] && posY == old(posY)[n := 0]
      ensures Keeps(old(left), left, Refs(t)) && Keeps(old(right), right, Refs(t))
      ensures Keeps(old(parent), parent, Refs(t) - {x})
      ensures old(ParentsOk(parent, t, top)) ==> ParentsOk(parent, SearchTree.Insert(old(value), t, v, n), top)
      decreases t, 0
    {
      ShapedRefs(left, right, Ptr(x), t);
      ghost var L0, R0, P0, V0 := left, right, parent, value;
      assert next !in parent && next !in Refs(t);
      var kid;
      kid, n := InsertAt(left[x], v, c, t.left, Ptr(x));
      ghost var L1, R1, P1 := left, right, parent;
      SetLeft(x, Ptr(kid));
      SetParent(kid, Ptr(x));
      InsertShapeLeft(L0, R0, L1, R1, V0, t, v, n, kid);
      InsertParentsLeft(L0, R0, P0, L1, R1, P1, V0, t, v, n, kid, top);
    }

    /** The step of `InsertAt` at a node `x` whose value is at most `v`: insert into the right
        subtree, then `x.right = kid; kid.parent = x`. */
    method InsertRightOf(x: Ref, v: real, c: Color, ghost t: Tree, ghost top: Ptr) returns (n: Ref)
      requires x in value && !(v < value[x])
      requires Valid() && Shaped(left, right, Ptr(x), t) && Distinct(t) && Refs(t) <= value.Keys
      modifies this`left, this`right, this`parent, this`value, this`color, this`posX, this`posY, this`next
      ensures Valid() && n == old(next) && next == old(next) + 1
      ensures Shaped(left, right, Ptr(x), SearchTree.Insert(old(value), t, v, n))
      ensures value == old(value)[n := v] && color == old(color)[n := c]
      ensures posX == old(posX)[n := 0] && posY == old(posY)[n := 0]
      ensures Keeps(old(left), left, Refs(t)) && Keeps(old(right), right, Refs(t))
      ensures Keeps(old(parent), parent, Refs(t) - {x})
      ensures old(ParentsOk(parent, t, top)) ==> ParentsOk(parent, SearchTree.Insert(old(value), t, v, n), top)
      decreases t, 0
    {
      ShapedRefs(left, right, Ptr(x), t);
      ghost var L0, R0, P0, V0 := left, right, parent, value;
      assert next !in parent && next !in Refs(t);
      var kid;
      kid, n := InsertAt(right[x], v, c, t.right, Ptr(x));
      ghost var L1, R1, P1 := left, right, parent;
      SetRight(x, Ptr(kid));
      SetParent(kid, Ptr(x));
      InsertShapeRight(L0, R0, L1, R1, V0, t, v, n, kid);
      InsertParentsRight(L0, R0, P0, L1, R1, P1, V0, t, v, n, kid, top);
    }

    /** `bstInsert`: the new node is black. The result is the search-tree insertion of
        `SearchTree.Insert`, which keeps the values sorted and adds `v` to them. */
    method BstInsert(root: Ptr, v: real, ghost t: Tree) returns (r: Ref)
      requires Valid() && IsTree(root, t)
      modifies this`left, this`right, this`parent, this`value, this`color, this`posX, this`posY, this`next
      ensures Valid() && next == old(next) + 1
      ensures IsTree(Ptr(r), SearchTree.Insert(old(value), t, v, old(next)))
      ensures value == old(value)[old(next) := v] && color == old(color)[old(next) := Black]
      ensures posX == old(posX)[old(next) := 0] && posY == old(posY)[old(next) := 0]
      ensures multiset(SearchTree.Values(value, SearchTree.Insert(old(value), t, v, old(next)))) ==
              multiset(SearchTree.Values(old(value), t)) + multiset{v}
      ensures SearchTree.Sorted(SearchTree.Values(old(value), t)) ==>
                SearchTree.Values(value, SearchTree.Insert(old(value), t, v, old(next))) ==
                SearchTree.InsertSorted(SearchTree.Values(old(value), t), v)
      ensures Keeps(old(left), left, Refs(t)) && Keeps(old(right), right, Refs(t))
      ensures Keeps(old(parent), parent, Refs(t))
    {
      ghost var V0, N := value, next;
      assert N !in Refs(t) by { ShapedRefs(left, right, root, t); }
      ghost var u := SearchTree.Insert(V0, t, v, N);
      var n;
      ghost var P0 := parent;
      r, n := InsertAt(root, v, Black, t, Null);
      assert Keeps(P0, parent, Refs(t)) by {
        KeepsWider(P0, parent, Refs(t) - (if t.Nil? then {} else {t.ref}), Refs(t));
      }
      assert Distinct(u) by { SearchTree.InsertDistinct(V0, t, v, N); }
      assert multiset(SearchTree.Values(value, u)) == multiset(SearchTree.Values(V0, t)) + multiset{v} by {
        SearchTree.InsertMultiset(V0, t, v, N);
      }
      if SearchTree.Sorted(SearchTree.Values(V0, t)) {
        assert SearchTree.Values(value, u) == SearchTree.InsertSorted(SearchTree.Values(V0, t), v) by {
          SearchTree.InsertValues(V0, t, v, N);
        }
      }
    }

    /** The four rotation cases `rebalance` of `avlInsert` applies at one node `x`, after both
        subtrees of `x` were rebalanced: the node is restructured as `Avl.Fix` says. */
    method FixAt(x: Ref, ghost m: Tree, ghost par: Ptr) returns (q: Ref)
      requires Valid() && Hangs(left, right, parent, m, par) && m.ref == x
      modifies this`left, this`right, this`parent
      ensures Valid() && Hangs(left, right, parent, Avl.Fix(m), par) && q == Avl.Fix(m).ref
      ensures Relinked(old(left), old(right), left, right, par, x, Ptr(q))
      ensures Keeps(old(left), left, Refs(m) + PtrRefs(par)) && Keeps(old(right), right, Refs(m) + PtrRefs(par))
      ensures Keeps(old(parent), parent, Refs(m))
    {
      var bf := BalanceFactorOf(Ptr(x), m);
      if bf > 1 && BalanceFactorOf(left[x], m.left) >= 0 {
        q := RotateRight(x, m, par);
      } else if bf < -1 && BalanceFactorOf(right[x], m.right) <= 0 {
        q := RotateLeft(x, m, par);
      } else if bf > 1 && BalanceFactorOf(left[x], m.left) < 0 {
        q := DoubleRight(x, m, par);
      } else if bf < -1 && BalanceFactorOf(right[x], m.right) > 0 {
        q := DoubleLeft(x, m, par);
      } else {
        q := x;
      }
    }

    /** The LR case: `node.left = rotateLeft(node.left)`, then `rotateRight(node)`. */
    method DoubleRight(x: Ref, ghost m: Tree, ghost par: Ptr) returns (q: Ref)
      requires Valid() && Hangs(left, right, parent, m, par) && m.ref == x
      requires m.left.Node? && m.left.right.Node?
      modifies this`left, this`right, this`parent
      ensures Valid() && q == m.left.right.ref
      ensures Hangs(left, right, parent, Shapes.RotateRight(Node(Shapes.RotateLeft(m.left), x, m.right)), par)
      ensures Relinked(old(left), old(right), left, right, par, x, Ptr(q))
      ensures Keeps(old(left), left, Refs(m) + PtrRefs(par)) && Keeps(old(right), right, Refs(m) + PtrRefs(par))
      ensures Keeps(old(parent), parent, Refs(m))
    {
      ghost var L0, R0, P0 := left, right, parent;
      ShapedRefs(left, right, left[x], m.left);
      var y := RotateLeft(left[x].ref, m.left, Ptr(x));
      assert left[x] == Ptr(y);
      UpdateSame(left, x);
      SetLeft(x, Ptr(y));
      ghost var m' := Node(Shapes.RotateLeft(m.left), x, m.right);
      GraftLeft(L0, R0, P0, left, right, parent, m, par, Shapes.RotateLeft(m.left));
      q := RotateRight(x, m', par);
    }

    /** The RL case: `node.right = rotateRight(node.right)`, then `rotateLeft(node)`. */
    method DoubleLeft(x: Ref, ghost m: Tree, ghost par: Ptr) returns (q: Ref)
      requires Valid() && Hangs(left, right, parent, m, par) && m.ref == x
      requires m.right.Node? && m.right.left.Node?
      modifies this`left, this`right, this`parent
      ensures Valid() && q == m.right.left.ref
      ensures Hangs(left, right, parent, Shapes.RotateLeft(Node(m.left, x, Shapes.RotateRight(m.right))), par)
      ensures Relinked(old(left), old(right), left, right, par, x, Ptr(q))
      ensures Keeps(old(left), left, Refs(m) + PtrRefs(par)) && Keeps(old(right), right, Refs(m) + PtrRefs(par))
      ensures Keeps(old(parent), parent, Refs(m))
    {
      ghost var L0, R0, P0 := left, right, parent;
      ShapedRefs(left, right, right[x], m.right);
      ShapedRefs(left, right, left[x], m.left);
      assert left[x] != right[x];
      var y := RotateRight(right[x].ref, m.right, Ptr(x));
      assert right[x] == Ptr(y);
      UpdateSame(right, x);
      SetRight(x, Ptr(y));
      ghost var m' := Node(m.left, x, Shapes.RotateRight(m.right));
      GraftRight(L0, R0, P0, left, right, parent, m, par, Shapes.RotateRight(m.right));
      q := RotateLeft(x, m', par);
    }

    /** `rebalance` of `avlInsert`: rebalance the left subtree and store it in `node.left`,
        the same for the right, then apply `FixAt`. The new shape is `Avl.Rebalance(s)`. */
    method Rebalance(p: Ptr, ghost s: Tree, ghost par: Ptr) returns (q: Ptr)
      requires Valid() && Shaped(left, right, p, s) && Distinct(s) && ParentsOk(parent, s, par)
      requires s.Node? ==> Hangs(left, right, parent, s, par)
      modifies this`left, this`right, this`parent
      ensures Valid() && Shaped(left, right, q, Avl.Rebalance(s)) && ParentsOk(parent, Avl.Rebalance(s), par)
      ensures s.Nil? ==> q == Null && left == old(left) && right == old(right) && parent == old(parent)
      ensures s.Node? ==> Relinked(old(left), old(right), left, right, par, s.ref, q)
      ensures Keeps(old(left), left, Refs(s) + PtrRefs(par)) && Keeps(old(right), right, Refs(s) + PtrRefs(par))
      ensures Keeps(old(parent), parent, Refs(s))
      decreases s, 1
    {
      if p.Null? {
        return Null;
      }
      var x := p.ref;
      RebalanceLeftOf(x, s, par);
      ghost var s1 := Node(Avl.Rebalance(s.left), x, s.right);
      RebalanceRightOf(x, s1, par);
      var y := FixAt(x, Node(Avl.Rebalance(s.left), x, Avl.Rebalance(s.right)), par);
      q := Ptr(y);
    }

    /** `node.left = rebalance(node.left)` at the root `x` of `s`. */
    method RebalanceLeftOf(x: Ref, ghost s: Tree, ghost par: Ptr)
      requires Valid() && Hangs(left, right, parent, s, par) && s.ref == x
      modifies this`left, this`right, this`parent
      ensures Valid() && Hangs(left, right, parent, Node(Avl.Rebalance(s.left), x, s.right), par)
      ensures Keeps(old(left), left, Refs(s)) && Keeps(old(right), right, Refs(s))
      ensures Keeps(old(parent), parent, Refs(s.left))
      decreases s.left, 2
    {
      ghost var L0, R0, P0 := left, right, parent;
      ShapedRefs(left, right, left[x], s.left);
      var ql := Rebalance(left[x], s.left, Ptr(x));
      assert left[x] == ql;
      UpdateSame(left, x);
      SetLeft(x, ql);
      GraftLeft(L0, R0, P0, left, right, parent, s, par, Avl.Rebalance(s.left));
    }

    /** `node.right = rebalance(node.right)` at the root `x` of `s`. */
    method RebalanceRightOf(x: Ref, ghost s: Tree, ghost par: Ptr)
      requires Valid() && Hangs(left, right, parent, s, par) && s.ref == x
      modifies this`left, this`right, this`parent
      ensures Valid() && Hangs(left, right, parent, Node(s.left, x, Avl.Rebalance(s.right)), par)
      ensures Keeps(old(left), left, Refs(s)) && Keeps(old(right), right, Refs(s))
      ensures Keeps(old(parent), parent, Refs(s.right))
      decreases s.right, 2
    {
      ghost var L0, R0, P0 := left, right, parent;
      ShapedRefs(left, right, right[x], s.right);
      ShapedRefs(left, right, left[x], s.left);
      assert s.right.Node? ==> left[x] != Ptr(s.right.ref);
      var qr := Rebalance(right[x], s.right, Ptr(x));
      assert right[x] == qr;
      UpdateSame(right, x);
      SetRight(x, qr);
      GraftRight(L0, R0, P0, left, right, parent, s, par, Avl.Rebalance(s.right));
    }

    /** `avlInsert`: `bstInsert`, then `rebalance` from the root. Inserting into an AVL tree
        gives an AVL tree at most one level higher, holding the old values and `v`, in order. */
    method AvlInsert(root: Ptr, v: real, ghost t: Tree) returns (r: Ref)
      requires Valid() && IsTree(root, t)
      modifies this`left, this`right, this`parent, this`value, this`color, this`posX, this`posY, this`next
      ensures Valid() && next == old(next) + 1
      ensures IsTree(Ptr(r), Avl.Rebalance(SearchTree.Insert(old(value), t, v, old(next))))
      ensures value == old(value)[old(next) := v] && color == old(color)[old(next) := Black]
      ensures multiset(SearchTree.Values(value, Avl.Rebalance(SearchTree.Insert(old(value), t, v, old(next))))) ==
              multiset(SearchTree.Values(old(value), t)) + multiset{v}
      ensures SearchTree.Sorted(SearchTree.Values(old(value), t)) ==>
                SearchTree.Values(value, Avl.Rebalance(SearchTree.Insert(old(value), t, v, old(next)))) ==
                SearchTree.InsertSorted(SearchTree.Values(old(value), t), v)
      ensures Avl.Balanced(t) ==>
                var u := Avl.Rebalance(SearchTree.Insert(old(value), t, v, old(next)));
                Avl.Balanced(u) && Height(t) <= Height(u) <= Height(t) + 1
      ensures posX == old(posX)[old(next) := 0] && posY == old(posY)[old(next) := 0]
      ensures Keeps(old(left), left, Refs(t)) && Keeps(old(right), right, Refs(t))
      ensures Keeps(old(parent), parent, Refs(t))
    {
      ghost var V0, N := value, next;
      var b := BstInsert(root, v, t);
      ghost var u := SearchTree.Insert(V0, t, v, N);
      var q := Rebalance(Ptr(b), u, Null);
      r := q.ref;
      SearchTree.ValuesInorder(value, u, Avl.Rebalance(u));
      if Avl.Balanced(t) {
        Avl.InsertBalanced(V0, t, v, N);
      }
    }

    /** The loop test of `rbtInsert`'s fix-up: `z` has a parent and the parent is red. */
    function RedParent(z: Ref): bool
      reads this
      requires z in parent && (parent[z].Ptr? ==> parent[z].ref in color)
    {
      parent[z].Ptr? && color[parent[z].ref] == Red
    }

    /** What holds at the head of each pass of the fix-up loop: a linked tree of shape `T`
        rooted at `root`, `z` one of its red nodes, the root black unless it is `z`, and, when
        the tree was red-black before the insertion (`ok`), balanced black heights and no
        red node with a red child except `z` below a red parent. */
    ghost predicate FixInv(root: Ref, z: Ref, T: Tree, ok: bool)
      reads this
    {
      Valid() && Fixing(left, right, parent, value, color, root, z, T, ok)
    }

    /** Case 1 of the fix-up (the uncle `y` is red): the parent `p` and `y` turn black, the
        grandparent `g` red, and `z` moves up to `g`. */
    method RecolorUp(root: Ref, z: Ref, p: Ref, y: Ptr, g: Ref, ghost T: Tree, ghost ok: bool) returns (z': Ref)
      requires FixInv(root, z, T, ok) && parent[z] == Ptr(p) && p in parent && parent[p] == Ptr(g)
      requires p in color && color[p] == Red && y.Ptr? && y.ref in color && color[y.ref] == Red
      requires g in left && g in right
      requires (left[g] == Ptr(p) && right[g] == y) || (right[g] == Ptr(p) && left[g] == y)
      modifies this`color
      ensures z' == g && FixInv(root, g, T, ok) && Depth(T, g) + 2 == Depth(T, z)
      ensures color == old(color)[p := Black][y.ref := Black][g := Red]
    {
      Family(left, right, parent, T, z);
      Family(left, right, parent, T, p);
      Family(left, right, parent, T, g);
      SetColor(p, Black);
      if y.Ptr? {
        SetColor(y.ref, Black);
      }
      SetColor(g, Red);
      z' := g;
      if ok {
        RecolorInTree(old(color), T, z, p, y.ref, g);
      }
    }

    /** Cases 2 and 3 of the fix-up with the parent the left child of the grandparent `g`,
        the root of `s`: when `z` is its parent's right child, `z = z.parent` and
        `rotateLeft(z)`; then `z.parent` turns black, `g` red, and `rotateRight(g)`. After
        each rotation the root is replaced when the new subtree root has no parent. */
    method FixLeftSide(root: Ref, z: Ref, g: Ref, ghost s: Tree, ghost par: Ptr) returns (root': Ref, nz: Ref, top: Ref)
      requires Valid() && Hangs(left, right, parent, s, par) && s.ref == g && s.left.Node?
      requires Root(s.left.left) == Ptr(z) || Root(s.left.right) == Ptr(z)
      requires Refs(s) <= color.Keys
      modifies this`left, this`right, this`parent, this`color
      ensures Valid() && Hangs(left, right, parent, LeftFix(s, z), par) && top == LeftFix(s, z).ref
      ensures Relinked(old(left), old(right), left, right, par, g, Ptr(top))
      ensures Keeps(old(left), left, Refs(s) + PtrRefs(par)) && Keeps(old(right), right, Refs(s) + PtrRefs(par))
      ensures Keeps(old(parent), parent, Refs(s))
      ensures color == old(color)[top := Black][g := Red]
      ensures root' == (if par.Null? then top else root)
      ensures nz == (if Root(s.left.left) == Ptr(z) then z else s.left.ref)
      ensures nz in parent && parent[nz] == Ptr(top)
    {
      ShapedRefs(left, right, left[g], s.left);
      ShapedRefs(left, right, right[s.left.ref], s.left.right);
      ChildParents(parent, s.left, Ptr(g));
      nz := z;
      root' := root;
      ghost var m := s;
      if right[parent[z].ref] == Ptr(z) {
        nz := parent[z].ref;
        root' := InnerLeft(root, nz, g, s, par);
        m := Node(Shapes.RotateLeft(s.left), g, s.right);
      }
      top := OuterRight(nz, g, m, par);
      if parent[top].Null? {
        root' := top;
      }
    }

    /** `z = z.parent; rotateLeft(z)` inside the subtree `s` at the grandparent `g`, with
        the root check after the rotation (the new subtree root hangs from `g`, so the root is
        kept). */
    method InnerLeft(root: Ref, p: Ref, g: Ref, ghost s: Tree, ghost par: Ptr) returns (root': Ref)
      requires Valid() && Hangs(left, right, parent, s, par) && s.ref == g && s.left.Node?
      requires s.left.ref == p && s.left.right.Node?
      modifies this`left, this`right, this`parent
      ensures Valid() && Hangs(left, right, parent, Node(Shapes.RotateLeft(s.left), g, s.right), par)
      ensures Keeps(old(left), left, Refs(s)) && Keeps(old(right), right, Refs(s))
      ensures Keeps(old(parent), parent, Refs(s.left))
      ensures root' == root
    {
      ghost var L0, R0, P0 := left, right, parent;
      ShapedRefs(left, right, left[g], s.left);
      root' := root;
      var sub := RotateLeft(p, s.left, Ptr(g));
      if parent[sub].Null? {
        root' := sub;
      }
      GraftLeft(L0, R0, P0, left, right, parent, s, par, Shapes.RotateLeft(s.left));
    }

    /** `z.parent.color = BLACK; gp.color = RED; rotateRight(gp)` at the root `g` of `m`,
        where `z` is the left grandchild of `g`. */
    method OuterRight(z: Ref, g: Ref, ghost m: Tree, ghost par: Ptr) returns (top: Ref)
      requires Valid() && Hangs(left, right, parent, m, par) && m.ref == g && m.left.Node?
      requires Root(m.left.left) == Ptr(z) && Refs(m) <= color.Keys
      modifies this`left, this`right, this`parent, this`color
      ensures Valid() && Hangs(left, right, parent, Shapes.RotateRight(m), par) && top == m.left.ref
      ensures Relinked(old(left), old(right), left, right, par, g, Ptr(top))
      ensures Keeps(old(left), left, Refs(m) + PtrRefs(par)) && Keeps(old(right), right, Refs(m) + PtrRefs(par))
      ensures Keeps(old(parent), parent, Refs(m))
      ensures color == old(color)[top := Black][g := Red]
      ensures z in parent && parent[z] == Ptr(top)
    {
      ChildParents(parent, m.left, Ptr(g));
      SetColor(parent[z].ref, Black);
      SetColor(g, Red);
      top := RotateRight(g, m, par);
      ChildParents(parent, Shapes.RotateRight(m), par);
    }

    /** The mirror image of `FixLeftSide`: the parent is the right child of `g`. */
    method FixRightSide(root: Ref, z: Ref, g: Ref, ghost s: Tree, ghost par: Ptr) returns (root': Ref, nz: Ref, top: Ref)
      requires Valid() && Hangs(left, right, parent, s, par) && s.ref == g && s.right.Node?
      requires Root(s.right.right) == Ptr(z) || Root(s.right.left) == Ptr(z)
      requires Refs(s) <= color.Keys
      modifies this`left, this`right, this`parent, this`color
      ensures Valid() && Hangs(left, right, parent, RightFix(s, z), par) && top == RightFix(s, z).ref
      ensures Relinked(old(left), old(right), left, right, par, g, Ptr(top))
      ensures Keeps(old(left), left, Refs(s) + PtrRefs(par)) && Keeps(old(right), right, Refs(s) + PtrRefs(par))
      ensures Keeps(old(parent), parent, Refs(s))
      ensures color == old(color)[top := Black][g := Red]
      ensures root' == (if par.Null? then top else root)
      ensures nz == (if Root(s.right.right) == Ptr(z) then z else s.right.ref)
      ensures nz in parent && parent[nz] == Ptr(top)
    {
      ShapedRefs(left, right, right[g], s.right);
      ShapedRefs(left, right, left[s.right.ref], s.right.left);
      ShapedRefs(left, right, right[s.right.ref], s.right.right);
      ChildParents(parent, s.right, Ptr(g));
      nz := z;
      root' := root;
      ghost var m := s;
      if left[parent[z].ref] == Ptr(z) {
        nz := parent[z].ref;
        root' := InnerRight(root, nz, g, s, par);
        m := Node(s.left, g, Shapes.RotateRight(s.right));
      }
      top := OuterLeft(nz, g, m, par);
      if parent[top].Null? {
        root' := top;
      }
    }

    /** `z = z.parent; rotateRight(z)`, the mirror image of `InnerLeft`. */
    method InnerRight(root: Ref, p: Ref, g: Ref, ghost s: Tree, ghost par: Ptr) returns (root': Ref)
      requires Valid() && Hangs(left, right, parent, s, par) && s.ref == g && s.right.Node?
      requires s.right.ref == p && s.right.left.Node?
      modifies this`left, this`right, this`parent
      ensures Valid() && Hangs(left, right, parent, Node(s.left, g, Shapes.RotateRight(s.right)), par)
      ensures Keeps(old(left), left, Refs(s)) && Keeps(old(right), right, Refs(s))
      ensures Keeps(old(parent), parent, Refs(s.right))
      ensures root' == root
    {
      ghost var L0, R0, P0 := left, right, parent;
      ShapedRefs(left, right, right[g], s.right);
      ShapedRefs(left, right, left[g], s.left);
      assert left[g] != right[g];
      root' := root;
      var sub := RotateRight(p, s.right, Ptr(g));
      if parent[sub].Null? {
        root' := sub;
      }
      GraftRight(L0, R0, P0, left, right, parent, s, par, Shapes.RotateRight(s.right));
    }

    /** `z.parent.color = BLACK; gp.color = RED; rotateLeft(gp)`, the mirror image of
        `OuterRight`. */
    method OuterLeft(z: Ref, g: Ref, ghost m: Tree, ghost par: Ptr) returns (top: Ref)
      requires Valid() && Hangs(left, right, parent, m, par) && m.ref == g && m.right.Node?
      requires Root(m.right.right) == Ptr(z) && Refs(m) <= color.Keys
      modifies this`left, this`right, this`parent, this`color
      ensures Valid() && Hangs(left, right, parent, Shapes.RotateLeft(m), par) && top == m.right.ref
      ensures Relinked(old(left), old(right), left, right, par, g, Ptr(top))
      ensures Keeps(old(left), left, Refs(m) + PtrRefs(par)) && Keeps(old(right), right, Refs(m) + PtrRefs(par))
      ensures Keeps(old(parent), parent, Refs(m))
      ensures color == old(color)[top := Black][g := Red]
      ensures z in parent && parent[z] == Ptr(top)
    {
      ChildParents(parent, m.right, Ptr(g));
      SetColor(parent[z].ref, Black);
      SetColor(g, Red);
      top := RotateLeft(g, m, par);
      ChildParents(parent, Shapes.RotateLeft(m), par);
    }

    /** Cases 2 and 3 of the fix-up when the parent `p` is the left child of `g` and the
        uncle is not red. Afterwards the parent of `z` is black, so the loop stops. */
    method FixLeft(root: Ref, z: Ref, p: Ref, g: Ref, ghost T: Tree, ghost ok: bool)
      returns (root': Ref, z': Ref, ghost T': Tree)
      requires FixInv(root, z, T, ok) && parent[z] == Ptr(p) && p in parent && parent[p] == Ptr(g)
      requires p in color && color[p] == Red && g in left && g in right && left[g] == Ptr(p)
      requires right[g].Ptr? ==> right[g].ref in color
      requires !IsRed(color, right[g])
      modifies this`left, this`right, this`parent, this`color
      ensures FixInv(root', z', T', ok) && !RedParent(z')
      ensures Refs(T') == Refs(T) && InorderRefs(T') == InorderRefs(T)
      ensures Keeps(old(left), left, Refs(T)) && Keeps(old(right), right, Refs(T))
      ensures Keeps(old(parent), parent, Refs(T)) && Keeps(old(color), color, Refs(T))
    {
      LeftCase(left, right, parent, T, z, p, g);
      ParentInFacts(T, g, Null);
      HangsSub(left, right, parent, T, g);
      ghost var L0, R0, P0, C0 := left, right, parent, color;
      var top;
      root', z', top := FixLeftSide(root, z, g, SubAt(T, g), ParentIn(T, g, Null));
      T' := ReplaceAt(T, g, LeftFix(SubAt(T, g), z));
      LeftFixed(L0, R0, P0, C0, left, right, parent, color, value, root, z, p, g, T, ok, root', z', top);
    }

    /** The mirror image of `FixLeft`: the parent `p` is the right child of `g`. */
    method FixRight(root: Ref, z: Ref, p: Ref, g: Ref, ghost T: Tree, ghost ok: bool)
      returns (root': Ref, z': Ref, ghost T': Tree)
      requires FixInv(root, z, T, ok) && parent[z] == Ptr(p) && p in parent && parent[p] == Ptr(g)
      requires p in color && color[p] == Red && g in left && g in right && right[g] == Ptr(p)
      requires left[g].Ptr? ==> left[g].ref in color
      requires !IsRed(color, left[g])
      modifies this`left, this`right, this`parent, this`color
      ensures FixInv(root', z', T', ok) && !RedParent(z')
      ensures Refs(T') == Refs(T) && InorderRefs(T') == InorderRefs(T)
      ensures Keeps(old(left), left, Refs(T)) && Keeps(old(right), right, Refs(T))
      ensures Keeps(old(parent), parent, Refs(T)) && Keeps(old(color), color, Refs(T))
    {
      RightCase(left, right, parent, T, z, p, g);
      ParentInFacts(T, g, Null);
      HangsSub(left, right, parent, T, g);
      ghost var L0, R0, P0, C0 := left, right, parent, color;
      var top;
      root', z', top := FixRightSide(root, z, g, SubAt(T, g), ParentIn(T, g, Null));
      T' := ReplaceAt(T, g, RightFix(SubAt(T, g), z));
      RightFixed(L0, R0, P0, C0, left, right, parent, color, value, root, z, p, g, T, ok, root', z', top);
    }

    /** One iteration of the fix-up loop of `rbtInsert`, for a red `z` with a red parent:
        the recolouring of case 1 moves `z` two levels up; cases 2 and 3 end the loop. */
    method FixStep(root: Ref, z: Ref, ghost T: Tree, ghost ok: bool) returns (root': Ref, z': Ref, ghost T': Tree)
      requires FixInv(root, z, T, ok) && RedParent(z)
      modifies this`left, this`right, this`parent, this`color
      ensures FixInv(root', z', T', ok) && Refs(T') == Refs(T) && InorderRefs(T') == InorderRefs(T)
      ensures RedParent(z') ==> Depth(T', z') < Depth(T, z)
      ensures Keeps(old(left), left, Refs(T)) && Keeps(old(right), right, Refs(T))
      ensures Keeps(old(parent), parent, Refs(T)) && Keeps(old(color), color, Refs(T))
    {
      Family(left, right, parent, T, z);
      var p := parent[z].ref;
      Family(left, right, parent, T, p);
      var g := parent[p].ref;
      ChildrenIn(left, right, T, g);
      if left[g] == Ptr(p) {
        var y := right[g];
        if IsRed(color, y) {
          z' := RecolorUp(root, z, p, y, g, T, ok);
          root', T' := root, T;
        } else {
          root', z', T' := FixLeft(root, z, p, g, T, ok);
        }
      } else {
        var y := left[g];
        if IsRed(color, y) {
          z' := RecolorUp(root, z, p, y, g, T, ok);
          root', T' := root, T;
        } else {
          root', z', T' := FixRight(root, z, p, g, T, ok);
        }
      }
    }

    /** `root = bstInsertRed(root, value); let z = inserted!` at the start of `rbtInsert`:
        the BST insertion of a red node `z`, after which the fix-up loop can start. */
    method InsertRed(root0: Ptr, v: real, ghost t: Tree) returns (root: Ref, z: Ref)
      requires Valid() && IsTree(root0, t) && (root0.Ptr? ==> root0.ref in color && color[root0.ref] == Black)
      modifies this`left, this`right, this`parent, this`value, this`color, this`posX, this`posY, this`next
      ensures Valid() && z == old(next) && next == old(next) + 1
      ensures FixInv(root, z, SearchTree.Insert(old(value), t, v, z), IsRedBlack(old(color), t))
      ensures value == old(value)[z := v] && color == old(color)[z := Red]
      ensures posX == old(posX)[z := 0] && posY == old(posY)[z := 0]
      ensures Keeps(old(left), left, Refs(t)) && Keeps(old(right), right, Refs(t))
      ensures Keeps(old(parent), parent, Refs(t))
    {
      ghost var V0, C0, P0, N := value, color, parent, next;
      assert N !in Refs(t) by { ShapedRefs(left, right, root0, t); }
      root, z := InsertAt(root0, v, Red, t, Null);
      assert Keeps(P0, parent, Refs(t)) by {
        KeepsWider(P0, parent, Refs(t) - (if t.Nil? then {} else {t.ref}), Refs(t));
      }
      StartFixing(left, right, parent, V0, C0, root0, t, v, N, root);
    }

    /** `rbtInsert`: a BST insertion of a red node `z`, then the fix-up loop while the
        parent of `z` is red, then the root turns black. The result holds the old values
        and `v` in order under a black root, and a red-black tree stays red-black. The
        source dereferences the grandparent of `z` unchecked, so it needs a root that is
        not red. */
    method RbtInsert(root0: Ptr, v: real, ghost t: Tree) returns (root: Ref, ghost T: Tree)
      requires Valid() && IsTree(root0, t) && (root0.Ptr? ==> root0.ref in color && color[root0.ref] == Black)
      modifies this`left, this`right, this`parent, this`value, this`color, this`posX, this`posY, this`next
      ensures Valid() && next == old(next) + 1 && IsTree(Ptr(root), T)
      ensures InorderRefs(T) == InorderRefs(SearchTree.Insert(old(value), t, v, old(next)))
      ensures value == old(value)[old(next) := v] && root in color && color[root] == Black
      ensures multiset(SearchTree.Values(value, T)) == multiset(SearchTree.Values(old(value), t)) + multiset{v}
      ensures SearchTree.Sorted(SearchTree.Values(old(value), t)) ==>
                SearchTree.Values(value, T) == SearchTree.InsertSorted(SearchTree.Values(old(value), t), v)
      ensures IsRedBlack(old(color), t) ==> IsRedBlack(color, T)
      ensures posX == old(posX)[old(next) := 0] && posY == old(posY)[old(next) := 0]
      ensures Keeps(old(left), left, Refs(t)) && Keeps(old(right), right, Refs(t))
      ensures Keeps(old(parent), parent, Refs(t)) && Keeps(old(color), color, Refs(t))
    {
      ghost var V0, C0, N := value, color, next;
      ghost var L0, R0, P0 := left, right, parent;
      ghost var u := SearchTree.Insert(V0, t, v, N);
      var z;
      root, z := InsertRed(root0, v, t);
      ghost var L1, R1, P1, C1 := left, right, parent, color;
      root, T := FixUp(root, z, u, IsRedBlack(C0, t));
      InsertFixFrames(L0, R0, P0, C0, L1, R1, P1, C1, left, right, parent, color, Refs(t), Refs(u), N);
      assert N !in Refs(t) by { ShapedRefs(L0, R0, root0, t); }
      assert value == V0[N := v];
      SearchTree.InsertReshaped(V0, t, v, N, T);
    }

    /** The fix-up loop of `rbtInsert` and the final `root.color = BLACK`. */
    method FixUp(root0: Ref, z0: Ref, ghost T0: Tree, ghost ok: bool) returns (root: Ref, ghost T: Tree)
      requires FixInv(root0, z0, T0, ok)
      modifies this`left, this`right, this`parent, this`color
      ensures Valid() && IsTree(Ptr(root), T) && root in color && color[root] == Black
      ensures Refs(T) == Refs(T0) && InorderRefs(T) == InorderRefs(T0)
      ensures ok ==> IsRedBlack(color, T)
      ensures Keeps(old(left), left, Refs(T0)) && Keeps(old(right), right, Refs(T0))
      ensures Keeps(old(parent), parent, Refs(T0)) && Keeps(old(color), color, Refs(T0))
    {
      var z;
      root, z, T := FixLoop(root0, z0, T0, ok);
      EndFixing(left, right, parent, value, color, root, z, T, ok);
      ghost var C1 := color;
      SetColor(root, Black);
      assert color == C1[root := Black] && root in Refs(T0);
    }

    /** `while (z.parent && z.parent.color === RED)`: the fix-up steps until the parent of
        `z` is not red, keeping the loop state; only links and colours of the tree's own
        nodes change. */
    method FixLoop(root0: Ref, z0: Ref, ghost T0: Tree, ghost ok: bool) returns (root: Ref, z: Ref, ghost T: Tree)
      requires FixInv(root0, z0, T0, ok)
      modifies this`left, this`right, this`parent, this`color
      ensures FixInv(root, z, T, ok) && !RedParent(z)
      ensures Refs(T) == Refs(T0) && InorderRefs(T) == InorderRefs(T0)
      ensures Keeps(old(left), left, Refs(T0)) && Keeps(old(right), right, Refs(T0))
      ensures Keeps(old(parent), parent, Refs(T0)) && Keeps(old(color), color, Refs(T0))
    {
      z := z0;
      root, T := root0, T0;
      while RedParent(z)
        invariant FixInv(root, z, T, ok) && Refs(T) == Refs(T0) && InorderRefs(T) == InorderRefs(T0)
        invariant Keeps(old(left), left, Refs(T0)) && Keeps(old(right), right, Refs(T0))
        invariant Keeps(old(parent), parent, Refs(T0)) && Keeps(old(color), color, Refs(T0))
        decreases (if RedParent(z) then 1 else 0), Depth(T, z)
      {
        ghost var L1, R1, P1, C1 := left, right, parent, color;
        root, z, T := FixStep(root, z, T, ok);
        assert Keeps(old(left), left, Refs(T0)) && Keeps(old(right), right, Refs(T0)) by {
          KeepsTrans(old(left), L1, left, Refs(T0));
          KeepsTrans(old(right), R1, right, Refs(T0));
        }
        assert Keeps(old(parent), parent, Refs(T0)) && Keeps(old(color), color, Refs(T0)) by {
          KeepsTrans(old(parent), P1, parent, Refs(T0));
          KeepsTrans(old(color), C1, color, Refs(T0));
        }
      }
    }

    /** The successor search of `bstDelete`: follow `left` from `p` while it is not
        `null`; the node reached is the leftmost node of the subtree at `p`. */
    method LeftmostOf(p: Ref, ghost t: Tree) returns (m: Ref)
      requires Shaped(left, right, Ptr(p), t)
      ensures m == Leftmost(t)
    {
      m := p;
      ghost var cur := t;
      while left[m].Ptr?
        invariant Shaped(left, right, Ptr(m), cur) && cur.Node? && Leftmost(cur) == Leftmost(t)
        decreases cur
      {
        ShapedRefs(left, right, left[m], cur.left);
        m := left[m].ref;
        cur := cur.left;
      }
      ShapedRefs(left, right, left[m], cur.left);
    }

    /** `bstDelete`: the BST deletion of one node holding `v`; a node with two children
        takes the value of its in-order successor, which is then deleted from the right
        subtree. Only `left`, `right` and `value` change: the source never updates
        `parent` here. On a search tree holding `v` exactly one copy of `v` goes and a
        search tree remains; without `v` nothing changes. */
    method BstDelete(root: Ptr, v: real, ghost t: Tree) returns (r: Ptr)
      requires Valid() && Shaped(left, right, root, t) && Distinct(t) && Refs(t) <= value.Keys
      modifies this`left, this`right, this`value
      ensures Valid() && Shaped(left, right, r, SearchTree.Delete(old(value), t, v).0)
      ensures value == SearchTree.Delete(old(value), t, v).1
      ensures SearchTree.Sorted(SearchTree.Values(old(value), t)) && v in SearchTree.Values(old(value), t) ==>
                var u := SearchTree.Delete(old(value), t, v).0;
                multiset(SearchTree.Values(value, u)) == multiset(SearchTree.Values(old(value), t)) - multiset{v} &&
                SearchTree.Sorted(SearchTree.Values(value, u))
      ensures v !in SearchTree.Values(old(value), t) ==>
                r == root && value == old(value) && left == old(left) && right == old(right)
      ensures Keeps(old(left), left, Refs(t)) && Keeps(old(right), right, Refs(t))
    {
      ghost var L0, R0 := left, right;
      if SearchTree.Sorted(SearchTree.Values(value, t)) && v in SearchTree.Values(value, t) {
        SearchTree.DeletePresent(value, t, v);
      }
      if v !in SearchTree.Values(value, t) {
        SearchTree.DeleteAbsent(value, t, v);
      }
      ShapedRefs(left, right, root, t);
      r := DeleteAt(root, v, t);
      ShapedRefs(left, right, r, SearchTree.Delete(old(value), t, v).0);
      if v !in SearchTree.Values(old(value), t) {
        ShapedAgree(L0, R0, left, right, root, r, t);
        assert left == L0 && right == R0;
      }
    }

    /** The recursion of `bstDelete` on the subtree `t` at `p`. */
    method DeleteAt(p: Ptr, v: real, ghost t: Tree) returns (r: Ptr)
      requires Valid() && Shaped(left, right, p, t) && Distinct(t) && Refs(t) <= value.Keys
      modifies this`left, this`right, this`value
      ensures Valid() && Shaped(left, right, r, SearchTree.Delete(old(value), t, v).0)
      ensures value == SearchTree.Delete(old(value), t, v).1
      ensures Keeps(old(left), left, Refs(t)) && Keeps(old(right), right, Refs(t))
      decreases t
    {
      ShapedRefs(left, right, p, t);
      if p.Null? {
        return Null;
      }
      ghost var L0, R0 := left, right;
      var x := p.ref;
      r := p;
      if v < value[x] {
        var kid := DeleteAt(left[x], v, t.left);
        GraftShapeLeft(L0, R0, left, right, t, SearchTree.Delete(old(value), t.left, v).0, kid);
        SetLeft(x, kid);
      } else if v > value[x] {
        var kid := DeleteAt(right[x], v, t.right);
        GraftShapeRight(L0, R0, left, right, t, SearchTree.Delete(old(value), t.right, v).0, kid);
        SetRight(x, kid);
      } else if left[x].Null? {
        r := right[x];
      } else if right[x].Null? {
        r := left[x];
      } else {
        var succ := LeftmostOf(right[x].ref, t.right);
        SetValue(x, value[succ]);
        var kid := DeleteAt(right[x], value[x], t.right);
        GraftShapeRight(L0, R0, left, right, t, SearchTree.Delete(old(value)[x := old(value)[succ]], t.right, old(value)[succ]).0, kid);
        SetRight(x, kid);
      }
    }

    /** `layoutTree`: an in-order walk that puts the `i`-th node in in-order at
        `x = i * H_GAP` and every node at `y = depth * V_GAP`. Only the positions change,
        and only those of the nodes of the tree. */
    method LayoutTree(root: Ptr, ghost t: Tree)
      requires Valid() && Shaped(left, right, root, t) && Distinct(t)
      modifies this`posX, this`posY
      ensures Valid() && LaidOut(posX, posY, t, 0, 0)
      ensures Keeps(old(posX), posX, Refs(t)) && Keeps(old(posY), posY, Refs(t))
    {
      var _ := LayoutAt(root, 0, 0, t);
    }

    /** The walk `dfs(node, depth)` of `layoutTree` with the shared counter `index` as a
        parameter and a result: the subtree at `p` is laid out from column `index` on. */
    method LayoutAt(p: Ptr, depth: nat, index: nat, ghost t: Tree) returns (index': nat)
      requires Valid() && Shaped(left, right, p, t) && Distinct(t)
      modifies this`posX, this`posY
      ensures Valid() && index' == index + Size(t) && LaidOut(posX, posY, t, depth, index)
      ensures Keeps(old(posX), posX, Refs(t)) && Keeps(old(posY), posY, Refs(t))
      decreases t
    {
      ShapedRefs(left, right, p, t);
      if p.Null? {
        return index;
      }
      var x := p.ref;
      ghost var X0, Y0 := posX, posY;
      var i1 := LayoutAt(left[x], depth + 1, index, t.left);
      ghost var X1, Y1 := posX, posY;
      SetPosition(x, i1 * H_GAP, depth * V_GAP);
      index' := LayoutAt(right[x], depth + 1, i1 + 1, t.right);
      LayoutJoin(t, depth, index, i1, X0, Y0, X1, Y1, posX, posY);
    }
  }
}
