/** Red-black colour rules on tree shapes.

    Colours live in a map from node to colour. `RedOk(C, t, pr, z)` says that no
    red node of `t` has a red child, except possibly for the edge into `z`
    (`pr` tells whether the node above `t` is red). The fix-up loop of `rbtInsert`
    keeps "black heights balanced and `RedOk` for the current `z`"; the case
    lemmas below are its steps. */
module RedBlack {
  import opened Shapes
  import SearchTree

  datatype Color = Red | Black

  /** A node is red when it is not `null` and its colour is red. */
  function IsRed(C: map<Ref, Color>, p: Ptr): (b: bool)
    requires p.Ptr? ==> p.ref in C
    ensures b ==> p.Ptr?
  {
    p.Ptr? && C[p.ref] == Red
  }

  /** Number of black nodes down the left spine; `null` counts 0. */
  function BlackHeight(C: map<Ref, Color>, t: Tree): nat
    requires Refs(t) <= C.Keys
  {
    match t
    case Nil => 0
    case Node(l, x, _) => BlackHeight(C, l) + (if C[x] == Black then 1 else 0)
  }

  /** Both subtrees of every node have the same black height. */
  ghost predicate BlackBalanced(C: map<Ref, Color>, t: Tree)
    requires Refs(t) <= C.Keys
  {
    match t
    case Nil => true
    case Node(l, _, rt) =>
      BlackHeight(C, l) == BlackHeight(C, rt) && BlackBalanced(C, l) && BlackBalanced(C, rt)
  }

  /** No red node has a red child, except that `z` may be a red child of a red node;
      `pr` is whether the node above the root of `t` is red. */
  ghost predicate RedOk(C: map<Ref, Color>, t: Tree, pr: bool, z: Ptr)
    requires Refs(t) <= C.Keys
  {
    match t
    case Nil => true
    case Node(l, x, rt) =>
      (pr && C[x] == Red ==> Ptr(x) == z) && RedOk(C, l, C[x] == Red, z) && RedOk(C, rt, C[x] == Red, z)
  }

  /** A red-black tree: black root, balanced black heights, no red node with a red child. */
  ghost predicate IsRedBlack(C: map<Ref, Color>, t: Tree)
    requires Refs(t) <= C.Keys
  {
    (t.Node? ==> C[t.ref] == Black) && BlackBalanced(C, t) && RedOk(C, t, false, Null)
  }

  /** `C1` holds the colours of `C0` on `s`. */
  ghost predicate SameColors(C0: map<Ref, Color>, C1: map<Ref, Color>, s: set<Ref>) {
    s <= C0.Keys && s <= C1.Keys && forall q :: q in s ==> C1[q] == C0[q]
  }

  // ------------------------------------------------------------ frame lemmas

  lemma {:induction false} ColorFrame(C0: map<Ref, Color>, C1: map<Ref, Color>, t: Tree, pr: bool, z: Ptr)
    requires SameColors(C0, C1, Refs(t))
    ensures BlackHeight(C1, t) == BlackHeight(C0, t)
    ensures BlackBalanced(C0, t) ==> BlackBalanced(C1, t)
    ensures RedOk(C0, t, pr, z) ==> RedOk(C1, t, pr, z)
  {
    match t
    case Nil =>
    case Node(l, x, rt) =>
      ColorFrame(C0, C1, l, C0[x] == Red, z);
      ColorFrame(C0, C1, rt, C0[x] == Red, z);
  }

  /** Where `z` does not occur, the exception for `z` is not used. */
  lemma {:induction false} RedOkAway(C: map<Ref, Color>, t: Tree, pr: bool, z0: Ptr, z1: Ptr)
    requires Refs(t) <= C.Keys && RedOk(C, t, pr, z0)
    requires z0.Ptr? ==> z0.ref !in Refs(t)
    ensures RedOk(C, t, pr, z1)
  {
    match t
    case Nil =>
    case Node(l, x, rt) =>
      RedOkAway(C, l, C[x] == Red, z0, z1);
      RedOkAway(C, rt, C[x] == Red, z0, z1);
  }

  /** The exception for the root of a tree is not used when the node above is not red. */
  lemma RedOkAtRoot(C: map<Ref, Color>, t: Tree, z0: Ptr, z1: Ptr)
    requires Refs(t) <= C.Keys && Distinct(t) && RedOk(C, t, false, z0)
    requires z0.Ptr? ==> z0.ref !in Refs(t) || (t.Node? && z0.ref == t.ref)
    ensures RedOk(C, t, false, z1)
  {
    if t.Node? {
      RedOkAway(C, t.left, C[t.ref] == Red, z0, z1);
      RedOkAway(C, t.right, C[t.ref] == Red, z0, z1);
    }
  }

  // ---------------------------------------------- from the whole tree to a subtree and back

  lemma {:induction false} BalancedSub(C: map<Ref, Color>, t: Tree, x: Ref)
    requires Refs(t) <= C.Keys && BlackBalanced(C, t) && x in Refs(t)
    ensures BlackBalanced(C, SubAt(t, x))
  {
    if t.ref != x {
      if x in Refs(t.left) { BalancedSub(C, t.left, x); } else { BalancedSub(C, t.right, x); }
    }
  }

  /** The colour rule restricted to the subtree at `x`, seen from `x`'s parent. */
  lemma {:induction false} RedOkSub(C: map<Ref, Color>, t: Tree, top: Ptr, pr: bool, z: Ptr, x: Ref)
    requires Refs(t) <= C.Keys && Distinct(t) && x in Refs(t) && RedOk(C, t, pr, z)
    requires top.Ptr? ==> top.ref in C
    requires pr == IsRed(C, top)
    ensures ParentIn(t, x, top).Ptr? ==> ParentIn(t, x, top).ref in C
    ensures RedOk(C, SubAt(t, x), IsRed(C, ParentIn(t, x, top)), z)
  {
    if t.ref != x {
      if x in Refs(t.left) { RedOkSub(C, t.left, Ptr(t.ref), C[t.ref] == Red, z, x); }
      else { RedOkSub(C, t.right, Ptr(t.ref), C[t.ref] == Red, z, x); }
    }
  }

  /** Replacing the subtree at `g` by one with the same nodes and black height, balanced in
      the new colours, keeps the whole tree balanced (colours elsewhere unchanged). */
  lemma {:induction false} BalancedPlug(C0: map<Ref, Color>, C1: map<Ref, Color>, t: Tree, g: Ref, s': Tree)
    requires Refs(t) <= C0.Keys && Distinct(t) && g in Refs(t) && BlackBalanced(C0, t)
    requires Refs(s') == Refs(SubAt(t, g)) && Refs(t) <= C1.Keys
    requires SameColors(C0, C1, Refs(t) - Refs(SubAt(t, g)))
    requires BlackBalanced(C1, s') && BlackHeight(C1, s') == BlackHeight(C0, SubAt(t, g))
    ensures Refs(ReplaceAt(t, g, s')) == Refs(t)
    ensures BlackBalanced(C1, ReplaceAt(t, g, s')) && BlackHeight(C1, ReplaceAt(t, g, s')) == BlackHeight(C0, t)
  {
    ReplaceAtRefs(t, g, s');
    if t.ref != g {
      var Node(l, x, rt) := t;
      if g in Refs(l) {
        ReplaceAtRefs(l, g, s');
        BalancedPlug(C0, C1, l, g, s');
        ColorFrame(C0, C1, rt, false, Null);
      } else {
        ReplaceAtRefs(rt, g, s');
        BalancedPlug(C0, C1, rt, g, s');
        ColorFrame(C0, C1, l, false, Null);
      }
    }
  }

  /** The colour rule for a tree whose subtree at `g` was replaced: outside `g` there was
      no exception in use (the old `z0` lies inside), and the new subtree obeys the rule
      for `z1` below the unchanged parent of `g`. */
  lemma {:induction false} RedPlug(C0: map<Ref, Color>, C1: map<Ref, Color>, t: Tree, top: Ptr, pr: bool,
                                   g: Ref, s': Tree, z0: Ptr, z1: Ptr)
    requires Refs(t) <= C0.Keys && Distinct(t) && g in Refs(t) && RedOk(C0, t, pr, z0)
    requires top.Ptr? ==> top.ref in C0 && top.ref in C1 && C1[top.ref] == C0[top.ref]
    requires pr == IsRed(C0, top)
    requires z0.Ptr? ==> z0.ref in Refs(SubAt(t, g))
    requires Refs(s') == Refs(SubAt(t, g)) && Refs(t) <= C1.Keys
    requires SameColors(C0, C1, Refs(t) - Refs(SubAt(t, g)))
    requires ParentIn(t, g, top).Ptr? ==> ParentIn(t, g, top).ref in C0
    requires RedOk(C1, s', IsRed(C0, ParentIn(t, g, top)), z1)
    ensures Refs(ReplaceAt(t, g, s')) == Refs(t)
    ensures RedOk(C1, ReplaceAt(t, g, s'), pr, z1)
  {
    ReplaceAtRefs(t, g, s');
    if t.ref != g {
      var Node(l, x, rt) := t;
      if g in Refs(l) {
        RedPlug(C0, C1, l, Ptr(x), C0[x] == Red, g, s', z0, z1);
        RedPlugBeside(C0, C1, t, pr, g, s', z0, z1, true);
      } else {
        RedPlug(C0, C1, rt, Ptr(x), C0[x] == Red, g, s', z0, z1);
        RedPlugBeside(C0, C1, t, pr, g, s', z0, z1, false);
      }
    }
  }

  /** The step of `RedPlug` below the root: the side holding `g` is already done, the other
      side keeps its colours and does not hold `z0`. */
  lemma RedPlugBeside(C0: map<Ref, Color>, C1: map<Ref, Color>, t: Tree, pr: bool,
                      g: Ref, s': Tree, z0: Ptr, z1: Ptr, onLeft: bool)
    requires t.Node? && t.ref != g && Refs(t) <= C0.Keys && Refs(t) <= C1.Keys && Distinct(t)
    requires g in Refs(if onLeft then t.left else t.right)
    requires z0.Ptr? ==> z0.ref in Refs(SubAt(t, g))
    requires pr && C0[t.ref] == Red ==> Ptr(t.ref) == z0
    requires RedOk(C0, if onLeft then t.right else t.left, C0[t.ref] == Red, z0)
    requires Refs(s') == Refs(SubAt(t, g))
    requires SameColors(C0, C1, Refs(t) - Refs(SubAt(t, g)))
    requires var side := if onLeft then t.left else t.right;
             Refs(side) <= C1.Keys && Refs(ReplaceAt(side, g, s')) == Refs(side)
             && RedOk(C1, ReplaceAt(side, g, s'), C0[t.ref] == Red, z1)
    ensures RedOk(C1, ReplaceAt(t, g, s'), pr, z1)
  {
    var Node(l, x, rt) := t;
    var other := if onLeft then rt else l;
    assert C1[x] == C0[x];
    assert Ptr(x) != z0;
    assert SubAt(t, g) == SubAt(if onLeft then l else rt, g);
    assert z0.Ptr? ==> z0.ref !in Refs(other);
    ColorFrame(C0, C1, other, C0[x] == Red, z0);
    RedOkAway(C1, other, C0[x] == Red, z0, z1);
  }

  // ------------------------------------------------------------------ insertion

  /** A new red leaf keeps black heights and may only break the rule at itself. */
  lemma {:induction false} InsertRed(V: map<Ref, real>, C: map<Ref, Color>, t: Tree, v: real, n: Ref, pr: bool)
    requires Refs(t) <= V.Keys && Refs(t) <= C.Keys && n !in Refs(t)
    requires BlackBalanced(C, t) && RedOk(C, t, pr, Null)
    ensures Refs(SearchTree.Insert(V, t, v, n)) <= C[n := Red].Keys
    ensures BlackBalanced(C[n := Red], SearchTree.Insert(V, t, v, n))
    ensures BlackHeight(C[n := Red], SearchTree.Insert(V, t, v, n)) == BlackHeight(C, t)
    ensures RedOk(C[n := Red], SearchTree.Insert(V, t, v, n), pr, Ptr(n))
  {
    var C' := C[n := Red];
    match t
    case Nil =>
    case Node(l, x, rt) =>
      assert C'[x] == C[x];
      if v < V[x] {
        InsertRed(V, C, l, v, n, C[x] == Red);
        ColorFrame(C, C', rt, C[x] == Red, Null);
        RedOkAway(C', rt, C[x] == Red, Null, Ptr(n));
      } else {
        InsertRed(V, C, rt, v, n, C[x] == Red);
        ColorFrame(C, C', l, C[x] == Red, Null);
        RedOkAway(C', l, C[x] == Red, Null, Ptr(n));
      }
  }

  // ------------------------------------------------------------- fix-up steps

  /** Case 1 (red uncle): the parent and the uncle turn black, the grandparent red, and the
      exception moves up to the grandparent. Shape unchanged. */
  lemma Recolor(C0: map<Ref, Color>, s: Tree, pr: bool, z: Ref)
    requires s.Node? && s.left.Node? && s.right.Node? && Refs(s) <= C0.Keys && Distinct(s)
    requires C0[s.ref] == Black && C0[s.left.ref] == Red && C0[s.right.ref] == Red
    requires Ptr(z) in {Root(s.left.left), Root(s.left.right), Root(s.right.left), Root(s.right.right)}
    requires BlackBalanced(C0, s) && RedOk(C0, s, pr, Ptr(z))
    ensures Refs(s) <= C0[s.left.ref := Black][s.right.ref := Black][s.ref := Red].Keys
    ensures BlackBalanced(C0[s.left.ref := Black][s.right.ref := Black][s.ref := Red], s)
    ensures BlackHeight(C0[s.left.ref := Black][s.right.ref := Black][s.ref := Red], s) == BlackHeight(C0, s)
    ensures RedOk(C0[s.left.ref := Black][s.right.ref := Black][s.ref := Red], s, pr, Ptr(s.ref))
  {
    var C1 := C0[s.left.ref := Black][s.right.ref := Black][s.ref := Red];
    var Node(p, g, u) := s;
    RecolorChild(C0, C1, p, z, g);
    RecolorChild(C0, C1, u, z, g);
  }

  lemma RecolorChild(C0: map<Ref, Color>, C1: map<Ref, Color>, p: Tree, z: Ref, g: Ref)
    requires p.Node? && Refs(p) <= C0.Keys && Refs(p) <= C1.Keys && Distinct(p)
    requires C0[p.ref] == Red && C1[p.ref] == Black
    requires SameColors(C0, C1, Refs(p) - {p.ref})
    requires z !in Refs(p) || Ptr(z) == Root(p.left) || Ptr(z) == Root(p.right)
    requires BlackBalanced(C0, p) && RedOk(C0, p, false, Ptr(z))
    ensures BlackBalanced(C1, p) && BlackHeight(C1, p) == BlackHeight(C0, p) + 1
    ensures RedOk(C1, p, true, Ptr(g))
  {
    var Node(a, _, b) := p;
    ColorFrame(C0, C1, a, true, Ptr(z));
    ColorFrame(C0, C1, b, true, Ptr(z));
    RedOkAtRoot(C1, a, Ptr(z), Ptr(g));
    RedOkAtRoot(C1, b, Ptr(z), Ptr(g));
  }


  /** Case 3, parent on the left, `z` its left child: after recolouring the parent black
      and the grandparent red and rotating right at the grandparent, no red node has a
      red child and black heights are unchanged. */
  lemma FixLeftLeft(C0: map<Ref, Color>, a: Tree, p: Ref, b: Tree, g: Ref, u: Tree, pr: bool)
    requires a.Node? && Distinct(Node(Node(a, p, b), g, u)) && Refs(Node(Node(a, p, b), g, u)) <= C0.Keys
    requires g in C0 && p in C0 && a.ref in C0
    requires C0[g] == Black && C0[p] == Red && C0[a.ref] == Red && !IsRed(C0, Root(u))
    requires BlackBalanced(C0, Node(Node(a, p, b), g, u))
    requires RedOk(C0, Node(Node(a, p, b), g, u), pr, Ptr(a.ref))
    ensures Refs(Node(a, p, Node(b, g, u))) <= C0[p := Black][g := Red].Keys
    ensures BlackBalanced(C0[p := Black][g := Red], Node(a, p, Node(b, g, u)))
    ensures BlackHeight(C0[p := Black][g := Red], Node(a, p, Node(b, g, u)))
         == BlackHeight(C0, Node(Node(a, p, b), g, u))
    ensures RedOk(C0[p := Black][g := Red], Node(a, p, Node(b, g, u)), pr, Null)
  {
    var C1 := C0[p := Black][g := Red];
    var z := Ptr(a.ref);
    ColorFrame(C0, C1, a, true, z);
    RedOkAtRoot(C1, a, z, Null);
    ColorFrame(C0, C1, b, true, z);
    RedOkAway(C1, b, true, z, Null);
    ColorFrame(C0, C1, u, false, z);
    RedOkAway(C1, u, false, z, Null);
  }

  /** Case 2 then 3, parent on the left, `z` its right child: rotating left at the
      parent, recolouring `z` black and the grandparent red, and rotating right. */
  lemma FixLeftRight(C0: map<Ref, Color>, a: Tree, p: Ref, c: Tree, z: Ref, d: Tree, g: Ref, u: Tree, pr: bool)
    requires Distinct(Node(Node(a, p, Node(c, z, d)), g, u)) && Refs(Node(Node(a, p, Node(c, z, d)), g, u)) <= C0.Keys
    requires g in C0 && p in C0 && z in C0
    requires C0[g] == Black && C0[p] == Red && C0[z] == Red && !IsRed(C0, Root(u))
    requires BlackBalanced(C0, Node(Node(a, p, Node(c, z, d)), g, u))
    requires RedOk(C0, Node(Node(a, p, Node(c, z, d)), g, u), pr, Ptr(z))
    ensures Refs(Node(Node(a, p, c), z, Node(d, g, u))) <= C0[z := Black][g := Red].Keys
    ensures BlackBalanced(C0[z := Black][g := Red], Node(Node(a, p, c), z, Node(d, g, u)))
    ensures BlackHeight(C0[z := Black][g := Red], Node(Node(a, p, c), z, Node(d, g, u)))
         == BlackHeight(C0, Node(Node(a, p, Node(c, z, d)), g, u))
    ensures RedOk(C0[z := Black][g := Red], Node(Node(a, p, c), z, Node(d, g, u)), pr, Null)
  {
    var C1 := C0[z := Black][g := Red];
    assert RedOk(C0, Node(a, p, Node(c, z, d)), false, Ptr(z));
    assert RedOk(C0, Node(c, z, d), true, Ptr(z));
    assert Distinct(Node(a, p, Node(c, z, d))) && Distinct(Node(c, z, d));
    ColorFrame(C0, C1, a, true, Ptr(z));
    RedOkAway(C1, a, true, Ptr(z), Null);
    ColorFrame(C0, C1, c, true, Ptr(z));
    RedOkAway(C1, c, true, Ptr(z), Null);
    ColorFrame(C0, C1, d, true, Ptr(z));
    RedOkAway(C1, d, true, Ptr(z), Null);
    ColorFrame(C0, C1, u, false, Ptr(z));
    RedOkAway(C1, u, false, Ptr(z), Null);
    assert BlackBalanced(C0, Node(a, p, Node(c, z, d))) && BlackBalanced(C0, Node(c, z, d));
    assert BlackHeight(C0, Node(a, p, Node(c, z, d))) == BlackHeight(C0, a) == BlackHeight(C0, c);
    assert BlackHeight(C1, Node(a, p, c)) == BlackHeight(C0, a) == BlackHeight(C1, Node(d, g, u));
  }

  /** Mirror of `FixLeftLeft`: parent on the right, `z` its right child. */
  lemma FixRightRight(C0: map<Ref, Color>, u: Tree, g: Ref, b: Tree, p: Ref, a: Tree, pr: bool)
    requires a.Node? && Distinct(Node(u, g, Node(b, p, a))) && Refs(Node(u, g, Node(b, p, a))) <= C0.Keys
    requires g in C0 && p in C0 && a.ref in C0
    requires C0[g] == Black && C0[p] == Red && C0[a.ref] == Red && !IsRed(C0, Root(u))
    requires BlackBalanced(C0, Node(u, g, Node(b, p, a)))
    requires RedOk(C0, Node(u, g, Node(b, p, a)), pr, Ptr(a.ref))
    ensures Refs(Node(Node(u, g, b), p, a)) <= C0[p := Black][g := Red].Keys
    ensures BlackBalanced(C0[p := Black][g := Red], Node(Node(u, g, b), p, a))
    ensures BlackHeight(C0[p := Black][g := Red], Node(Node(u, g, b), p, a))
         == BlackHeight(C0, Node(u, g, Node(b, p, a)))
    ensures RedOk(C0[p := Black][g := Red], Node(Node(u, g, b), p, a), pr, Null)
  {
    var C1 := C0[p := Black][g := Red];
    var z := Ptr(a.ref);
    ColorFrame(C0, C1, a, true, z);
    RedOkAtRoot(C1, a, z, Null);
    ColorFrame(C0, C1, b, true, z);
    RedOkAway(C1, b, true, z, Null);
    ColorFrame(C0, C1, u, false, z);
    RedOkAway(C1, u, false, z, Null);
  }

  /** Mirror of `FixLeftRight`: parent on the right, `z` its left child. */
  lemma FixRightLeft(C0: map<Ref, Color>, u: Tree, g: Ref, d: Tree, z: Ref, c: Tree, p: Ref, a: Tree, pr: bool)
    requires Distinct(Node(u, g, Node(Node(d, z, c), p, a))) && Refs(Node(u, g, Node(Node(d, z, c), p, a))) <= C0.Keys
    requires g in C0 && p in C0 && z in C0
    requires C0[g] == Black && C0[p] == Red && C0[z] == Red && !IsRed(C0, Root(u))
    requires BlackBalanced(C0, Node(u, g, Node(Node(d, z, c), p, a)))
    requires RedOk(C0, Node(u, g, Node(Node(d, z, c), p, a)), pr, Ptr(z))
    ensures Refs(Node(Node(u, g, d), z, Node(c, p, a))) <= C0[z := Black][g := Red].Keys
    ensures BlackBalanced(C0[z := Black][g := Red], Node(Node(u, g, d), z, Node(c, p, a)))
    ensures BlackHeight(C0[z := Black][g := Red], Node(Node(u, g, d), z, Node(c, p, a)))
         == BlackHeight(C0, Node(u, g, Node(Node(d, z, c), p, a)))
    ensures RedOk(C0[z := Black][g := Red], Node(Node(u, g, d), z, Node(c, p, a)), pr, Null)
  {
    var C1 := C0[z := Black][g := Red];
    assert RedOk(C0, Node(Node(d, z, c), p, a), false, Ptr(z));
    assert RedOk(C0, Node(d, z, c), true, Ptr(z));
    assert Distinct(Node(Node(d, z, c), p, a)) && Distinct(Node(d, z, c));
    ColorFrame(C0, C1, a, true, Ptr(z));
    RedOkAway(C1, a, true, Ptr(z), Null);
    ColorFrame(C0, C1, c, true, Ptr(z));
    RedOkAway(C1, c, true, Ptr(z), Null);
    ColorFrame(C0, C1, d, true, Ptr(z));
    RedOkAway(C1, d, true, Ptr(z), Null);
    ColorFrame(C0, C1, u, false, Ptr(z));
    RedOkAway(C1, u, false, Ptr(z), Null);
    assert BlackBalanced(C0, Node(Node(d, z, c), p, a)) && BlackBalanced(C0, Node(d, z, c));
    assert BlackHeight(C0, Node(Node(d, z, c), p, a)) == BlackHeight(C0, d) == BlackHeight(C0, c) == BlackHeight(C0, a);
    assert BlackHeight(C1, Node(u, g, d)) == BlackHeight(C0, u) == BlackHeight(C1, Node(c, p, a));
  }

  // ------------------------------------------------------------ end of the loop

  /** When `z`'s parent is not red (or `z` is the root), the exception is not used. */
  lemma {:induction false} Settled(C: map<Ref, Color>, t: Tree, top: Ptr, pr: bool, z: Ref)
    requires Refs(t) <= C.Keys && Distinct(t) && RedOk(C, t, pr, Ptr(z))
    requires top.Ptr? ==> top.ref in C
    requires pr == IsRed(C, top)
    requires z in Refs(t) ==> (ParentIn(t, z, top).Ptr? ==> ParentIn(t, z, top).ref in C) && !IsRed(C, ParentIn(t, z, top))
    ensures RedOk(C, t, pr, Null)
  {
    match t
    case Nil =>
    case Node(l, x, rt) =>
      if x == z {
        RedOkAway(C, l, C[x] == Red, Ptr(z), Null);
        RedOkAway(C, rt, C[x] == Red, Ptr(z), Null);
      } else {
        Settled(C, l, Ptr(x), C[x] == Red, z);
        Settled(C, rt, Ptr(x), C[x] == Red, z);
      }
  }

  /** Painting the root black keeps black heights balanced and the rule. */
  lemma BlackenRoot(C: map<Ref, Color>, t: Tree)
    requires t.Node? && Refs(t) <= C.Keys && Distinct(t)
    requires BlackBalanced(C, t) && RedOk(C, t, false, Null)
    ensures IsRedBlack(C[t.ref := Black], t)
  {
    var C1 := C[t.ref := Black];
    ColorFrame(C, C1, t.left, C[t.ref] == Red, Null);
    ColorFrame(C, C1, t.right, C[t.ref] == Red, Null);
    RedOkAway(C1, t.left, C[t.ref] == Red, Null, Null);
  }

  // ------------------------------------------------- the fix-up steps on the whole tree

  /** The restructuring of cases 2 and 3 at the grandparent `s` when the parent is its
      left child: one right rotation when `z` is the parent's left child, otherwise a left
      rotation at the parent first. */
  function LeftFix(s: Tree, z: Ref): (u: Tree)
    requires s.Node? && s.left.Node? && (Root(s.left.left) == Ptr(z) || Root(s.left.right) == Ptr(z))
    ensures u.Node? && Refs(u) == Refs(s) && InorderRefs(u) == InorderRefs(s)
    ensures Distinct(s) ==> Distinct(u)
  {
    if Root(s.left.left) == Ptr(z) then
      RotateDistinct(s);
      RotateRight(s)
    else
      var m := Node(RotateLeft(s.left), s.ref, s.right);
      assert InorderRefs(m) == InorderRefs(s);
      RotateDistinct(s.left);
      RotateDistinct(m);
      RotateRight(m)
  }

  /** The mirror image of `LeftFix`: the parent is the grandparent's right child. */
  function RightFix(s: Tree, z: Ref): (u: Tree)
    requires s.Node? && s.right.Node? && (Root(s.right.right) == Ptr(z) || Root(s.right.left) == Ptr(z))
    ensures u.Node? && Refs(u) == Refs(s) && InorderRefs(u) == InorderRefs(s)
    ensures Distinct(s) ==> Distinct(u)
  {
    if Root(s.right.right) == Ptr(z) then
      RotateDistinct(s);
      RotateLeft(s)
    else
      var m := Node(s.left, s.ref, RotateRight(s.right));
      assert InorderRefs(m) == InorderRefs(s);
      RotateDistinct(s.right);
      RotateDistinct(m);
      RotateLeft(m)
  }

  /** Below a red parent `p` that is not `z`, the grandparent `g` is black, and the rule
      holds in the subtree at `g` seen from `g`'s parent. */
  lemma GrandparentBlack(C: map<Ref, Color>, t: Tree, z: Ref, p: Ref, g: Ref)
    requires Refs(t) <= C.Keys && Distinct(t) && BlackBalanced(C, t) && RedOk(C, t, false, Ptr(z))
    requires g in Refs(t)
    requires (SubAt(t, g).left.Node? && SubAt(t, g).left.ref == p) ||
             (SubAt(t, g).right.Node? && SubAt(t, g).right.ref == p)
    requires p in C && C[p] == Red && p != z
    ensures ParentIn(t, g, Null).Ptr? ==> ParentIn(t, g, Null).ref in C
    ensures C[g] == Black && BlackBalanced(C, SubAt(t, g))
    ensures RedOk(C, SubAt(t, g), IsRed(C, ParentIn(t, g, Null)), Ptr(z))
  {
    RedOkSub(C, t, Null, false, Ptr(z), g);
    BalancedSub(C, t, g);
  }

  /** Case 1 on the whole tree: the parent `p` and the uncle `u` turn black, the
      grandparent `g` red, and the exception moves up to `g`. */
  lemma RecolorInTree(C: map<Ref, Color>, t: Tree, z: Ref, p: Ref, u: Ref, g: Ref)
    requires Refs(t) <= C.Keys && Distinct(t) && BlackBalanced(C, t) && RedOk(C, t, false, Ptr(z))
    requires g in Refs(t) && SubAt(t, g).left.Node? && SubAt(t, g).right.Node?
    requires (SubAt(t, g).left.ref == p && SubAt(t, g).right.ref == u &&
              (Root(SubAt(t, g).left.left) == Ptr(z) || Root(SubAt(t, g).left.right) == Ptr(z))) ||
             (SubAt(t, g).right.ref == p && SubAt(t, g).left.ref == u &&
              (Root(SubAt(t, g).right.left) == Ptr(z) || Root(SubAt(t, g).right.right) == Ptr(z)))
    requires p in C && u in C && C[p] == Red && C[u] == Red
    ensures Refs(t) <= C[p := Black][u := Black][g := Red].Keys
    ensures BlackBalanced(C[p := Black][u := Black][g := Red], t)
    ensures RedOk(C[p := Black][u := Black][g := Red], t, false, Ptr(g))
  {
    var s := SubAt(t, g);
    var C1 := C[p := Black][u := Black][g := Red];
    SubDistinct(t, g);
    assert Distinct(s.left) && Distinct(s.right);
    assert p != z;
    GrandparentBlack(C, t, z, p, g);
    var pr := IsRed(C, ParentIn(t, g, Null));
    if s.left.ref == p {
      Recolor(C, s, pr, z);
    } else {
      assert C[u := Black][p := Black][g := Red] == C1;
      Recolor(C, s, pr, z);
    }
    BalancedPlug(C, C1, t, g, s);
    RedPlug(C, C1, t, Null, false, g, s, Ptr(z), Ptr(g));
    ReplaceAtSelf(t, g);
  }

  /** Cases 2 and 3 with the parent on the left, on the whole tree: after `LeftFix` at the
      grandparent `g`, with the new subtree root black and `g` red, the tree is balanced
      and no red node has a red child. */
  lemma LeftFixInTree(C: map<Ref, Color>, t: Tree, z: Ref, g: Ref)
    requires Refs(t) <= C.Keys && Distinct(t) && BlackBalanced(C, t) && RedOk(C, t, false, Ptr(z))
    requires g in Refs(t) && SubAt(t, g).left.Node?
    requires Root(SubAt(t, g).left.left) == Ptr(z) || Root(SubAt(t, g).left.right) == Ptr(z)
    requires SubAt(t, g).left.ref in C && z in C && (SubAt(t, g).right.Node? ==> SubAt(t, g).right.ref in C)
    requires C[SubAt(t, g).left.ref] == Red && C[z] == Red && !IsRed(C, Root(SubAt(t, g).right))
    ensures Refs(ReplaceAt(t, g, LeftFix(SubAt(t, g), z))) == Refs(t)
    ensures BlackBalanced(C[LeftFix(SubAt(t, g), z).ref := Black][g := Red], ReplaceAt(t, g, LeftFix(SubAt(t, g), z)))
    ensures RedOk(C[LeftFix(SubAt(t, g), z).ref := Black][g := Red], ReplaceAt(t, g, LeftFix(SubAt(t, g), z)), false, Null)
  {
    var s := SubAt(t, g);
    var Node(Node(a, p, m), _, w) := s;
    SubDistinct(t, g);
    assert Distinct(s.left);
    GrandparentBlack(C, t, z, p, g);
    var pr := IsRed(C, ParentIn(t, g, Null));
    var s' := LeftFix(s, z);
    if Root(a) == Ptr(z) {
      FixLeftLeft(C, a, p, m, g, w, pr);
    } else {
      var Node(c, _, d) := m;
      FixLeftRight(C, a, p, c, z, d, g, w, pr);
    }
    var C1 := C[s'.ref := Black][g := Red];
    BalancedPlug(C, C1, t, g, s');
    RedPlug(C, C1, t, Null, false, g, s', Ptr(z), Null);
  }

  /** The mirror image of `LeftFixInTree`. */
  lemma RightFixInTree(C: map<Ref, Color>, t: Tree, z: Ref, g: Ref)
    requires Refs(t) <= C.Keys && Distinct(t) && BlackBalanced(C, t) && RedOk(C, t, false, Ptr(z))
    requires g in Refs(t) && SubAt(t, g).right.Node?
    requires Root(SubAt(t, g).right.right) == Ptr(z) || Root(SubAt(t, g).right.left) == Ptr(z)
    requires SubAt(t, g).right.ref in C && z in C && (SubAt(t, g).left.Node? ==> SubAt(t, g).left.ref in C)
    requires C[SubAt(t, g).right.ref] == Red && C[z] == Red && !IsRed(C, Root(SubAt(t, g).left))
    ensures Refs(ReplaceAt(t, g, RightFix(SubAt(t, g), z))) == Refs(t)
    ensures BlackBalanced(C[RightFix(SubAt(t, g), z).ref := Black][g := Red], ReplaceAt(t, g, RightFix(SubAt(t, g), z)))
    ensures RedOk(C[RightFix(SubAt(t, g), z).ref := Black][g := Red], ReplaceAt(t, g, RightFix(SubAt(t, g), z)), false, Null)
  {
    var s := SubAt(t, g);
    var Node(w, _, Node(m, p, a)) := s;
    SubDistinct(t, g);
    assert Distinct(s.right);
    GrandparentBlack(C, t, z, p, g);
    var pr := IsRed(C, ParentIn(t, g, Null));
    var s' := RightFix(s, z);
    if Root(a) == Ptr(z) {
      FixRightRight(C, w, g, m, p, a, pr);
    } else {
      var Node(d, _, c) := m;
      FixRightLeft(C, w, g, d, z, c, p, a, pr);
    }
    var C1 := C[s'.ref := Black][g := Red];
    BalancedPlug(C, C1, t, g, s');
    RedPlug(C, C1, t, Null, false, g, s', Ptr(z), Null);
  }
}
