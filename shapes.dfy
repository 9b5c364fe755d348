/** Shapes of binary trees over node references.

    A node object of the visualiser is known here only by its identity, a `Ref`.
    A `Tree` records which node sits where; what a node holds (its value, its
    colour, its coordinates) lives in the stores of the modules that use it. */
module Shapes {

  /** Identity of a node object. */
  type Ref = nat

  /** A field that holds a node reference or `null`. */
  datatype Ptr = Null | Ptr(ref: Ref)

  /** A value that may be absent. */
  datatype Option<T> = None | Some(value: T)

  /** The shape of a binary tree: which node is where. */
  datatype Tree = Nil | Node(left: Tree, ref: Ref, right: Tree)

  /** The reference a field holds when it points at the root of `t`. */
  function Root(t: Tree): Ptr {
    if t.Nil? then Null else Ptr(t.ref)
  }

  function Refs(t: Tree): set<Ref> {
    match t
    case Nil => {}
    case Node(l, r, rt) => Refs(l) + {r} + Refs(rt)
  }

  function Size(t: Tree): nat {
    match t
    case Nil => 0
    case Node(l, _, rt) => Size(l) + 1 + Size(rt)
  }

  /** The nodes of `t` in in-order (left subtree, node, right subtree). */
  function InorderRefs(t: Tree): (s: seq<Ref>)
    ensures |s| == Size(t)
  {
    match t
    case Nil => []
    case Node(l, r, rt) => InorderRefs(l) + [r] + InorderRefs(rt)
  }

  /** No node occurs twice: the shape is a tree, not a graph with sharing. */
  ghost predicate Distinct(t: Tree) {
    match t
    case Nil => true
    case Node(l, r, rt) =>
      r !in Refs(l) && r !in Refs(rt) && Refs(l) !! Refs(rt) && Distinct(l) && Distinct(rt)
  }

  function Max(a: int, b: int): int {
    if a < b then b else a
  }

  /** Height of a tree: 0 for `null`, one more than the higher subtree otherwise. */
  function Height(t: Tree): nat {
    match t
    case Nil => 0
    case Node(l, _, rt) => 1 + Max(Height(l), Height(rt))
  }

  /** Left height minus right height; 0 for `null`. */
  function BalanceFactor(t: Tree): int {
    if t.Nil? then 0 else Height(t.left) - Height(t.right)
  }

  /** The shape a left rotation at the root of `t` produces. */
  function RotateLeft(t: Tree): (u: Tree)
    requires t.Node? && t.right.Node?
    ensures u.Node? && u.ref == t.right.ref && u.left.Node? && u.left.ref == t.ref
    ensures InorderRefs(u) == InorderRefs(t) && Refs(u) == Refs(t)
  {
    var u := Node(Node(t.left, t.ref, t.right.left), t.right.ref, t.right.right);
    assert InorderRefs(u) == InorderRefs(t.left) + [t.ref] + InorderRefs(t.right.left)
      + [t.right.ref] + InorderRefs(t.right.right);
    assert Refs(u) == Refs(t.left) + {t.ref} + Refs(t.right.left) + {t.right.ref} + Refs(t.right.right);
    u
  }

  /** The shape a right rotation at the root of `t` produces. */
  function RotateRight(t: Tree): (u: Tree)
    requires t.Node? && t.left.Node?
    ensures u.Node? && u.ref == t.left.ref && u.right.Node? && u.right.ref == t.ref
    ensures InorderRefs(u) == InorderRefs(t) && Refs(u) == Refs(t)
  {
    var u := Node(t.left.left, t.left.ref, Node(t.left.right, t.ref, t.right));
    assert InorderRefs(u) == InorderRefs(t.left.left) + [t.left.ref] + InorderRefs(t.left.right)
      + [t.ref] + InorderRefs(t.right);
    assert Refs(u) == Refs(t.left.left) + {t.left.ref} + Refs(t.left.right) + {t.ref} + Refs(t.right);
    u
  }

  lemma RotateDistinct(t: Tree)
    requires t.Node?
    ensures Distinct(t) && t.right.Node? ==> Distinct(RotateLeft(t))
    ensures Distinct(t) && t.left.Node? ==> Distinct(RotateRight(t))
  {
    if Distinct(t) && t.right.Node? { RotateLeftDistinct(t.left, t.ref, t.right.left, t.right.ref, t.right.right); }
    if Distinct(t) && t.left.Node? { RotateRightDistinct(t.left.left, t.left.ref, t.left.right, t.ref, t.right); }
  }

  lemma RotateLeftDistinct(a: Tree, x: Ref, b: Tree, y: Ref, c: Tree)
    requires Distinct(Node(a, x, Node(b, y, c)))
    ensures Distinct(Node(Node(a, x, b), y, c))
  {
    assert Refs(Node(b, y, c)) == Refs(b) + {y} + Refs(c);
    assert Refs(Node(a, x, b)) == Refs(a) + {x} + Refs(b);
  }

  lemma RotateRightDistinct(a: Tree, x: Ref, b: Tree, y: Ref, c: Tree)
    requires Distinct(Node(Node(a, x, b), y, c))
    ensures Distinct(Node(a, x, Node(b, y, c)))
  {
    assert Refs(Node(b, y, c)) == Refs(b) + {y} + Refs(c);
    assert Refs(Node(a, x, b)) == Refs(a) + {x} + Refs(b);
  }

  /** The node reached from the root by following `left` while it is not `null`. */
  function Leftmost(t: Tree): (r: Ref)
    requires t.Node?
    ensures r in Refs(t) && InorderRefs(t)[0] == r
  {
    if t.left.Nil? then t.ref else Leftmost(t.left)
  }

  /** The subtree of `t` whose root is `x`. */
  function SubAt(t: Tree, x: Ref): (s: Tree)
    requires x in Refs(t)
    ensures s.Node? && s.ref == x && Refs(s) <= Refs(t)
  {
    if t.ref == x then t
    else if x in Refs(t.left) then SubAt(t.left, x)
    else SubAt(t.right, x)
  }

  /** `t` with the subtree rooted at `x` replaced by `s`. */
  function ReplaceAt(t: Tree, x: Ref, s: Tree): Tree {
    match t
    case Nil => Nil
    case Node(l, r, rt) =>
      if r == x then s
      else if x in Refs(l) then Node(ReplaceAt(l, x, s), r, rt)
      else Node(l, r, ReplaceAt(rt, x, s))
  }

  /** The node that holds `x` as a child in `t`, or `top` when `x` is the root of `t`. */
  function ParentIn(t: Tree, x: Ref, top: Ptr): Ptr
    requires x in Refs(t)
  {
    if t.ref == x then top
    else if x in Refs(t.left) then ParentIn(t.left, x, Ptr(t.ref))
    else ParentIn(t.right, x, Ptr(t.ref))
  }

  /** Number of edges from the root of `t` down to `x`. */
  function Depth(t: Tree, x: Ref): nat
    requires x in Refs(t)
  {
    if t.ref == x then 0
    else if x in Refs(t.left) then 1 + Depth(t.left, x)
    else 1 + Depth(t.right, x)
  }

  /** The place of `x` in the in-order sequence of `t`, counted from 0. */
  function Column(t: Tree, x: Ref): nat
    requires x in Refs(t)
  {
    if t.ref == x then Size(t.left)
    else if x in Refs(t.left) then Column(t.left, x)
    else Size(t.left) + 1 + Column(t.right, x)
  }

  // ---------------------------------------------------------------- lemmas

  /** The in-order walk visits exactly the nodes of the tree. */
  lemma {:induction false} InorderMembers(t: Tree)
    ensures forall r :: r in InorderRefs(t) <==> r in Refs(t)
  {
    match t
    case Nil =>
    case Node(l, _, rt) =>
      InorderMembers(l);
      InorderMembers(rt);
  }

  lemma {:induction false} DistinctInorder(t: Tree)
    requires Distinct(t)
    ensures forall i, j :: 0 <= i < j < |InorderRefs(t)| ==> InorderRefs(t)[i] != InorderRefs(t)[j]
  {
    match t
    case Nil =>
    case Node(l, r, rt) =>
      DistinctInorder(l);
      DistinctInorder(rt);
      InorderMembers(l);
      InorderMembers(rt);
      var s := InorderRefs(t);
      var a, b := InorderRefs(l), InorderRefs(rt);
      assert s == a + [r] + b;
      forall i, j | 0 <= i < j < |s| ensures s[i] != s[j] {
        if j < |a| {
        } else if j == |a| {
          assert s[i] == a[i] && s[i] in Refs(l);
        } else if i < |a| {
          assert s[i] in Refs(l) && s[j] == b[j - |a| - 1] && s[j] in Refs(rt);
        } else if i == |a| {
          assert s[j] == b[j - |a| - 1] && s[j] in Refs(rt);
        } else {
          assert s[i] == b[i - |a| - 1] && s[j] == b[j - |a| - 1];
        }
      }
  }

  /** Replacing a subtree by itself changes nothing. */
  lemma {:induction false} ReplaceAtSelf(t: Tree, x: Ref)
    requires x in Refs(t)
    ensures ReplaceAt(t, x, SubAt(t, x)) == t
  {
    if t.ref != x {
      if x in Refs(t.left) { ReplaceAtSelf(t.left, x); } else { ReplaceAtSelf(t.right, x); }
    }
  }

  lemma {:induction false} ReplaceAtRefs(t: Tree, x: Ref, s: Tree)
    requires Distinct(t) && x in Refs(t)
    ensures Refs(ReplaceAt(t, x, s)) == (Refs(t) - Refs(SubAt(t, x))) + Refs(s)
    ensures Refs(SubAt(t, x)) <= Refs(t)
  {
    if t.ref != x {
      if x in Refs(t.left) { ReplaceAtRefs(t.left, x, s); } else { ReplaceAtRefs(t.right, x, s); }
    }
  }

  lemma {:induction false} ReplaceAtDistinct(t: Tree, x: Ref, s: Tree)
    requires Distinct(t) && x in Refs(t) && Distinct(s)
    requires Refs(s) !! (Refs(t) - Refs(SubAt(t, x)))
    ensures Distinct(ReplaceAt(t, x, s))
  {
    if t.ref != x {
      if x in Refs(t.left) {
        ReplaceAtDistinct(t.left, x, s);
        ReplaceAtRefs(t.left, x, s);
      } else {
        ReplaceAtDistinct(t.right, x, s);
        ReplaceAtRefs(t.right, x, s);
      }
    }
  }

  /** A replacement with the same in-order keeps the in-order of the whole tree. */
  lemma {:induction false} ReplaceAtInorder(t: Tree, x: Ref, s: Tree)
    requires x in Refs(t) && InorderRefs(s) == InorderRefs(SubAt(t, x))
    ensures InorderRefs(ReplaceAt(t, x, s)) == InorderRefs(t)
  {
    if t.ref != x {
      if x in Refs(t.left) { ReplaceAtInorder(t.left, x, s); } else { ReplaceAtInorder(t.right, x, s); }
    }
  }

  lemma {:induction false} ReplaceAtSize(t: Tree, x: Ref, s: Tree)
    requires x in Refs(t)
    ensures Size(ReplaceAt(t, x, s)) == Size(t) - Size(SubAt(t, x)) + Size(s)
    ensures Size(SubAt(t, x)) <= Size(t)
  {
    if t.ref != x {
      if x in Refs(t.left) { ReplaceAtSize(t.left, x, s); } else { ReplaceAtSize(t.right, x, s); }
    }
  }

  /** Within a tree without sharing, the subtree at `g` seen after a replacement below `g`. */
  lemma {:induction false} SubAtAfterReplace(t: Tree, g: Ref, p: Ref, s: Tree)
    requires Distinct(t) && g in Refs(t) && p in Refs(SubAt(t, g)) && p != g
    requires Refs(s) == Refs(SubAt(t, p))
    ensures p in Refs(t) && g in Refs(ReplaceAt(t, p, s))
    ensures SubAt(ReplaceAt(t, p, s), g) == ReplaceAt(SubAt(t, g), p, s)
  {
    SubAtNested(t, g, p);
    ReplaceAtRefs(t, p, s);
    if t.ref == g {
    } else if g in Refs(t.left) {
      SubAtGuard(t, g, p);
      SubAtNested(t.left, g, p);
      SubAtAfterReplace(t.left, g, p, s);
      ReplaceAtRefs(t.left, p, s);
    } else {
      SubAtGuard(t, g, p);
      SubAtNested(t.right, g, p);
      SubAtAfterReplace(t.right, g, p, s);
      ReplaceAtRefs(t.right, p, s);
    }
  }

  /** The nodes of a subtree of a subtree are nodes of the tree, below the outer root. */
  lemma {:induction false} SubAtNested(t: Tree, g: Ref, p: Ref)
    requires Distinct(t) && g in Refs(t) && p in Refs(SubAt(t, g))
    ensures p in Refs(t) && SubAt(SubAt(t, g), p) == SubAt(t, p)
  {
    if t.ref == g {
    } else if g in Refs(t.left) {
      SubAtNested(t.left, g, p);
    } else {
      SubAtNested(t.right, g, p);
    }
  }

  /** In a tree without sharing, `p` below `g` lies on the same side as `g`. */
  lemma SubAtGuard(t: Tree, g: Ref, p: Ref)
    requires Distinct(t) && g in Refs(t) && p in Refs(SubAt(t, g)) && t.ref != g
    ensures g in Refs(t.left) ==> p in Refs(t.left) && p != t.ref
    ensures g !in Refs(t.left) ==> p in Refs(t.right) && p != t.ref && p !in Refs(t.left)
  {
  }

  /** Two replacements, the second above the first, amount to the second alone. */
  lemma {:induction false} ReplaceTwice(t: Tree, g: Ref, p: Ref, s1: Tree, s2: Tree)
    requires Distinct(t) && g in Refs(t) && p in Refs(SubAt(t, g)) && p != g
    requires Refs(s1) == Refs(SubAt(t, p))
    ensures ReplaceAt(ReplaceAt(t, p, s1), g, s2) == ReplaceAt(t, g, s2)
  {
    SubAtNested(t, g, p);
    if t.ref == g {
    } else if g in Refs(t.left) {
      SubAtGuard(t, g, p);
      ReplaceAtRefs(t.left, p, s1);
      ReplaceTwice(t.left, g, p, s1, s2);
    } else {
      SubAtGuard(t, g, p);
      ReplaceAtRefs(t.right, p, s1);
      ReplaceTwice(t.right, g, p, s1, s2);
    }
  }

  /** What `ParentIn` names: `top` at the root, otherwise a node of `t` one level up. */
  lemma {:induction false} ParentInFacts(t: Tree, x: Ref, top: Ptr)
    requires Distinct(t) && x in Refs(t)
    ensures x == t.ref ==> ParentIn(t, x, top) == top
    ensures x != t.ref ==> ParentIn(t, x, top).Ptr? && ParentIn(t, x, top).ref in Refs(t)
    ensures x != t.ref ==>
      var q := ParentIn(t, x, top).ref;
      var sq := SubAt(t, q);
      (sq.left.Node? && sq.left.ref == x) || (sq.right.Node? && sq.right.ref == x)
    ensures x != t.ref ==> Depth(t, ParentIn(t, x, top).ref) + 1 == Depth(t, x)
    ensures x != t.ref ==> x in Refs(SubAt(t, ParentIn(t, x, top).ref))
  {
    if t.ref == x {
    } else if x in Refs(t.left) {
      if t.left.ref != x {
        ParentInFacts(t.left, x, Ptr(t.ref));
        ParentInTop(t.left, x, Ptr(t.ref));
      }
    } else {
      if t.right.ref != x {
        ParentInFacts(t.right, x, Ptr(t.ref));
        ParentInTop(t.right, x, Ptr(t.ref));
      }
    }
  }

  /** Below the root, the parent does not depend on `top`. */
  lemma {:induction false} ParentInTop(t: Tree, x: Ref, top: Ptr)
    requires Distinct(t) && x in Refs(t) && x != t.ref
    ensures ParentIn(t, x, top) == ParentIn(t, x, Null) && ParentIn(t, x, top).Ptr?
    ensures ParentIn(t, x, top).ref in Refs(t)
  {
    if x in Refs(t.left) {
      if t.left.ref != x { ParentInTop(t.left, x, Ptr(t.ref)); }
    } else {
      if t.right.ref != x { ParentInTop(t.right, x, Ptr(t.ref)); }
    }
  }

  /** Subtrees of a tree without sharing have no sharing. */
  lemma {:induction false} SubDistinct(t: Tree, x: Ref)
    requires Distinct(t) && x in Refs(t)
    ensures Distinct(SubAt(t, x))
  {
    if t.ref != x {
      if x in Refs(t.left) { SubDistinct(t.left, x); } else { SubDistinct(t.right, x); }
    }
  }
  /** `Column` is the place in the in-order sequence: the node found there is `x`. */
  lemma {:induction false} ColumnInorder(t: Tree, x: Ref)
    requires x in Refs(t)
    ensures Column(t, x) < Size(t) && InorderRefs(t)[Column(t, x)] == x
  {
    if t.ref != x {
      if x in Refs(t.left) {
        ColumnInorder(t.left, x);
        assert InorderRefs(t) == InorderRefs(t.left) + [t.ref] + InorderRefs(t.right);
      } else {
        ColumnInorder(t.right, x);
        assert InorderRefs(t) == InorderRefs(t.left) + [t.ref] + InorderRefs(t.right);
      }
    }
  }
}
