/** AVL rebalancing on tree shapes.

    `avlInsert` of the tree engine does a plain BST insertion and then one
    bottom-up pass over the whole tree: each node first rebalances its two
    subtrees, then looks at its own balance factor (heights recomputed from
    scratch) and applies one of the four rotation cases. `Rebalance` is that pass. */
module Avl {
  import opened Shapes
  import SearchTree

  /** Every node's balance factor is -1, 0 or 1. */
  ghost predicate Balanced(t: Tree) {
    match t
    case Nil => true
    case Node(l, _, rt) => -1 <= Height(l) - Height(rt) <= 1 && Balanced(l) && Balanced(rt)
  }

  /** The rotation case chosen at one node: LL, RR, LR, RL, or none. */
  function Fix(t: Tree): (u: Tree)
    ensures InorderRefs(u) == InorderRefs(t) && Refs(u) == Refs(t)
    ensures Distinct(t) ==> Distinct(u)
  {
    if t.Nil? then t
    else
      var bf := BalanceFactor(t);
      if bf > 1 && BalanceFactor(t.left) >= 0 then
        RotateDistinct(t);
        RotateRight(t)
      else if bf < -1 && BalanceFactor(t.right) <= 0 then
        RotateDistinct(t);
        RotateLeft(t)
      else if bf > 1 && BalanceFactor(t.left) < 0 then
        var m := Node(RotateLeft(t.left), t.ref, t.right);
        assert InorderRefs(m) == InorderRefs(t);
        RotateDistinct(t.left);
        RotateDistinct(m);
        RotateRight(m)
      else if bf < -1 && BalanceFactor(t.right) > 0 then
        var m := Node(t.left, t.ref, RotateRight(t.right));
        assert InorderRefs(m) == InorderRefs(t);
        RotateDistinct(t.right);
        RotateDistinct(m);
        RotateLeft(m)
      else t
  }

  /** The bottom-up pass: subtrees first, then the node itself. */
  function Rebalance(t: Tree): (u: Tree)
    ensures InorderRefs(u) == InorderRefs(t) && Refs(u) == Refs(t)
    ensures Distinct(t) ==> Distinct(u)
    ensures t.Nil? <==> u.Nil?
  {
    match t
    case Nil => Nil
    case Node(l, x, rt) =>
      var m := Node(Rebalance(l), x, Rebalance(rt));
      assert InorderRefs(m) == InorderRefs(t);
      Fix(m)
  }

  // ---------------------------------------------------------------- lemmas

  /** A node that is already balanced is left alone. */
  lemma {:induction false} RebalanceBalanced(t: Tree)
    requires Balanced(t)
    ensures Rebalance(t) == t
  {
    match t
    case Nil =>
    case Node(l, x, rt) =>
      RebalanceBalanced(l);
      RebalanceBalanced(rt);
  }

  /** The values 3, 2, 1 held by the nodes 0, 1, 2 of `InsertDescending`. */
  function Descending(): map<Ref, real> {
    map[0 := 3.0, 1 := 2.0, 2 := 1.0]
  }

  /** Inserting 3, 2, 1 (nodes 0, 1, 2) with a rebalancing pass after each insertion gives
      the tree rooted at 2 with 1 and 3 below it. */
  lemma InsertDescending()
    ensures var t1 := Rebalance(SearchTree.Insert(Descending(), Nil, 3.0, 0));
            var t2 := Rebalance(SearchTree.Insert(Descending(), t1, 2.0, 1));
            var t3 := Rebalance(SearchTree.Insert(Descending(), t2, 1.0, 2));
            t3.Node? && t3.ref == 1 && SearchTree.Values(Descending(), t3) == [1.0, 2.0, 3.0] && Balanced(t3)
  {
    FirstInsert();
    SecondInsert();
    ThirdInsert();
    DescendingResult();
  }

  /** The first insertion of `InsertDescending` makes a single leaf, which is balanced. */
  lemma FirstInsert()
    ensures Rebalance(SearchTree.Insert(Descending(), Nil, 3.0, 0)) == Node(Nil, 0, Nil)
  {
    assert SearchTree.Insert(Descending(), Nil, 3.0, 0) == Node(Nil, 0, Nil);
    RebalanceBalanced(Node(Nil, 0, Nil));
  }

  /** The second insertion of `InsertDescending` hangs 2 left of 3 and needs no rotation. */
  lemma SecondInsert()
    ensures Rebalance(SearchTree.Insert(Descending(), Node(Nil, 0, Nil), 2.0, 1)) == Node(Node(Nil, 1, Nil), 0, Nil)
  {
    assert SearchTree.Insert(Descending(), Node(Nil, 0, Nil), 2.0, 1) == Node(Node(Nil, 1, Nil), 0, Nil);
    assert Balanced(Node(Node(Nil, 1, Nil), 0, Nil));
    RebalanceBalanced(Node(Node(Nil, 1, Nil), 0, Nil));
  }

  /** The tree `InsertDescending` ends with. */
  lemma DescendingResult()
    ensures var t3 := Node(Node(Nil, 2, Nil), 1, Node(Nil, 0, Nil));
            SearchTree.Values(Descending(), t3) == [1.0, 2.0, 3.0] && Balanced(t3)
  {
  }

  /** The third insertion of `InsertDescending` unbalances the root, and the LL case
      rotates it right. */
  lemma ThirdInsert()
    ensures Rebalance(SearchTree.Insert(Descending(), Node(Node(Nil, 1, Nil), 0, Nil), 1.0, 2)) ==
            Node(Node(Nil, 2, Nil), 1, Node(Nil, 0, Nil))
  {
    var u := SearchTree.Insert(Descending(), Node(Node(Nil, 1, Nil), 0, Nil), 1.0, 2);
    assert u == Node(Node(Node(Nil, 2, Nil), 1, Nil), 0, Nil) by {
      assert SearchTree.Insert(Descending(), Node(Nil, 1, Nil), 1.0, 2) == Node(Node(Nil, 2, Nil), 1, Nil);
    }
    LeftLeftRotates();
  }

  /** The left chain 3, 2, 1 is rebalanced by one right rotation at its root. */
  lemma LeftLeftRotates()
    ensures Rebalance(Node(Node(Node(Nil, 2, Nil), 1, Nil), 0, Nil)) == Node(Node(Nil, 2, Nil), 1, Node(Nil, 0, Nil))
  {
    var l := Node(Node(Nil, 2, Nil), 1, Nil);
    RebalanceBalanced(l);
    assert Height(l) == 2 && BalanceFactor(l) == 1;
    assert BalanceFactor(Node(l, 0, Nil)) == 2;
  }

  /** The fix at a node whose left subtree may have grown by one level. */
  lemma FixGrownLeft(l': Tree, x: Ref, rt: Tree, hl: nat)
    requires Balanced(l') && Balanced(rt)
    requires hl <= Height(rt) + 1 && Height(rt) <= hl + 1
    requires hl <= Height(l') <= hl + 1
    ensures Balanced(Fix(Node(l', x, rt)))
    ensures 1 + Max(hl, Height(rt)) <= Height(Fix(Node(l', x, rt))) <= 2 + Max(hl, Height(rt))
  {
    var t := Node(l', x, rt);
    if Height(l') == Height(rt) + 2 {
      var Node(a, y, m) := l';
      if Height(a) >= Height(m) {
        assert Fix(t) == Node(a, y, Node(m, x, rt));
        SingleRotation(a, y, m, x, rt);
      } else {
        var Node(b, w, c) := m;
        assert Fix(t) == Node(Node(a, y, b), w, Node(c, x, rt));
        DoubleRotation(a, y, b, w, c, x, rt);
      }
    } else {
      assert Fix(t) == t;
    }
  }

  /** LL: a left-heavy node whose left child is not right-heavy. */
  lemma SingleRotation(a: Tree, y: Ref, m: Tree, x: Ref, rt: Tree)
    requires Balanced(Node(a, y, m)) && Balanced(rt)
    requires Height(Node(a, y, m)) == Height(rt) + 2 && Height(a) >= Height(m)
    ensures Balanced(Node(a, y, Node(m, x, rt)))
    ensures Height(rt) + 2 <= Height(Node(a, y, Node(m, x, rt))) <= Height(rt) + 3
  {
    assert Height(a) == Height(rt) + 1;
    assert Height(Node(m, x, rt)) == Height(m) + 1;
  }

  /** LR: a left-heavy node whose left child is right-heavy. */
  lemma DoubleRotation(a: Tree, y: Ref, b: Tree, w: Ref, c: Tree, x: Ref, rt: Tree)
    requires Balanced(Node(a, y, Node(b, w, c))) && Balanced(rt)
    requires Height(Node(a, y, Node(b, w, c))) == Height(rt) + 2 && Height(a) < Height(Node(b, w, c))
    ensures Balanced(Node(Node(a, y, b), w, Node(c, x, rt)))
    ensures Height(Node(Node(a, y, b), w, Node(c, x, rt))) == Height(rt) + 2
  {
    assert Height(Node(b, w, c)) == Height(rt) + 1;
    assert Height(a) == Height(rt);
    assert Height(Node(a, y, b)) == Height(rt) + 1;
    assert Height(Node(c, x, rt)) == Height(rt) + 1;
  }

  /** RR: a right-heavy node whose right child is not left-heavy. */
  lemma SingleRotationRight(l: Tree, x: Ref, m: Tree, y: Ref, c: Tree)
    requires Balanced(l) && Balanced(Node(m, y, c))
    requires Height(Node(m, y, c)) == Height(l) + 2 && Height(c) >= Height(m)
    ensures Balanced(Node(Node(l, x, m), y, c))
    ensures Height(l) + 2 <= Height(Node(Node(l, x, m), y, c)) <= Height(l) + 3
  {
    assert Height(c) == Height(l) + 1;
    assert Height(Node(l, x, m)) == Height(m) + 1;
  }

  /** RL: a right-heavy node whose right child is left-heavy. */
  lemma DoubleRotationRight(l: Tree, x: Ref, a: Tree, w: Ref, b: Tree, y: Ref, c: Tree)
    requires Balanced(l) && Balanced(Node(Node(a, w, b), y, c))
    requires Height(Node(Node(a, w, b), y, c)) == Height(l) + 2 && Height(c) < Height(Node(a, w, b))
    ensures Balanced(Node(Node(l, x, a), w, Node(b, y, c)))
    ensures Height(Node(Node(l, x, a), w, Node(b, y, c))) == Height(l) + 2
  {
    assert Height(Node(a, w, b)) == Height(l) + 1;
    assert Height(c) == Height(l);
    assert Height(Node(l, x, a)) == Height(l) + 1;
    assert Height(Node(b, y, c)) == Height(l) + 1;
  }

  /** The fix at a node whose right subtree may have grown by one level. */
  lemma FixGrownRight(l: Tree, x: Ref, rt': Tree, hr: nat)
    requires Balanced(l) && Balanced(rt')
    requires hr <= Height(l) + 1 && Height(l) <= hr + 1
    requires hr <= Height(rt') <= hr + 1
    ensures Balanced(Fix(Node(l, x, rt')))
    ensures 1 + Max(Height(l), hr) <= Height(Fix(Node(l, x, rt'))) <= 2 + Max(Height(l), hr)
  {
    var t := Node(l, x, rt');
    if Height(rt') == Height(l) + 2 {
      var Node(m, y, c) := rt';
      if Height(c) >= Height(m) {
        assert Fix(t) == Node(Node(l, x, m), y, c);
        SingleRotationRight(l, x, m, y, c);
      } else {
        var Node(a, w, b) := m;
        assert Fix(t) == Node(Node(l, x, a), w, Node(b, y, c));
        DoubleRotationRight(l, x, a, w, b, y, c);
      }
    } else {
      assert Fix(t) == t;
    }
  }

  /** AVL insertion: inserting into a balanced tree and running the pass gives a
      balanced tree that is at most one level higher. */
  lemma {:induction false} InsertBalanced(V: map<Ref, real>, t: Tree, v: real, n: Ref)
    requires Refs(t) <= V.Keys && Balanced(t)
    ensures Balanced(Rebalance(SearchTree.Insert(V, t, v, n)))
    ensures Height(t) <= Height(Rebalance(SearchTree.Insert(V, t, v, n))) <= Height(t) + 1
  {
    match t
    case Nil =>
      assert Rebalance(SearchTree.Insert(V, t, v, n)) == Node(Nil, n, Nil);
    case Node(l, x, rt) =>
      RebalanceBalanced(l);
      RebalanceBalanced(rt);
      if v < V[x] {
        InsertBalanced(V, l, v, n);
        var l' := Rebalance(SearchTree.Insert(V, l, v, n));
        assert Rebalance(SearchTree.Insert(V, t, v, n)) == Fix(Node(l', x, rt));
        FixGrownLeft(l', x, rt, Height(l));
      } else {
        InsertBalanced(V, rt, v, n);
        var r' := Rebalance(SearchTree.Insert(V, rt, v, n));
        assert Rebalance(SearchTree.Insert(V, t, v, n)) == Fix(Node(l, x, r'));
        FixGrownRight(l, x, r', Height(rt));
      }
  }
}
