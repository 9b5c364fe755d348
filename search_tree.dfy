/** Binary search trees over tree shapes whose nodes carry numeric values.

    `Insert` and `Delete` are the shape-level meaning of the recursive `bstInsert`
    and `bstDelete` of the tree engine (and of the visualiser's `insertNode`): a
    value smaller than the node's goes left, anything else goes right. */
module SearchTree {
  import opened Shapes

  /** The values of `t` in in-order. */
  function Values(V: map<Ref, real>, t: Tree): (s: seq<real>)
    requires Refs(t) <= V.Keys
    ensures |s| == Size(t)
  {
    match t
    case Nil => []
    case Node(l, x, rt) => Values(V, l) + [V[x]] + Values(V, rt)
  }

  /** Non-decreasing: the search-tree order, with room for equal values. */
  ghost predicate Sorted(s: seq<real>) {
    forall i, j :: 0 <= i < j < |s| ==> s[i] <= s[j]
  }

  ghost predicate AllAtMost(s: seq<real>, k: real) {
    forall i :: 0 <= i < |s| ==> s[i] <= k
  }

  ghost predicate AllAtLeast(s: seq<real>, k: real) {
    forall i :: 0 <= i < |s| ==> k <= s[i]
  }

  /** `v` placed in front of the first element greater than `v`. */
  function InsertSorted(s: seq<real>, v: real): (r: seq<real>)
    ensures |r| == |s| + 1
  {
    if s == [] then [v]
    else if v < s[0] then [v] + s
    else [s[0]] + InsertSorted(s[1..], v)
  }

  /** The BST insertion on shapes: `n` becomes a new leaf; ties go right. */
  function Insert(V: map<Ref, real>, t: Tree, v: real, n: Ref): (u: Tree)
    requires Refs(t) <= V.Keys
    ensures u.Node? && Refs(u) == Refs(t) + {n} && Size(u) == Size(t) + 1
    ensures t.Node? ==> u.ref == t.ref
    ensures Height(t) <= Height(u) <= Height(t) + 1
  {
    match t
    case Nil => Node(Nil, n, Nil)
    case Node(l, x, rt) =>
      if v < V[x] then Node(Insert(V, l, v, n), x, rt) else Node(l, x, Insert(V, rt, v, n))
  }

  /** The BST deletion on shapes, together with the values after it: a node with two
      children takes its in-order successor's value, which is then deleted from the right. */
  function Delete(V: map<Ref, real>, t: Tree, v: real): (res: (Tree, map<Ref, real>))
    requires Refs(t) <= V.Keys
    ensures Refs(res.0) <= Refs(t) && res.1.Keys == V.Keys
    ensures forall q :: q in V && q !in Refs(t) ==> res.1[q] == V[q]
    decreases t
  {
    match t
    case Nil => (Nil, V)
    case Node(l, x, rt) =>
      if v < V[x] then
        var (l', V') := Delete(V, l, v);
        (Node(l', x, rt), V')
      else if v > V[x] then
        var (r', V') := Delete(V, rt, v);
        (Node(l, x, r'), V')
      else if l.Nil? then (rt, V)
      else if rt.Nil? then (l, V)
      else
        var sv := V[Leftmost(rt)];
        var (r', V') := Delete(V[x := sv], rt, sv);
        (Node(l, x, r'), V')
  }

  // ---------------------------------------------------------------- lemmas

  /** The values of `t` depend only on the values of its own nodes. */
  lemma {:induction false} ValuesFrame(V0: map<Ref, real>, V1: map<Ref, real>, t: Tree)
    requires Refs(t) <= V0.Keys && Refs(t) <= V1.Keys
    requires forall q :: q in Refs(t) ==> V1[q] == V0[q]
    ensures Values(V1, t) == Values(V0, t)
  {
    match t
    case Nil =>
    case Node(l, x, rt) =>
      ValuesFrame(V0, V1, l);
      ValuesFrame(V0, V1, rt);
  }

  /** The values are read off the in-order node sequence one by one. */
  lemma {:induction false} ValuesAt(V: map<Ref, real>, t: Tree)
    requires Refs(t) <= V.Keys
    ensures forall i :: 0 <= i < |InorderRefs(t)| ==>
              InorderRefs(t)[i] in V && Values(V, t)[i] == V[InorderRefs(t)[i]]
  {
    match t
    case Nil =>
    case Node(l, x, rt) =>
      ValuesAt(V, l);
      ValuesAt(V, rt);
      var k := |InorderRefs(l)|;
      forall i | 0 <= i < |InorderRefs(t)|
        ensures InorderRefs(t)[i] in V && Values(V, t)[i] == V[InorderRefs(t)[i]]
      {
        if i < k {
        } else if i == k {
        } else {
          assert InorderRefs(t)[i] == InorderRefs(rt)[i - k - 1];
          assert Values(V, t)[i] == Values(V, rt)[i - k - 1];
        }
      }
  }

  /** Rearranging a tree without changing its in-order node sequence keeps its values:
      why rotations and rebalancing keep a search tree sorted. */
  lemma ValuesInorder(V: map<Ref, real>, a: Tree, b: Tree)
    requires Refs(a) <= V.Keys && Refs(b) <= V.Keys && InorderRefs(a) == InorderRefs(b)
    ensures Values(V, a) == Values(V, b)
  {
    ValuesAt(V, a);
    ValuesAt(V, b);
  }

  /** The two sides of a sorted join are sorted and lie on either side of the middle. */
  lemma SortedSplit(a: seq<real>, k: real, b: seq<real>)
    requires Sorted(a + [k] + b)
    ensures Sorted(a) && Sorted(b) && AllAtMost(a, k) && AllAtLeast(b, k)
  {
    var s := a + [k] + b;
    assert forall i :: 0 <= i < |a| ==> s[i] == a[i];
    assert forall i :: 0 <= i < |b| ==> s[|a| + 1 + i] == b[i];
    assert s[|a|] == k;
  }

  lemma InorderOrder(V: map<Ref, real>, t: Tree)
    requires t.Node? && Refs(t) <= V.Keys && Sorted(Values(V, t))
    ensures Sorted(Values(V, t.left)) && Sorted(Values(V, t.right))
    ensures AllAtMost(Values(V, t.left), V[t.ref]) && AllAtLeast(Values(V, t.right), V[t.ref])
  {
    assert Values(V, t) == Values(V, t.left) + [V[t.ref]] + Values(V, t.right);
    SortedSplit(Values(V, t.left), V[t.ref], Values(V, t.right));
  }

  lemma SortedJoin(a: seq<real>, k: real, b: seq<real>)
    requires Sorted(a) && Sorted(b) && AllAtMost(a, k) && AllAtLeast(b, k)
    ensures Sorted(a + [k] + b)
  {
    var s := a + [k] + b;
    forall i, j | 0 <= i < j < |s| ensures s[i] <= s[j] {
      if j < |a| {
      } else if i < |a| && j > |a| {
        assert s[i] == a[i] && s[j] == b[j - |a| - 1];
      } else if i > |a| {
        assert s[i] == b[i - |a| - 1] && s[j] == b[j - |a| - 1];
      }
    }
  }

  /** Sorted insertion adds exactly one copy of the value. */
  lemma {:induction false} InsertSortedMultiset(s: seq<real>, v: real)
    ensures multiset(InsertSorted(s, v)) == multiset(s) + multiset{v}
  {
    if s != [] && v >= s[0] {
      InsertSortedMultiset(s[1..], v);
      assert s == [s[0]] + s[1..];
    }
  }

  /** Sorted insertion of a value at least `k` into elements at least `k`. */
  lemma {:induction false} InsertSortedAtLeast(s: seq<real>, v: real, k: real)
    requires AllAtLeast(s, k) && k <= v
    ensures AllAtLeast(InsertSorted(s, v), k)
  {
    if s != [] && v >= s[0] {
      assert AllAtLeast(s[1..], k) by {
        forall i | 0 <= i < |s[1..]| ensures k <= s[1..][i] { assert s[1..][i] == s[i + 1]; }
      }
      InsertSortedAtLeast(s[1..], v, k);
    }
  }

  /** A sorted sequence is its first element followed by a sorted rest at least that large. */
  lemma SortedTail(s: seq<real>)
    requires Sorted(s) && s != []
    ensures Sorted(s[1..]) && AllAtLeast(s[1..], s[0]) && AllAtLeast(s, s[0])
  {
    forall i | 0 <= i < |s[1..]| ensures s[0] <= s[1..][i] {
      assert s[1..][i] == s[i + 1];
    }
    forall i, j | 0 <= i < j < |s[1..]| ensures s[1..][i] <= s[1..][j] {
      assert s[1..][i] == s[i + 1] && s[1..][j] == s[j + 1];
    }
  }

  /** An element in front of a sorted sequence no smaller than it keeps it sorted. */
  lemma SortedCons(k: real, s: seq<real>)
    requires Sorted(s) && AllAtLeast(s, k)
    ensures Sorted([k] + s)
  {
    var r := [k] + s;
    forall i, j | 0 <= i < j < |r| ensures r[i] <= r[j] {
      assert r[j] == s[j - 1];
      if i > 0 { assert r[i] == s[i - 1]; }
    }
  }

  /** Sorted insertion keeps a sequence sorted. */
  lemma {:induction false} InsertSortedSorted(s: seq<real>, v: real)
    requires Sorted(s)
    ensures Sorted(InsertSorted(s, v))
  {
    if s == [] {
    } else if v < s[0] {
      SortedTail(s);
      assert AllAtLeast(s, v);
      SortedCons(v, s);
    } else {
      SortedTail(s);
      InsertSortedSorted(s[1..], v);
      InsertSortedAtLeast(s[1..], v, s[0]);
      SortedCons(s[0], InsertSorted(s[1..], v));
    }
  }

  /** Inserting in front of a larger element leaves everything from it on alone. */
  lemma {:induction false} InsertSortedBefore(a: seq<real>, k: real, b: seq<real>, v: real)
    requires v < k
    ensures InsertSorted(a + [k] + b, v) == InsertSorted(a, v) + [k] + b
  {
    if a == [] {
      assert a + [k] + b == [k] + b;
    } else {
      var c := a + [k] + b;
      assert c[0] == a[0] && c[1..] == a[1..] + [k] + b;
      if v >= a[0] {
        InsertSortedBefore(a[1..], k, b, v);
        assert InsertSorted(c, v) == [a[0]] + InsertSorted(a[1..], v) + [k] + b;
      }
    }
  }

  /** Inserting after a prefix of elements at most `v` skips the prefix. */
  lemma {:induction false} InsertSortedAfter(a: seq<real>, k: real, b: seq<real>, v: real)
    requires AllAtMost(a, k) && k <= v
    ensures InsertSorted(a + [k] + b, v) == a + [k] + InsertSorted(b, v)
  {
    var c := a + [k] + b;
    if a == [] {
      assert c == [k] + b && c[0] == k && c[1..] == b;
    } else {
      assert c[0] == a[0] && c[1..] == a[1..] + [k] + b;
      assert a[0] <= v;
      assert AllAtMost(a[1..], k) by {
        forall i | 0 <= i < |a[1..]| ensures a[1..][i] <= k { assert a[1..][i] == a[i + 1]; }
      }
      InsertSortedAfter(a[1..], k, b, v);
      assert a == [a[0]] + a[1..];
    }
  }

  /** On a search tree, insertion puts the value in its sorted place in the in-order sequence. */
  lemma {:induction false} InsertValues(V: map<Ref, real>, t: Tree, v: real, n: Ref)
    requires Refs(t) <= V.Keys && n !in Refs(t) && Sorted(Values(V, t))
    ensures Refs(Insert(V, t, v, n)) <= V[n := v].Keys
    ensures Values(V[n := v], Insert(V, t, v, n)) == InsertSorted(Values(V, t), v)
  {
    var V' := V[n := v];
    match t
    case Nil =>
      assert Values(V', Insert(V, t, v, n)) == [v];
    case Node(l, x, rt) =>
      InorderOrder(V, t);
      ValuesFrame(V, V', l);
      ValuesFrame(V, V', rt);
      var a, b := Values(V, l), Values(V, rt);
      var k := V[x];
      assert V'[x] == k;
      var u := Insert(V, t, v, n);
      if v < k {
        var l' := Insert(V, l, v, n);
        InsertValues(V, l, v, n);
        assert Values(V', u) == Values(V', l') + [k] + b;
        InsertSortedBefore(a, k, b, v);
      } else {
        var r' := Insert(V, rt, v, n);
        InsertValues(V, rt, v, n);
        assert Values(V', u) == a + [k] + Values(V', r');
        InsertSortedAfter(a, k, b, v);
      }
  }

  /** A restructuring that keeps the in-order sequence of the insertion, as the rotations
      of a fix-up do, keeps what the insertion does to the values. */
  lemma InsertReshaped(V: map<Ref, real>, t: Tree, v: real, n: Ref, T: Tree)
    requires Refs(t) <= V.Keys && n !in Refs(t)
    requires Refs(T) == Refs(Insert(V, t, v, n)) && InorderRefs(T) == InorderRefs(Insert(V, t, v, n))
    ensures multiset(Values(V[n := v], T)) == multiset(Values(V, t)) + multiset{v}
    ensures Sorted(Values(V, t)) ==> Values(V[n := v], T) == InsertSorted(Values(V, t), v)
  {
    var u := Insert(V, t, v, n);
    ValuesInorder(V[n := v], u, T);
    InsertMultiset(V, t, v, n);
    if Sorted(Values(V, t)) {
      InsertValues(V, t, v, n);
    }
  }

  /** Insertion keeps a search tree a search tree. */
  lemma InsertSorts(V: map<Ref, real>, t: Tree, v: real, n: Ref)
    requires Refs(t) <= V.Keys && n !in Refs(t) && Sorted(Values(V, t))
    ensures Refs(Insert(V, t, v, n)) <= V[n := v].Keys
    ensures Sorted(Values(V[n := v], Insert(V, t, v, n)))
  {
    InsertValues(V, t, v, n);
    InsertSortedSorted(Values(V, t), v);
  }

  lemma MultisetJoin(a: seq<real>, k: real, b: seq<real>)
    ensures multiset(a + [k] + b) == multiset(a) + multiset{k} + multiset(b)
  {
  }

  lemma MultisetShuffle(A: multiset<real>, B: multiset<real>, k: real, v: real)
    ensures (A + multiset{v}) + multiset{k} + B == (A + multiset{k} + B) + multiset{v}
    ensures A + multiset{k} + (B + multiset{v}) == (A + multiset{k} + B) + multiset{v}
  {
  }

  /** Growing one side of a join by one copy of `v` grows the join by it. */
  lemma JoinGrown(a: seq<real>, a': seq<real>, k: real, b: seq<real>, b': seq<real>, v: real)
    requires (a' == a && multiset(b') == multiset(b) + multiset{v})
          || (b' == b && multiset(a') == multiset(a) + multiset{v})
    ensures multiset(a' + [k] + b') == multiset(a + [k] + b) + multiset{v}
  {
    MultisetJoin(a, k, b);
    MultisetJoin(a', k, b');
    MultisetShuffle(multiset(a), multiset(b), k, v);
  }

  /** The in-order values after an insertion below a node, split at that node. */
  lemma InsertSplit(V: map<Ref, real>, t: Tree, v: real, n: Ref)
    requires t.Node? && Refs(t) <= V.Keys && n !in Refs(t)
    ensures Values(V[n := v], Insert(V, t, v, n))
         == (if v < V[t.ref] then Values(V[n := v], Insert(V, t.left, v, n)) else Values(V, t.left))
            + [V[t.ref]]
            + (if v < V[t.ref] then Values(V, t.right) else Values(V[n := v], Insert(V, t.right, v, n)))
  {
    ValuesFrame(V, V[n := v], t.left);
    ValuesFrame(V, V[n := v], t.right);
  }

  /** On any shape, insertion adds exactly one copy of the value. */
  lemma {:induction false} InsertMultiset(V: map<Ref, real>, t: Tree, v: real, n: Ref)
    requires Refs(t) <= V.Keys && n !in Refs(t)
    ensures Refs(Insert(V, t, v, n)) <= V[n := v].Keys
    ensures multiset(Values(V[n := v], Insert(V, t, v, n))) == multiset(Values(V, t)) + multiset{v}
  {
    match t
    case Nil =>
      assert Values(V[n := v], Insert(V, t, v, n)) == [v];
    case Node(l, x, rt) =>
      var V' := V[n := v];
      InsertSplit(V, t, v, n);
      if v < V[x] {
        InsertMultiset(V, l, v, n);
        JoinGrown(Values(V, l), Values(V', Insert(V, l, v, n)), V[x], Values(V, rt), Values(V, rt), v);
      } else {
        InsertMultiset(V, rt, v, n);
        JoinGrown(Values(V, l), Values(V, l), V[x], Values(V, rt), Values(V', Insert(V, rt, v, n)), v);
      }
  }

  /** Insertion keeps a tree free of sharing when the new node is fresh. */
  lemma {:induction false} InsertDistinct(V: map<Ref, real>, t: Tree, v: real, n: Ref)
    requires Refs(t) <= V.Keys && n !in Refs(t) && Distinct(t)
    ensures Distinct(Insert(V, t, v, n))
  {
    match t
    case Nil =>
    case Node(l, x, rt) =>
      if v < V[x] { InsertDistinct(V, l, v, n); } else { InsertDistinct(V, rt, v, n); }
  }

  /** Deleting a value the tree does not hold changes neither the shape nor the values. */
  lemma {:induction false} DeleteAbsent(V: map<Ref, real>, t: Tree, v: real)
    requires Refs(t) <= V.Keys && v !in Values(V, t)
    ensures Delete(V, t, v) == (t, V)
  {
    match t
    case Nil =>
    case Node(l, x, rt) =>
      assert Values(V, t) == Values(V, l) + [V[x]] + Values(V, rt);
      if v < V[x] { DeleteAbsent(V, l, v); }
      else if v > V[x] { DeleteAbsent(V, rt, v); }
  }

  lemma MultisetBound(a: seq<real>, b: seq<real>, k: real)
    requires multiset(b) <= multiset(a)
    ensures AllAtMost(a, k) ==> AllAtMost(b, k)
    ensures AllAtLeast(a, k) ==> AllAtLeast(b, k)
  {
    forall i | 0 <= i < |b| ensures b[i] in a {
      assert b[i] in multiset(b);
    }
  }

  lemma {:induction false} LeftmostValue(V: map<Ref, real>, t: Tree)
    requires t.Node? && Refs(t) <= V.Keys
    ensures Values(V, t)[0] == V[Leftmost(t)]
    decreases t
  {
    if t.left.Node? {
      LeftmostValue(V, t.left);
      assert Values(V, t) == Values(V, t.left) + ([V[t.ref]] + Values(V, t.right));
    }
  }

  /** Removing one copy of `v` from the part left of `k`. */
  lemma RemoveLeft(a: seq<real>, k: real, b: seq<real>, a': seq<real>, v: real)
    requires Sorted(a') && Sorted(b) && AllAtMost(a, k) && AllAtLeast(b, k)
    requires v in a && multiset(a') == multiset(a) - multiset{v}
    ensures multiset(a' + [k] + b) == multiset(a + [k] + b) - multiset{v}
    ensures Sorted(a' + [k] + b)
  {
    MultisetBound(a, a', k);
    SortedJoin(a', k, b);
    MultisetJoin(a', k, b);
    MultisetJoin(a, k, b);
    assert v in multiset(a);
  }

  /** Removing one copy of `v` from the part right of `k`. */
  lemma RemoveRight(a: seq<real>, k: real, b: seq<real>, b': seq<real>, v: real)
    requires Sorted(a) && Sorted(b') && AllAtMost(a, k) && AllAtLeast(b, k)
    requires v in b && multiset(b') == multiset(b) - multiset{v}
    ensures multiset(a + [k] + b') == multiset(a + [k] + b) - multiset{v}
    ensures Sorted(a + [k] + b')
  {
    MultisetBound(b, b', k);
    SortedJoin(a, k, b');
    MultisetJoin(a, k, b');
    MultisetJoin(a, k, b);
    assert v in multiset(b);
  }

  /** Replacing `v` by the first element `sv` of the right part and removing that one copy of `sv`. */
  lemma RemoveBySuccessor(a: seq<real>, v: real, b: seq<real>, b': seq<real>)
    requires Sorted(a) && Sorted(b) && Sorted(b') && AllAtMost(a, v) && AllAtLeast(b, v) && b != []
    requires multiset(b') == multiset(b) - multiset{b[0]}
    ensures multiset(a + [b[0]] + b') == multiset(a + [v] + b) - multiset{v}
    ensures Sorted(a + [b[0]] + b')
  {
    var sv := b[0];
    assert AllAtLeast(b, sv);
    MultisetBound(b, b', sv);
    assert AllAtMost(a, sv) by {
      forall i | 0 <= i < |a| ensures a[i] <= sv { }
    }
    SortedJoin(a, sv, b');
    MultisetJoin(a, sv, b');
    MultisetJoin(a, v, b);
    assert sv in multiset(b);
  }

  /** On a search tree without sharing, deleting a value it holds removes exactly one
      copy of it and leaves a search tree. */
  lemma {:induction false} DeletePresent(V: map<Ref, real>, t: Tree, v: real)
    requires Refs(t) <= V.Keys && Distinct(t) && Sorted(Values(V, t)) && v in Values(V, t)
    ensures Refs(Delete(V, t, v).0) <= Delete(V, t, v).1.Keys
    ensures multiset(Values(Delete(V, t, v).1, Delete(V, t, v).0)) == multiset(Values(V, t)) - multiset{v}
    ensures Sorted(Values(Delete(V, t, v).1, Delete(V, t, v).0))
    decreases t
  {
    DeleteSides(V, t, v);
    if v < V[t.ref] {
      DeletePresent(V, t.left, v);
      DeleteLeftStep(V, t, v);
    } else if v > V[t.ref] {
      DeletePresent(V, t.right, v);
      DeleteRightStep(V, t, v);
    } else if t.left.Nil? || t.right.Nil? {
      DeleteOneChild(V, t, v);
    } else {
      var sv := V[Leftmost(t.right)];
      DeleteSuccessorPre(V, t);
      DeletePresent(V[t.ref := sv], t.right, sv);
      DeleteSuccessorStep(V, t, v);
    }
  }

  /** Where a value held by a search tree lies relative to its root. */
  lemma DeleteSides(V: map<Ref, real>, t: Tree, v: real)
    requires Refs(t) <= V.Keys && Sorted(Values(V, t)) && v in Values(V, t)
    ensures t.Node?
    ensures Sorted(Values(V, t.left)) && Sorted(Values(V, t.right))
    ensures AllAtMost(Values(V, t.left), V[t.ref]) && AllAtLeast(Values(V, t.right), V[t.ref])
    ensures v < V[t.ref] ==> v in Values(V, t.left)
    ensures v > V[t.ref] ==> v in Values(V, t.right)
  {
    assert Values(V, t) == Values(V, t.left) + [V[t.ref]] + Values(V, t.right);
    InorderOrder(V, t);
  }

  /** The step of `DeletePresent` at a node holding the value with at most one child. */
  lemma DeleteOneChild(V: map<Ref, real>, t: Tree, v: real)
    requires t.Node? && (t.left.Nil? || t.right.Nil?) && Refs(t) <= V.Keys && v == V[t.ref]
    requires Sorted(Values(V, t.left)) && Sorted(Values(V, t.right))
    ensures Refs(Delete(V, t, v).0) <= Delete(V, t, v).1.Keys
    ensures multiset(Values(Delete(V, t, v).1, Delete(V, t, v).0)) == multiset(Values(V, t)) - multiset{v}
    ensures Sorted(Values(Delete(V, t, v).1, Delete(V, t, v).0))
  {
    if t.left.Nil? {
      assert Values(V, t) == [v] + Values(V, t.right);
    } else {
      assert Values(V, t) == Values(V, t.left) + [v];
    }
  }

  /** What the recursive deletion of the successor needs. */
  lemma DeleteSuccessorPre(V: map<Ref, real>, t: Tree)
    requires t.Node? && t.right.Node? && Refs(t) <= V.Keys && Distinct(t) && Sorted(Values(V, t.right))
    ensures var V1 := V[t.ref := V[Leftmost(t.right)]];
            Refs(t.right) <= V1.Keys && Distinct(t.right) && Sorted(Values(V1, t.right))
            && V[Leftmost(t.right)] in Values(V1, t.right)
  {
    var V1 := V[t.ref := V[Leftmost(t.right)]];
    ValuesFrame(V, V1, t.right);
    LeftmostValue(V, t.right);
  }

  /** The step of `DeletePresent` when the value lies to the left. */
  lemma DeleteLeftStep(V: map<Ref, real>, t: Tree, v: real)
    requires t.Node? && Refs(t) <= V.Keys && Distinct(t) && v < V[t.ref]
    requires Sorted(Values(V, t.left)) && Sorted(Values(V, t.right)) && v in Values(V, t.left)
    requires AllAtMost(Values(V, t.left), V[t.ref]) && AllAtLeast(Values(V, t.right), V[t.ref])
    requires Refs(Delete(V, t.left, v).0) <= Delete(V, t.left, v).1.Keys
    requires multiset(Values(Delete(V, t.left, v).1, Delete(V, t.left, v).0))
             == multiset(Values(V, t.left)) - multiset{v}
    requires Sorted(Values(Delete(V, t.left, v).1, Delete(V, t.left, v).0))
    ensures Refs(Delete(V, t, v).0) <= Delete(V, t, v).1.Keys
    ensures multiset(Values(Delete(V, t, v).1, Delete(V, t, v).0)) == multiset(Values(V, t)) - multiset{v}
    ensures Sorted(Values(Delete(V, t, v).1, Delete(V, t, v).0))
  {
    var Node(l, x, rt) := t;
    var (t', V') := Delete(V, t, v);
    var (l', _) := Delete(V, l, v);
    ValuesFrame(V, V', rt);
    assert Values(V, t) == Values(V, l) + [V[x]] + Values(V, rt);
    assert Values(V', t') == Values(V', l') + [V[x]] + Values(V, rt);
    RemoveLeft(Values(V, l), V[x], Values(V, rt), Values(V', l'), v);
  }

  /** The step of `DeletePresent` when the value lies to the right. */
  lemma DeleteRightStep(V: map<Ref, real>, t: Tree, v: real)
    requires t.Node? && Refs(t) <= V.Keys && Distinct(t) && v > V[t.ref]
    requires Sorted(Values(V, t.left)) && Sorted(Values(V, t.right)) && v in Values(V, t.right)
    requires AllAtMost(Values(V, t.left), V[t.ref]) && AllAtLeast(Values(V, t.right), V[t.ref])
    requires Refs(Delete(V, t.right, v).0) <= Delete(V, t.right, v).1.Keys
    requires multiset(Values(Delete(V, t.right, v).1, Delete(V, t.right, v).0))
             == multiset(Values(V, t.right)) - multiset{v}
    requires Sorted(Values(Delete(V, t.right, v).1, Delete(V, t.right, v).0))
    ensures Refs(Delete(V, t, v).0) <= Delete(V, t, v).1.Keys
    ensures multiset(Values(Delete(V, t, v).1, Delete(V, t, v).0)) == multiset(Values(V, t)) - multiset{v}
    ensures Sorted(Values(Delete(V, t, v).1, Delete(V, t, v).0))
  {
    var Node(l, x, rt) := t;
    var (t', V') := Delete(V, t, v);
    var (r', _) := Delete(V, rt, v);
    ValuesFrame(V, V', l);
    assert Values(V, t) == Values(V, l) + [V[x]] + Values(V, rt);
    assert Values(V', t') == Values(V, l) + [V[x]] + Values(V', r');
    RemoveRight(Values(V, l), V[x], Values(V, rt), Values(V', r'), v);
  }

  /** The step of `DeletePresent` at a node with two children holding the value. */
  lemma DeleteSuccessorStep(V: map<Ref, real>, t: Tree, v: real)
    requires t.Node? && t.left.Node? && t.right.Node? && Refs(t) <= V.Keys && Distinct(t) && v == V[t.ref]
    requires Sorted(Values(V, t.left)) && Sorted(Values(V, t.right))
    requires AllAtMost(Values(V, t.left), V[t.ref]) && AllAtLeast(Values(V, t.right), V[t.ref])
    requires var V1 := V[t.ref := V[Leftmost(t.right)]];
             Refs(Delete(V1, t.right, V[Leftmost(t.right)]).0) <= Delete(V1, t.right, V[Leftmost(t.right)]).1.Keys
    requires var V1 := V[t.ref := V[Leftmost(t.right)]];
             multiset(Values(Delete(V1, t.right, V[Leftmost(t.right)]).1, Delete(V1, t.right, V[Leftmost(t.right)]).0))
             == multiset(Values(V1, t.right)) - multiset{V[Leftmost(t.right)]}
    requires var V1 := V[t.ref := V[Leftmost(t.right)]];
             Sorted(Values(Delete(V1, t.right, V[Leftmost(t.right)]).1, Delete(V1, t.right, V[Leftmost(t.right)]).0))
    ensures Refs(Delete(V, t, v).0) <= Delete(V, t, v).1.Keys
    ensures multiset(Values(Delete(V, t, v).1, Delete(V, t, v).0)) == multiset(Values(V, t)) - multiset{v}
    ensures Sorted(Values(Delete(V, t, v).1, Delete(V, t, v).0))
  {
    var Node(l, x, rt) := t;
    var sv := V[Leftmost(rt)];
    var V1 := V[x := sv];
    ValuesFrame(V, V1, rt);
    LeftmostValue(V, rt);
    var (t', V') := Delete(V, t, v);
    var (r', _) := Delete(V1, rt, sv);
    ValuesFrame(V, V', l);
    assert V'[x] == sv;
    assert Values(V, t) == Values(V, l) + [v] + Values(V, rt);
    assert Values(V', t') == Values(V, l) + [sv] + Values(V', r');
    RemoveBySuccessor(Values(V, l), v, Values(V, rt), Values(V', r'));
  }
}
