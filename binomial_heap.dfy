/** The array-based binomial heap of the visualiser.

    A heap is a list of root references; node records live in an arena that maps a
    node's identity to its record (key, children, order, parent, drawing position).
    `Heaps` is that arena as a mutable object: `linkTrees`, `bhMerge`, `bhExtractMin`
    and `layoutBH` change records in place, the others only read them. Each method is
    specified by a pure function over the arena, and the properties are proved about
    those functions. */
module BinomialHeap {
  import opened Shapes

  /** A node record: key, children (first child first), order, parent and position. */
  datatype BHNode = BHNode(key: real, children: seq<Ref>, order: nat, parent: Ptr, x: int, y: int)

  /** A heap value: its root list. */
  datatype Heap = Heap(roots: seq<Ref>)

  type Arena = map<Ref, BHNode>

  /** Horizontal and vertical distances of `layoutBH`. */
  const BH_H_GAP: int := 70
  const BH_V_GAP: int := 90

  /** `createBHNode(key)`: order 0, no children, no parent, position (0, 0). */
  function NewNode(key: real): (b: BHNode)
    ensures b.key == key && b.children == [] && b.order == 0 && b.parent == Null && b.x == 0 && b.y == 0
  {
    BHNode(key, [], 0, Null, 0, 0)
  }

  /** `bhCreate()`: the heap with no roots. */
  function EmptyHeap(): (h: Heap)
    ensures |h.roots| == 0
  {
    Heap([])
  }

  /** Every reference of `s` names a record of `N`. */
  ghost predicate Within(N: Arena, s: seq<Ref>) {
    forall q :: q in s ==> q in N
  }

  /** Every child reference names a record. */
  ghost predicate Closed(N: Arena) {
    forall q :: q in N ==> Within(N, N[q].children)
  }

  // ------------------------------------------------------------------- linking

  /** `linkTrees(b1, b2)`: the root with the smaller key, `b1` on a tie, becomes the
      parent: the other root is put in front of its children and gets it as parent, and
      its order rises by one. The field writes happen in the source's order, so the
      result is defined even when `b1 == b2`. */
  function Link(N: Arena, b1: Ref, b2: Ref): (res: (Arena, Ref))
    requires b1 in N && b2 in N
    ensures res.0.Keys == N.Keys && res.1 == (if N[b1].key <= N[b2].key then b1 else b2)
    ensures b1 != b2 ==>
              var w, l := res.1, if res.1 == b1 then b2 else b1;
              res.0[l] == N[l].(parent := Ptr(w)) &&
              res.0[w] == N[w].(children := [l] + N[w].children, order := N[w].order + 1) &&
              forall q :: q in N && q != b1 && q != b2 ==> res.0[q] == N[q]
    ensures Closed(N) ==> Closed(res.0)
  {
    if N[b1].key <= N[b2].key then
      var N1 := N[b2 := N[b2].(parent := Ptr(b1))];
      (N1[b1 := N1[b1].(children := [b2] + N1[b1].children, order := N1[b1].order + 1)], b1)
    else
      var N1 := N[b1 := N[b1].(parent := Ptr(b2))];
      (N1[b2 := N1[b2].(children := [b1] + N1[b2].children, order := N1[b2].order + 1)], b2)
  }

  // ------------------------------------------------------------------- sorting

  /** The roots sorted by ascending order, as the stable `sort((a, b) => a.order - b.order)`
      does: an insertion sort that puts an element before later elements of equal order. */
  function SortByOrder(N: Arena, s: seq<Ref>): (r: seq<Ref>)
    requires Within(N, s)
    ensures multiset(r) == multiset(s) && |r| == |s|
    ensures Within(N, r) && forall x :: x in r <==> x in s
  {
    if s == [] then []
    else
      assert s == [s[0]] + s[1..];
      InsertByOrder(N, s[0], SortByOrder(N, s[1..]))
  }

  /** Insert `q` in front of the first element whose order is not smaller. */
  function InsertByOrder(N: Arena, q: Ref, s: seq<Ref>): (r: seq<Ref>)
    requires q in N && Within(N, s)
    ensures multiset(r) == multiset(s) + multiset{q} && |r| == |s| + 1
    ensures Within(N, r) && forall x :: x in r <==> x == q || x in s
  {
    if s == [] || N[q].order <= N[s[0]].order then [q] + s
    else
      assert s == [s[0]] + s[1..];
      [s[0]] + InsertByOrder(N, q, s[1..])
  }

  /** The orders along `s` never decrease. */
  ghost predicate OrderSorted(N: Arena, s: seq<Ref>)
    requires Within(N, s)
  {
    forall i, j :: 0 <= i < j < |s| ==> N[s[i]].order <= N[s[j]].order
  }

  /** No two positions of `s` hold roots of the same order. */
  ghost predicate OrdersDistinct(N: Arena, s: seq<Ref>)
    requires Within(N, s)
  {
    forall i, j :: 0 <= i < j < |s| ==> N[s[i]].order != N[s[j]].order
  }

  // ------------------------------------------------------------- consolidation

  /** The consolidation loop of `bhMerge` from position `i` with the roots pushed so far
      in `result`, as written: after a link at `i` the winner is spliced in at `i + 1`,
      in front of the second tree, and the loop goes on at `i + 2`, so the next visit is to
      the second tree and the spliced winner is never visited. */
  function Consolidate(N: Arena, roots: seq<Ref>, i: nat, result: seq<Ref>): (res: (Arena, seq<Ref>))
    requires Within(N, roots) && i <= |roots|
    ensures res.0.Keys == N.Keys
    ensures Closed(N) ==> Closed(res.0)
    decreases |roots| - i
  {
    if i == |roots| then (N, result)
    else
      var curr := roots[i];
      if i + 1 < |roots| && N[curr].order == N[roots[i + 1]].order then
        var (N', w) := Link(N, curr, roots[i + 1]);
        Consolidate(N', roots[..i + 1] + [w] + roots[i + 1..], i + 2, result)
      else
        Consolidate(N, roots, i + 1, result + [curr])
  }

  /** One linking step of the loop, unfolded. */
  lemma ConsolidateLinkStep(N: Arena, roots: seq<Ref>, i: nat, result: seq<Ref>)
    requires Within(N, roots) && i + 1 < |roots| && N[roots[i]].order == N[roots[i + 1]].order
    ensures var (N', w) := Link(N, roots[i], roots[i + 1]);
            var roots' := roots[..i + 1] + [w] + roots[i + 1..];
            Within(N', roots') && Consolidate(N, roots, i, result) == Consolidate(N', roots', i + 2, result)
  {
  }

  /** One pushing step of the loop, unfolded. */
  lemma ConsolidatePushStep(N: Arena, roots: seq<Ref>, i: nat, result: seq<Ref>)
    requires Within(N, roots) && i < |roots| && !(i + 1 < |roots| && N[roots[i]].order == N[roots[i + 1]].order)
    ensures Consolidate(N, roots, i, result) == Consolidate(N, roots, i + 1, result + [roots[i]])
  {
  }

  /** `bhMerge(h1, h2)` on the arena `N`: the new arena and the new root list. */
  function Merge(N: Arena, a: seq<Ref>, b: seq<Ref>): (res: (Arena, seq<Ref>))
    requires Within(N, a + b)
    ensures res.0.Keys == N.Keys
    ensures Closed(N) ==> Closed(res.0)
  {
    Consolidate(N, SortByOrder(N, a + b), 0, [])
  }

  // ------------------------------------------------------------- minimum, removal

  /** `heap.roots.reduce((min, n) => n.key < min.key ? n : min, ...)` from the accumulator `m`. */
  function MinFrom(N: Arena, s: seq<Ref>, m: Ref): (r: Ref)
    requires Within(N, s) && m in N
    ensures r in N && (r == m || r in s)
  {
    if s == [] then m else MinFrom(N, s[1..], if N[s[0]].key < N[m].key then s[0] else m)
  }

  /** `bhFindMin`: `null` for an empty root list, else the reduction started at the first root. */
  function FindMin(N: Arena, h: Heap): Option<Ref>
    requires Within(N, h.roots)
  {
    if |h.roots| == 0 then None else Some(MinFrom(N, h.roots, h.roots[0]))
  }

  /** `roots.filter((n) => n !== m)`. */
  function Without(s: seq<Ref>, m: Ref): (r: seq<Ref>)
    ensures forall q :: q in r <==> q in s && q != m
    ensures |r| <= |s|
  {
    if s == [] then [] else (if s[0] == m then [] else [s[0]]) + Without(s[1..], m)
  }

  /** `.reverse()` on the list of children. */
  function Reverse(s: seq<Ref>): (r: seq<Ref>)
    ensures |r| == |s| && forall i :: 0 <= i < |s| ==> r[i] == s[|s| - 1 - i]
    ensures forall x :: x in r <==> x in s
  {
    if s == [] then []
    else
      assert s == [s[0]] + s[1..];
      Reverse(s[1..]) + [s[0]]
  }

  /** The arena after `c.parent = null` for each `c` of `s`, in order. */
  function Cleared(N: Arena, s: seq<Ref>): (N': Arena)
    requires Within(N, s)
    ensures N'.Keys == N.Keys
  {
    if s == [] then N
    else
      var M := Cleared(N, s[..|s| - 1]);
      M[s[|s| - 1] := M[s[|s| - 1]].(parent := Null)]
  }

  /** `bhExtractMin` on the arena `N`: the heap itself when it is empty, otherwise the
      merge of the other roots with the reversed children of the minimum root, whose
      parent fields are cleared first. */
  function ExtractMin(N: Arena, h: Heap): (res: (Arena, Heap))
    requires Within(N, h.roots) && Closed(N)
  {
    match FindMin(N, h)
    case None => (N, h)
    case Some(m) =>
      var kids := N[m].children;
      var N1 := Cleared(N, kids);
      var rest := Without(h.roots, m);
      var merged := Merge(N1, rest, Reverse(kids));
      (merged.0, Heap(merged.1))
  }

  // ------------------------------------------------------------------- lemmas

  /** The reduction finds the least key, and on ties the earliest one: the result is the
      accumulator unless some element is strictly smaller, and then it is the first
      element of least key. */
  lemma {:induction false} MinFromLeast(N: Arena, s: seq<Ref>, m: Ref)
    requires Within(N, s) && m in N
    ensures var r := MinFrom(N, s, m);
            N[r].key <= N[m].key && (forall j :: 0 <= j < |s| ==> N[r].key <= N[s[j]].key) &&
            (r == m || exists i :: 0 <= i < |s| && s[i] == r && N[r].key < N[m].key &&
                                   forall j :: 0 <= j < i ==> N[r].key < N[s[j]].key)
  {
    if s != [] {
      var m' := if N[s[0]].key < N[m].key then s[0] else m;
      MinFromLeast(N, s[1..], m');
      var r := MinFrom(N, s, m);
      assert r == MinFrom(N, s[1..], m');
      if r != m && r != m' {
        var i' :| 0 <= i' < |s[1..]| && s[1..][i'] == r && N[r].key < N[m'].key &&
                  forall j :: 0 <= j < i' ==> N[r].key < N[s[1..][j]].key;
        assert s[i' + 1] == r;
        forall j | 0 <= j < i' + 1 ensures N[r].key < N[s[j]].key {
          if j > 0 { assert s[j] == s[1..][j - 1]; }
        }
      } else if r != m {
        assert s[0] == r;
      }
    }
  }

  /** `bhFindMin`: `null` exactly for an empty root list; otherwise a root of least key,
      the first such root. */
  lemma FindMinSpec(N: Arena, h: Heap)
    requires Within(N, h.roots)
    ensures FindMin(N, h).None? <==> h.roots == []
    ensures FindMin(N, h).Some? ==>
              var r := FindMin(N, h).value;
              (forall j :: 0 <= j < |h.roots| ==> N[r].key <= N[h.roots[j]].key) &&
              exists i :: 0 <= i < |h.roots| && h.roots[i] == r &&
                          forall j :: 0 <= j < i ==> N[r].key < N[h.roots[j]].key
  {
    if h.roots != [] {
      MinFromLeast(N, h.roots, h.roots[0]);
    }
  }

  /** `.reverse()` reverses: reversing twice gives the list back. */
  lemma ReverseTwice(s: seq<Ref>)
    ensures Reverse(Reverse(s)) == s
  {
    assert forall i :: 0 <= i < |s| ==> Reverse(Reverse(s))[i] == s[i];
  }

  /** Clearing parents touches only the parent fields of the listed nodes. */
  lemma {:induction false} ClearedSpec(N: Arena, s: seq<Ref>)
    requires Within(N, s)
    ensures forall q :: q in N ==>
              if q in s then Cleared(N, s)[q] == N[q].(parent := Null) else Cleared(N, s)[q] == N[q]
  {
    if s != [] {
      ClearedSpec(N, s[..|s| - 1]);
      assert s == s[..|s| - 1] + [s[|s| - 1]];
      forall q | q in N
        ensures if q in s then Cleared(N, s)[q] == N[q].(parent := Null) else Cleared(N, s)[q] == N[q]
      {
        if q != s[|s| - 1] && q in s {
          assert q in s[..|s| - 1];
        }
      }
    }
  }

  /** The sort gives ascending orders. */
  lemma {:induction false} SortSorted(N: Arena, s: seq<Ref>)
    requires Within(N, s)
    ensures OrderSorted(N, SortByOrder(N, s))
  {
    if s != [] {
      SortSorted(N, s[1..]);
      InsertSorted(N, s[0], SortByOrder(N, s[1..]));
    }
  }

  lemma {:induction false} InsertSorted(N: Arena, q: Ref, s: seq<Ref>)
    requires q in N && Within(N, s) && OrderSorted(N, s)
    ensures OrderSorted(N, InsertByOrder(N, q, s))
  {
    if !(s == [] || N[q].order <= N[s[0]].order) {
      InsertSorted(N, q, s[1..]);
      var r' := InsertByOrder(N, q, s[1..]);
      forall j | 0 <= j < |r'| ensures N[s[0]].order <= N[r'[j]].order {
        assert r'[j] in r';
        if r'[j] != q {
          var k :| 0 <= k < |s[1..]| && s[1..][k] == r'[j];
          assert s[k + 1] == r'[j];
        }
      }
    }
  }

  /** The sort keeps roots of distinct orders distinct. */
  lemma {:induction false} SortDistinct(N: Arena, s: seq<Ref>)
    requires Within(N, s) && OrdersDistinct(N, s)
    ensures OrdersDistinct(N, SortByOrder(N, s))
  {
    if s != [] {
      var r := SortByOrder(N, s[1..]);
      assert OrdersDistinct(N, s[1..]) by {
        forall i, j | 0 <= i < j < |s[1..]| ensures N[s[1..][i]].order != N[s[1..][j]].order {
          assert s[1..][i] == s[i + 1] && s[1..][j] == s[j + 1];
        }
      }
      SortDistinct(N, s[1..]);
      forall j | 0 <= j < |r| ensures N[r[j]].order != N[s[0]].order {
        assert r[j] in r;
        var k :| 0 <= k < |s[1..]| && s[1..][k] == r[j];
        assert s[k + 1] == r[j];
      }
      InsertDistinct(N, s[0], r);
    }
  }

  lemma {:induction false} InsertDistinct(N: Arena, q: Ref, s: seq<Ref>)
    requires q in N && Within(N, s) && OrdersDistinct(N, s)
    requires forall j :: 0 <= j < |s| ==> N[s[j]].order != N[q].order
    ensures OrdersDistinct(N, InsertByOrder(N, q, s))
  {
    if !(s == [] || N[q].order <= N[s[0]].order) {
      InsertDistinct(N, q, s[1..]);
      var r' := InsertByOrder(N, q, s[1..]);
      forall j | 0 <= j < |r'| ensures N[s[0]].order != N[r'[j]].order {
        assert r'[j] in r';
        if r'[j] != q {
          var k :| 0 <= k < |s[1..]| && s[1..][k] == r'[j];
          assert s[k + 1] == r'[j];
        }
      }
    }
  }

  /** Without two neighbours of the same order, the loop only pushes: the arena stays as
      it is and the rest of the list is appended. */
  lemma {:induction false} ConsolidateNoLinks(N: Arena, roots: seq<Ref>, i: nat, result: seq<Ref>)
    requires Within(N, roots) && i <= |roots| && OrdersDistinct(N, roots)
    ensures Consolidate(N, roots, i, result) == (N, result + roots[i..])
    decreases |roots| - i
  {
    if i == |roots| {
      assert result + roots[i..] == result;
    } else {
      if i + 1 < |roots| {
        assert N[roots[i]].order != N[roots[i + 1]].order;
      }
      ConsolidateNoLinks(N, roots, i + 1, result + [roots[i]]);
      assert result + [roots[i]] + roots[i + 1..] == result + roots[i..];
    }
  }

  /** When no two roots of `h1 ++ h2` share an order, `bhMerge` links nothing and returns
      those roots sorted by ascending order. */
  lemma MergeDistinctOrders(N: Arena, a: seq<Ref>, b: seq<Ref>)
    requires Within(N, a + b) && OrdersDistinct(N, a + b)
    ensures Merge(N, a, b).0 == N
    ensures multiset(Merge(N, a, b).1) == multiset(a + b)
    ensures Within(N, Merge(N, a, b).1) && OrderSorted(N, Merge(N, a, b).1)
  {
    SortSorted(N, a + b);
    SortDistinct(N, a + b);
    ConsolidateNoLinks(N, SortByOrder(N, a + b), 0, []);
    assert [] + SortByOrder(N, a + b)[0..] == SortByOrder(N, a + b);
  }

  /** `bhInsert` into an empty heap gives one root: the new node, of order 0, with the key. */
  lemma InsertIntoEmpty(N: Arena, n: Ref, key: real)
    ensures var N1 := N[n := NewNode(key)];
            Merge(N1, EmptyHeap().roots, [n]) == (N1, [n]) && N1[n].order == 0 && N1[n].key == key
  {
    var N1 := N[n := NewNode(key)];
    assert EmptyHeap().roots + [n] == [n];
    assert SortByOrder(N1, [n]) == InsertByOrder(N1, n, []) == [n];
    assert Consolidate(N1, [n], 0, []) == Consolidate(N1, [n], 1, [n]);
  }

  // ------------------------------------------------------------------- findings

  /** `bhInsert(bhInsert(bhCreate(), 3), 5)` as written: the root 3 links 5 below it, the
      loop then visits 5 instead of the linked tree, and the heap is left with the single
      root 5, whose parent is 3. The key 3 is no longer reachable from the roots: it is
      neither a root nor below one. */
  lemma MergeLosesLinkedTree()
    ensures var N1 := map[0 := NewNode(3.0)];
            Merge(N1, EmptyHeap().roots, [0]) == (N1, [0])
    ensures var N2 := map[0 := NewNode(3.0), 1 := NewNode(5.0)];
            var res := Merge(N2, [0], [1]);
            res.1 == [1] && res.0[1].parent == Ptr(0) && res.0[0].children == [1] &&
            res.0[0].parent == Null
  {
    InsertIntoEmpty(map[], 0, 3.0);
    assert map[][0 := NewNode(3.0)] == map[0 := NewNode(3.0)];
    var N2 := map[0 := NewNode(3.0), 1 := NewNode(5.0)];
    assert [0] + [1] == [0, 1];
    SortPair(N2, 0, 1);
    var (N3, w) := Link(N2, 0, 1);
    assert [0, 1][..1] + [0] + [0, 1][1..] == [0, 0, 1];
    assert Consolidate(N2, [0, 1], 0, []) == Consolidate(N3, [0, 0, 1], 2, []);
    assert [] + [1] == [1];
    assert Consolidate(N3, [0, 0, 1], 2, []) == Consolidate(N3, [0, 0, 1], 3, [1]);
  }

  /** Two roots already in order stay as they are. */
  lemma SortPair(N: Arena, a: Ref, b: Ref)
    requires a in N && b in N && N[a].order <= N[b].order
    ensures SortByOrder(N, [a, b]) == [a, b]
  {
    assert [a, b][1..] == [b];
    assert SortByOrder(N, [b]) == [b];
  }

  /** The consolidation the loop evidently intends, the union of binomial heaps: a root
      and the next one of the same order are replaced by their link, which stays at `i`
      and is compared with the following roots again; when a third root of that order
      follows, the first is kept and the next two are linked. */
  function ConsolidateFixed(N: Arena, roots: seq<Ref>, i: nat, result: seq<Ref>): (res: (Arena, seq<Ref>))
    requires Within(N, roots) && i <= |roots|
    ensures res.0.Keys == N.Keys
    decreases |roots| - i
  {
    if i == |roots| then (N, result)
    else if LinksAt(N, roots, i) then
      var (N', w) := Link(N, roots[i], roots[i + 1]);
      ConsolidateFixed(N', roots[..i] + [w] + roots[i + 2..], i, result)
    else
      ConsolidateFixed(N, roots, i + 1, result + [roots[i]])
  }

  /** The orders of the roots `s`, in list order. */
  function Orders(N: Arena, s: seq<Ref>): (os: seq<nat>)
    requires Within(N, s)
    ensures |os| == |s| && forall j :: 0 <= j < |s| ==> os[j] == N[s[j]].order
  {
    seq(|s|, j requires 0 <= j < |s| => N[s[j]].order)
  }

  /** The corrected loop links at `i`: the root there and the next one have the same
      order, and the root after them, if any, has another. */
  predicate LinksAt(N: Arena, roots: seq<Ref>, i: nat)
    requires Within(N, roots)
  {
    PairAt(Orders(N, roots), i)
  }

  /** Positions `i` and `i + 1` of `os` hold the same order and position `i + 2`, if any,
      another. */
  predicate PairAt(os: seq<nat>, i: nat) {
    i + 1 < |os| && os[i] == os[i + 1] && !(i + 2 < |os| && os[i + 2] == os[i])
  }

  /** `bhMerge` with the corrected consolidation. */
  function MergeFixed(N: Arena, a: seq<Ref>, b: seq<Ref>): (res: (Arena, seq<Ref>))
    requires Within(N, a + b)
    ensures res.0.Keys == N.Keys
  {
    ConsolidateFixed(N, SortByOrder(N, a + b), 0, [])
  }

  /** No reference occurs twice in `s`. */
  ghost predicate RefsDistinct(s: seq<Ref>) {
    forall i, j :: 0 <= i < j < |s| ==> s[i] != s[j]
  }

  /** Every root of `s` is detached: its parent field is `null`. */
  ghost predicate Detached(N: Arena, s: seq<Ref>)
    requires Within(N, s)
  {
    forall q :: q in s ==> N[q].parent == Null
  }

  /** `q` is reached from `r` by following children lists `k` times. */
  ghost predicate Below(N: Arena, r: Ref, q: Ref, k: nat)
    decreases k
  {
    r in N && if k == 0 then q == r else exists c :: c in N[r].children && Below(N, c, q, k - 1)
  }

  /** `q` is one of the roots `s` or lies in the tree below one of them. */
  ghost predicate Reached(N: Arena, s: seq<Ref>, q: Ref) {
    exists j, k: nat :: 0 <= j < |s| && Below(N, s[j], q, k)
  }

  /** Every reference of `orig` is reached from the roots `s`: no tree is lost. */
  ghost predicate Accounted(N: Arena, orig: seq<Ref>, s: seq<Ref>) {
    forall q :: q in orig ==> Reached(N, s, q)
  }

  /** The roots `s` are distinct and detached, and none of `orig` is lost. */
  ghost predicate Kept(N: Arena, orig: seq<Ref>, s: seq<Ref>) {
    Within(N, s) && RefsDistinct(s) && Detached(N, s) && Accounted(N, orig, s)
  }

  /** The roots `s` are a binomial heap's root list for the trees of `orig`: kept, and of
      strictly ascending orders. */
  ghost predicate Consolidated(N: Arena, orig: seq<Ref>, s: seq<Ref>) {
    Kept(N, orig, s) && OrderSorted(N, s) && OrdersDistinct(N, s)
  }

  /** From `N` to `N'` no record goes and children lists only grow. */
  ghost predicate Grows(N: Arena, N': Arena) {
    N.Keys <= N'.Keys && forall x, c :: x in N && c in N[x].children ==> c in N'[x].children
  }

  /** The state of the corrected loop at `i`, on the orders `os` of the roots: those
      before `i` strictly ascend; those from `i` on ascend, and after `i` no order occurs
      three times; and the last order before `i` is smaller than the one at `i`, unless
      the loop is about to link two roots of that same order at `i`. */
  ghost predicate Staged(os: seq<nat>, i: nat)
    requires i <= |os|
  {
    (forall j, k :: 0 <= j < k < i ==> os[j] < os[k]) &&
    (forall j, k :: i <= j < k < |os| ==> os[j] <= os[k]) &&
    (forall j, k :: i < j && j + 2 <= k < |os| ==> os[j] < os[k]) &&
    (0 < i < |os| ==> os[i - 1] < os[i] || (os[i - 1] == os[i] && PairAt(os, i)))
  }

  lemma {:induction false} SortRefsDistinct(N: Arena, s: seq<Ref>)
    requires Within(N, s) && RefsDistinct(s)
    ensures RefsDistinct(SortByOrder(N, s))
  {
    if s != [] {
      assert RefsDistinct(s[1..]) by {
        forall i, j | 0 <= i < j < |s[1..]| ensures s[1..][i] != s[1..][j] {
          assert s[1..][i] == s[i + 1] && s[1..][j] == s[j + 1];
        }
      }
      SortRefsDistinct(N, s[1..]);
      assert s[0] !in s[1..];
      InsertRefsDistinct(N, s[0], SortByOrder(N, s[1..]));
    }
  }

  lemma {:induction false} InsertRefsDistinct(N: Arena, q: Ref, s: seq<Ref>)
    requires q in N && Within(N, s) && RefsDistinct(s) && q !in s
    ensures RefsDistinct(InsertByOrder(N, q, s))
  {
    if !(s == [] || N[q].order <= N[s[0]].order) {
      InsertRefsDistinct(N, q, s[1..]);
      var r' := InsertByOrder(N, q, s[1..]);
      assert s[0] !in s[1..];
      forall j | 0 <= j < |r'| ensures s[0] != r'[j] {
        assert r'[j] in r';
      }
    }
  }

  /** Whatever is reached from `r` stays reached while children lists only grow. */
  lemma {:induction false} BelowGrows(N: Arena, N': Arena, r: Ref, q: Ref, k: nat)
    requires Below(N, r, q, k) && Grows(N, N')
    ensures Below(N', r, q, k)
    decreases k
  {
    if k > 0 {
      var c :| c in N[r].children && Below(N, c, q, k - 1);
      BelowGrows(N, N', c, q, k - 1);
    }
  }

  /** Two different roots of a list of pairwise distinct orders differ in order. */
  lemma TwoInOne(N: Arena, s: seq<Ref>, x: Ref, y: Ref)
    requires Within(N, s) && OrdersDistinct(N, s) && x in s && y in s && x != y
    ensures N[x].order != N[y].order
  {
    var p :| 0 <= p < |s| && s[p] == x;
    var q :| 0 <= q < |s| && s[q] == y;
    if p < q {
      assert N[s[p]].order != N[s[q]].order;
    } else {
      assert N[s[q]].order != N[s[p]].order;
    }
  }

  /** The sorted roots of two heaps whose orders are pairwise distinct hold no order three
      times, so the corrected loop can start on them. */
  lemma StartConsolidating(N: Arena, a: seq<Ref>, b: seq<Ref>)
    requires Within(N, a) && Within(N, b) && RefsDistinct(a + b)
    requires OrdersDistinct(N, a) && OrdersDistinct(N, b)
    ensures Within(N, a + b) && Staged(Orders(N, SortByOrder(N, a + b)), 0)
  {
    var s := SortByOrder(N, a + b);
    SortSorted(N, a + b);
    SortRefsDistinct(N, a + b);
    forall j, k | 0 < j && j + 2 <= k < |s| ensures N[s[j]].order < N[s[k]].order {
      assert N[s[j + 2]].order <= N[s[k]].order;
      var x, y, z := s[j], s[j + 1], s[j + 2];
      assert x in a + b && y in a + b && z in a + b;
      if N[x].order >= N[z].order {
        assert N[x].order == N[y].order == N[z].order;
        if x in a {
          if y in a { TwoInOne(N, a, x, y); }
          else if z in a { TwoInOne(N, a, x, z); }
          else { TwoInOne(N, b, y, z); }
        } else {
          if y in b { TwoInOne(N, b, x, y); }
          else if z in b { TwoInOne(N, b, x, z); }
          else { TwoInOne(N, a, y, z); }
        }
      }
    }
  }

  /** A push at `i`, where the loop does not link, keeps the loop state. */
  lemma PushStaged(os: seq<nat>, i: nat)
    requires i < |os| && Staged(os, i) && !PairAt(os, i)
    ensures Staged(os, i + 1)
  {
    forall j | 0 <= j < i ensures os[j] < os[i] {
      if j < i - 1 {
        assert os[j] < os[i - 1];
      }
    }
    if i + 2 < |os| && os[i] == os[i + 1] {
      assert i + 3 >= |os| || os[i + 1] < os[i + 3];
    }
  }

  /** `os'` is `os` after a link at `i`: the orders of the pair are replaced by one order
      one higher. */
  ghost predicate LinkedAt(os: seq<nat>, os': seq<nat>, i: nat) {
    i + 1 < |os| && |os'| == |os| - 1 && os'[i] == os[i] + 1 &&
    (forall j :: 0 <= j < i ==> os'[j] == os[j]) &&
    (forall j :: i < j < |os'| ==> os'[j] == os[j + 1])
  }

  /** A link at `i` keeps the loop state: the winner's order is one more than the pair's
      and at most the order that followed the pair. */
  lemma LinkStaged(os: seq<nat>, os': seq<nat>, i: nat)
    requires i <= |os| && Staged(os, i) && PairAt(os, i) && LinkedAt(os, os', i)
    ensures Staged(os', i)
  {
    if i + 2 < |os| {
      assert os[i] < os[i + 2];
    }
    forall j, k | i <= j < k < |os'| ensures os'[j] <= os'[k] {
      if j == i {
        assert os[i + 2] <= os[k + 1];
      } else {
        assert os[j + 1] <= os[k + 1];
      }
    }
    forall j, k | i < j && j + 2 <= k < |os'| ensures os'[j] < os'[k] {
      assert os[j + 1] < os[k + 1];
    }
  }

  /** A link at `i` replaces the orders of the pair by the pair's order plus one. */
  lemma LinkOrders(N: Arena, roots: seq<Ref>, i: nat)
    requires Within(N, roots) && i + 1 < |roots| && RefsDistinct(roots)
    requires N[roots[i]].order == N[roots[i + 1]].order
    ensures var (N', w) := Link(N, roots[i], roots[i + 1]);
            var roots' := roots[..i] + [w] + roots[i + 2..];
            Within(N', roots') && LinkedAt(Orders(N, roots), Orders(N', roots'), i)
  {
    var (N', w) := Link(N, roots[i], roots[i + 1]);
    var roots' := roots[..i] + [w] + roots[i + 2..];
    assert roots[i] != roots[i + 1];
    assert Within(N', roots');
    forall j | 0 <= j < i ensures N'[roots'[j]].order == N[roots[j]].order {
      assert roots'[j] == roots[j] && roots[j] != roots[i] && roots[j] != roots[i + 1];
    }
    forall j | i < j < |roots'| ensures N'[roots'[j]].order == N[roots[j + 1]].order {
      assert roots'[j] == roots[j + 1] && roots[j + 1] != roots[i] && roots[j + 1] != roots[i + 1];
    }
    assert roots'[i] == w;
  }

  /** At the end of the corrected loop the orders strictly ascend. */
  lemma StagedDone(N: Arena, roots: seq<Ref>)
    requires Within(N, roots) && Staged(Orders(N, roots), |roots|)
    ensures OrderSorted(N, roots) && OrdersDistinct(N, roots)
  {
  }

  /** Replacing a linked pair by its winner keeps the roots distinct and detached and
      every tree reached: the loser's tree now hangs below the winner. */
  lemma LinkAccounts(N: Arena, roots: seq<Ref>, i: nat, orig: seq<Ref>)
    requires Kept(N, orig, roots) && i + 1 < |roots|
    ensures var (N', w) := Link(N, roots[i], roots[i + 1]);
            Kept(N', orig, roots[..i] + [w] + roots[i + 2..])
  {
    var (N', w) := Link(N, roots[i], roots[i + 1]);
    var roots' := roots[..i] + [w] + roots[i + 2..];
    var l := if w == roots[i] then roots[i + 1] else roots[i];
    assert roots[i] != roots[i + 1];
    SpliceWinner(roots, i, w, l);
    assert roots'[i] == w && l in N'[w].children;
    assert Grows(N, N');
    forall q | q in orig ensures Reached(N', roots', q) {
      var j, k: nat :| 0 <= j < |roots| && Below(N, roots[j], q, k);
      BelowGrows(N, N', roots[j], q, k);
      if roots[j] == l {
        assert Below(N', w, q, k + 1);
      } else {
        assert roots[j] in roots';
        var j' :| 0 <= j' < |roots'| && roots'[j'] == roots[j];
      }
    }
  }

  /** Putting the winner `w` of the pair at `i` in place of the pair drops exactly the loser `l`. */
  lemma SpliceWinner(roots: seq<Ref>, i: nat, w: Ref, l: Ref)
    requires i + 1 < |roots| && RefsDistinct(roots)
    requires (w == roots[i] && l == roots[i + 1]) || (w == roots[i + 1] && l == roots[i])
    ensures var roots' := roots[..i] + [w] + roots[i + 2..];
            RefsDistinct(roots') && forall q :: q in roots' <==> q in roots && q != l
  {
    var roots' := roots[..i] + [w] + roots[i + 2..];
    assert roots == roots[..i] + [roots[i], roots[i + 1]] + roots[i + 2..];
    forall a, b | 0 <= a < b < |roots'| ensures roots'[a] != roots'[b] {
      var a0 := if a < i then a else if a == i then (if w == roots[i] then i else i + 1) else a + 1;
      var b0 := if b < i then b else if b == i then (if w == roots[i] then i else i + 1) else b + 1;
      assert roots'[a] == roots[a0] && roots'[b] == roots[b0];
    }
  }

  /** The corrected loop from `i`, with the roots before `i` pushed, ends with detached
      distinct roots of strictly ascending orders from which every tree is reached. */
  lemma {:induction false} FixedConsolidates(N: Arena, roots: seq<Ref>, i: nat, result: seq<Ref>, orig: seq<Ref>)
    requires Kept(N, orig, roots) && i <= |roots| && result == roots[..i] && Staged(Orders(N, roots), i)
    ensures var res := ConsolidateFixed(N, roots, i, result); Consolidated(res.0, orig, res.1)
    decreases |roots| - i
  {
    if i == |roots| {
      assert roots[..i] == roots;
      StagedDone(N, roots);
    } else if LinksAt(N, roots, i) {
      var N', roots' := LinkStep(N, roots, i, result, orig);
      FixedConsolidates(N', roots', i, result, orig);
    } else {
      assert Staged(Orders(N, roots), i + 1) by {
        PushStaged(Orders(N, roots), i);
      }
      assert roots[..i + 1] == result + [roots[i]];
      assert ConsolidateFixed(N, roots, i, result) == ConsolidateFixed(N, roots, i + 1, result + [roots[i]]);
      FixedConsolidates(N, roots, i + 1, result + [roots[i]], orig);
    }
  }

  /** One link of the corrected loop at `i`: the loop goes on at `i` with the new records
      and roots, which are still kept and in a state the loop accepts. */
  lemma LinkStep(N: Arena, roots: seq<Ref>, i: nat, result: seq<Ref>, orig: seq<Ref>)
    returns (N': Arena, roots': seq<Ref>)
    requires Kept(N, orig, roots) && i <= |roots| && result == roots[..i] && Staged(Orders(N, roots), i)
    requires LinksAt(N, roots, i)
    ensures Kept(N', orig, roots') && i <= |roots'| < |roots| && result == roots'[..i]
    ensures Staged(Orders(N', roots'), i)
    ensures ConsolidateFixed(N, roots, i, result) == ConsolidateFixed(N', roots', i, result)
  {
    var w;
    N', w := Link(N, roots[i], roots[i + 1]).0, Link(N, roots[i], roots[i + 1]).1;
    roots' := roots[..i] + [w] + roots[i + 2..];
    assert Kept(N', orig, roots') by { LinkAccounts(N, roots, i, orig); }
    LinkStagedAt(N, roots, i);
    assert roots'[..i] == roots[..i];
    assert ConsolidateFixed(N, roots, i, result) == ConsolidateFixed(N', roots', i, result) by {
      FixedLinkUnfold(N, roots, i, result);
    }
  }

  /** A link at `i` keeps the loop state of the roots. */
  lemma LinkStagedAt(N: Arena, roots: seq<Ref>, i: nat)
    requires Within(N, roots) && i <= |roots| && RefsDistinct(roots)
    requires Staged(Orders(N, roots), i) && LinksAt(N, roots, i)
    ensures var (N', w) := Link(N, roots[i], roots[i + 1]);
            var roots' := roots[..i] + [w] + roots[i + 2..];
            Within(N', roots') && Staged(Orders(N', roots'), i)
  {
    var (N', w) := Link(N, roots[i], roots[i + 1]);
    var roots' := roots[..i] + [w] + roots[i + 2..];
    LinkOrders(N, roots, i);
    LinkStaged(Orders(N, roots), Orders(N', roots'), i);
  }

  /** The corrected loop's link step, unfolded. */
  lemma FixedLinkUnfold(N: Arena, roots: seq<Ref>, i: nat, result: seq<Ref>)
    requires Within(N, roots) && i <= |roots| && LinksAt(N, roots, i)
    ensures var (N', w) := Link(N, roots[i], roots[i + 1]);
            var roots' := roots[..i] + [w] + roots[i + 2..];
            Within(N', roots') && ConsolidateFixed(N, roots, i, result) == ConsolidateFixed(N', roots', i, result)
  {
  }

  /** With the corrected loop, the union of two heaps whose root lists are distinct,
      detached and each of pairwise distinct orders is a root list of the same kind, in
      ascending order, from which every input root is still reached. */
  lemma MergeFixedIsUnion(N: Arena, a: seq<Ref>, b: seq<Ref>)
    requires Within(N, a) && Within(N, b) && RefsDistinct(a + b) && Detached(N, a + b)
    requires OrdersDistinct(N, a) && OrdersDistinct(N, b)
    ensures Within(N, a + b)
    ensures var res := MergeFixed(N, a, b); Consolidated(res.0, a + b, res.1)
  {
    StartConsolidating(N, a, b);
    var s := SortByOrder(N, a + b);
    SortRefsDistinct(N, a + b);
    forall q | q in a + b ensures Reached(N, s, q) {
      var j :| 0 <= j < |s| && s[j] == q;
      assert Below(N, s[j], q, 0);
    }
    FixedConsolidates(N, s, 0, [], a + b);
  }

  /** The corrected merge on the input of `MergeLosesLinkedTree`: inserting 3 and then 5
      leaves the single root 3, of order 1, with 5 as its child. */
  lemma MergeFixedKeepsLinkedTree()
    ensures var N2 := map[0 := NewNode(3.0), 1 := NewNode(5.0)];
            var res := MergeFixed(N2, [0], [1]);
            res.1 == [0] && res.0[0].children == [1] && res.0[0].order == 1 && res.0[1].parent == Ptr(0)
  {
    var N2 := map[0 := NewNode(3.0), 1 := NewNode(5.0)];
    assert [0] + [1] == [0, 1];
    SortPair(N2, 0, 1);
    var (N3, w) := Link(N2, 0, 1);
    assert LinksAt(N2, [0, 1], 0);
    assert [0, 1][..0] + [0] + [0, 1][2..] == [0];
    assert ConsolidateFixed(N2, [0, 1], 0, []) == ConsolidateFixed(N3, [0], 0, []);
    assert !LinksAt(N3, [0], 0) && [] + [0] == [0];
    assert ConsolidateFixed(N3, [0], 0, []) == ConsolidateFixed(N3, [0], 1, [0]);
  }

  // ------------------------------------------------------------------- layout

  /** The shape of the tree below a node: its reference and its children's shapes. */
  datatype BTree = BT(ref: Ref, kids: seq<BTree>)

  /** `t` is the tree the arena's children lists form below `t.ref`. */
  ghost predicate Forms(N: Arena, t: BTree) {
    t.ref in N && |N[t.ref].children| == |t.kids| &&
    forall i :: 0 <= i < |t.kids| ==> N[t.ref].children[i] == t.kids[i].ref && Forms(N, t.kids[i])
  }

  ghost predicate InTree(K: set<Ref>, t: BTree) {
    t.ref in K && forall i :: 0 <= i < |t.kids| ==> InTree(K, t.kids[i])
  }

  ghost predicate InForest(K: set<Ref>, ts: seq<BTree>) {
    forall i :: 0 <= i < |ts| ==> InTree(K, ts[i])
  }

  /** `N'` differs from `N` at most in positions. */
  ghost predicate SameShape(N: Arena, N': Arena) {
    N'.Keys == N.Keys && forall q :: q in N ==> N'[q] == N[q].(x := N'[q].x, y := N'[q].y)
  }

  function Pow2(n: nat): nat {
    if n == 0 then 1 else 2 * Pow2(n - 1)
  }

  function TreeSize(t: BTree): nat {
    1 + ForestSize(t.kids)
  }

  function ForestSize(ts: seq<BTree>): nat {
    if ts == [] then 0 else ForestSize(ts[..|ts| - 1]) + TreeSize(ts[|ts| - 1])
  }

  /** The pre-order of `dfs`: every node with its depth. */
  ghost function PreTree(t: BTree, depth: nat): seq<(Ref, nat)> {
    [(t.ref, depth)] + PreForest(t.kids, depth + 1)
  }

  ghost function PreForest(ts: seq<BTree>, depth: nat): seq<(Ref, nat)> {
    if ts == [] then [] else PreForest(ts[..|ts| - 1], depth) + PreTree(ts[|ts| - 1], depth)
  }

  ghost function RefsOf(P: seq<(Ref, nat)>): set<Ref> {
    set j | 0 <= j < |P| :: P[j].0
  }

  ghost predicate PreDistinct(P: seq<(Ref, nat)>) {
    forall j, k :: 0 <= j < k < |P| ==> P[j].0 != P[k].0
  }

  /** `dfs(t.ref, depth)` with the counter at `count`: the node goes to
      `(offset + count * 70, depth * 90)` and its children follow from `count + 1`. */
  ghost function PlaceTree(N: Arena, t: BTree, depth: nat, offset: int, count: int): (N': Arena)
    requires InTree(N.Keys, t)
    ensures N'.Keys == N.Keys
    decreases t, 1
  {
    var N1 := N[t.ref := N[t.ref].(x := offset + count * BH_H_GAP, y := depth * BH_V_GAP)];
    assert N1.Keys == N.Keys;
    PlaceForest(N1, t.kids, depth + 1, offset, count + 1)
  }

  /** `forEach(child => dfs(child, depth))` over `ts`. */
  ghost function PlaceForest(N: Arena, ts: seq<BTree>, depth: nat, offset: int, count: int): (N': Arena)
    requires InForest(N.Keys, ts)
    ensures N'.Keys == N.Keys
    decreases ts, 0
  {
    if ts == [] then N
    else
      var a := ts[..|ts| - 1];
      var M := PlaceForest(N, a, depth, offset, count);
      PlaceTree(M, ts[|ts| - 1], depth, offset, count + ForestSize(a))
  }

  /** The horizontal offset `layoutBH` gives the root at `idx` of order `order`. */
  function RootOffset(idx: nat, order: nat): int {
    idx * (BH_H_GAP * Pow2(order) + BH_H_GAP)
  }

  /** `layoutBH` over the trees `ts` of the roots, one after the other. */
  ghost function PlaceRoots(N: Arena, ts: seq<BTree>): (N': Arena)
    requires InForest(N.Keys, ts)
    ensures N'.Keys == N.Keys
  {
    if ts == [] then N
    else
      var M := PlaceRoots(N, ts[..|ts| - 1]);
      var t := ts[|ts| - 1];
      PlaceTree(M, t, 0, RootOffset(|ts| - 1, M[t.ref].order), 0)
  }

  lemma {:induction false} PreTreeSize(t: BTree, depth: nat)
    ensures |PreTree(t, depth)| == TreeSize(t)
    decreases t, 1
  {
    PreForestSize(t.kids, depth + 1);
  }

  lemma {:induction false} PreForestSize(ts: seq<BTree>, depth: nat)
    ensures |PreForest(ts, depth)| == ForestSize(ts)
    decreases ts, 0
  {
    if ts != [] {
      PreForestSize(ts[..|ts| - 1], depth);
      PreTreeSize(ts[|ts| - 1], depth);
    }
  }

  /** Pre-order `P` of distinct nodes is placed from `count` on: the node at position `j`
      goes to `(offset + (count + j) * 70, depth * 90)` and nothing else changes. */
  ghost predicate Placed(N: Arena, N': Arena, P: seq<(Ref, nat)>, offset: int, count: int) {
    (forall j :: 0 <= j < |P| ==>
       (P[j].0 in N && P[j].0 in N' &&
        N'[P[j].0] == N[P[j].0].(x := offset + (count + j) * BH_H_GAP, y := P[j].1 * BH_V_GAP))) &&
    (forall q :: q in N && q !in RefsOf(P) ==> q in N' && N'[q] == N[q])
  }

  lemma RefsConcat(A: seq<(Ref, nat)>, B: seq<(Ref, nat)>)
    ensures RefsOf(A + B) == RefsOf(A) + RefsOf(B)
  {
    forall q | q in RefsOf(A + B) ensures q in RefsOf(A) + RefsOf(B) {
      var j :| 0 <= j < |A + B| && (A + B)[j].0 == q;
      if j >= |A| { assert B[j - |A|] == (A + B)[j]; }
    }
    forall q | q in RefsOf(A) + RefsOf(B) ensures q in RefsOf(A + B) {
      if q in RefsOf(B) {
        var k :| 0 <= k < |B| && B[k].0 == q;
        assert (A + B)[|A| + k] == B[k];
      } else {
        var k :| 0 <= k < |A| && A[k].0 == q;
        assert (A + B)[k] == A[k];
      }
    }
  }

  lemma DistinctSplit(A: seq<(Ref, nat)>, B: seq<(Ref, nat)>)
    requires PreDistinct(A + B)
    ensures PreDistinct(A) && PreDistinct(B) && RefsOf(A) !! RefsOf(B)
    ensures RefsOf(A + B) == RefsOf(A) + RefsOf(B)
  {
    forall j, k | 0 <= j < k < |A| ensures A[j].0 != A[k].0 {
      assert (A + B)[j] == A[j] && (A + B)[k] == A[k];
    }
    forall j, k | 0 <= j < |A| && 0 <= k < |B| ensures A[j].0 != B[k].0 {
      assert (A + B)[j] == A[j] && (A + B)[|A| + k] == B[k];
    }
    forall j, k | 0 <= j < k < |B| ensures B[j].0 != B[k].0 {
      assert (A + B)[|A| + j] == B[j] && (A + B)[|A| + k] == B[k];
    }
    RefsConcat(A, B);
  }

  /** Placing `A` and then `B` from where `A` stops places `A + B`. */
  lemma PlacedJoin(N: Arena, M: Arena, N': Arena, A: seq<(Ref, nat)>, B: seq<(Ref, nat)>, offset: int, count: int, mid: int)
    requires M.Keys == N.Keys && RefsOf(A) !! RefsOf(B) && mid == count + |A|
    requires Placed(N, M, A, offset, count) && Placed(M, N', B, offset, mid)
    ensures Placed(N, N', A + B, offset, count)
  {
    var P := A + B;
    forall j | 0 <= j < |P|
      ensures P[j].0 in N && P[j].0 in N' &&
              N'[P[j].0] == N[P[j].0].(x := offset + (count + j) * BH_H_GAP, y := P[j].1 * BH_V_GAP)
    {
      if j < |A| {
        assert P[j] == A[j];
        assert A[j].0 in RefsOf(A);
      } else {
        assert P[j] == B[j - |A|];
        assert B[j - |A|].0 in RefsOf(B);
        assert mid + (j - |A|) == count + j;
      }
    }
    RefsConcat(A, B);
  }


  /** With distinct nodes, `dfs(t.ref, depth)` places the pre-order of `t` from `count` on. */
  lemma {:induction false} PlaceTreeSpec(N: Arena, t: BTree, depth: nat, offset: int, count: int)
    requires InTree(N.Keys, t) && PreDistinct(PreTree(t, depth))
    ensures Placed(N, PlaceTree(N, t, depth, offset, count), PreTree(t, depth), offset, count)
    decreases t, 1
  {
    var N1 := N[t.ref := N[t.ref].(x := offset + count * BH_H_GAP, y := depth * BH_V_GAP)];
    assert N1.Keys == N.Keys;
    var Q := PreForest(t.kids, depth + 1);
    DistinctSplit([(t.ref, depth)], Q);
    assert Placed(N, N1, [(t.ref, depth)], offset, count) by {
      assert [(t.ref, depth)][0].0 == t.ref;
      assert forall q :: q in RefsOf([(t.ref, depth)]) ==> q == t.ref;
    }
    PlaceForestSpec(N1, t.kids, depth + 1, offset, count + 1);
    PlacedJoin(N, N1, PlaceTree(N, t, depth, offset, count), [(t.ref, depth)], Q, offset, count, count + 1);
  }

  /** With distinct nodes, `dfs` over the trees `ts` places their joint pre-order. */
  lemma {:induction false} PlaceForestSpec(N: Arena, ts: seq<BTree>, depth: nat, offset: int, count: int)
    requires InForest(N.Keys, ts) && PreDistinct(PreForest(ts, depth))
    ensures Placed(N, PlaceForest(N, ts, depth, offset, count), PreForest(ts, depth), offset, count)
    decreases ts, 0
  {
    if ts != [] {
      var a := ts[..|ts| - 1];
      var last := ts[|ts| - 1];
      var PA, PT := PreForest(a, depth), PreTree(last, depth);
      assert PreForest(ts, depth) == PA + PT;
      DistinctSplit(PA, PT);
      assert |PA| == ForestSize(a) by { PreForestSize(a, depth); }
      var M := PlaceForest(N, a, depth, offset, count);
      assert Placed(N, M, PA, offset, count) by { PlaceForestSpec(N, a, depth, offset, count); }
      var mid := count + ForestSize(a);
      var N' := PlaceForest(N, ts, depth, offset, count);
      assert N' == PlaceTree(M, last, depth, offset, mid);
      assert Placed(M, N', PT, offset, mid) by { PlaceTreeSpec(M, last, depth, offset, mid); }
      PlacedJoin(N, M, N', PA, PT, offset, count, mid);
    }
  }

  /** The joint pre-order of the root trees, root after root. */
  ghost function RootsPre(ts: seq<BTree>): seq<(Ref, nat)> {
    if ts == [] then [] else RootsPre(ts[..|ts| - 1]) + PreTree(ts[|ts| - 1], 0)
  }

  /** The trees `ts` of the roots are placed: the node at pre-order position `j` of the
      tree of root `i` goes to `(i * (70 * 2^order + 70) + j * 70, depth * 90)`, where
      `order` is the root's order, and every other record is left alone. */
  ghost predicate RootsPlaced(N: Arena, N': Arena, ts: seq<BTree>) {
    (forall i, j :: 0 <= i < |ts| && 0 <= j < |PreTree(ts[i], 0)| ==>
       var q := PreTree(ts[i], 0)[j].0;
       q in N && q in N' && ts[i].ref in N && q in RefsOf(RootsPre(ts)) &&
       N'[q] == N[q].(x := RootOffset(i, N[ts[i].ref].order) + j * BH_H_GAP,
                      y := PreTree(ts[i], 0)[j].1 * BH_V_GAP)) &&
    (forall q :: q in N && q !in RefsOf(RootsPre(ts)) ==> q in N' && N'[q] == N[q])
  }

  /** Placing one more root tree after the others. */
  lemma {:induction false} RootsJoin(N: Arena, M: Arena, N': Arena, a: seq<BTree>, last: BTree)
    requires M.Keys == N.Keys && last.ref in N
    requires RefsOf(RootsPre(a)) !! RefsOf(PreTree(last, 0))
    requires RefsOf(RootsPre(a + [last])) == RefsOf(RootsPre(a)) + RefsOf(PreTree(last, 0))
    requires RootsPlaced(N, M, a)
    requires Placed(M, N', PreTree(last, 0), RootOffset(|a|, N[last.ref].order), 0)
    ensures RootsPlaced(N, N', a + [last])
  {
    var ts := a + [last];
    var PA, PT := RootsPre(a), PreTree(last, 0);
    forall i, j | 0 <= i < |ts| && 0 <= j < |PreTree(ts[i], 0)|
      ensures var q := PreTree(ts[i], 0)[j].0;
              q in N && q in N' && ts[i].ref in N && q in RefsOf(RootsPre(ts)) &&
              N'[q] == N[q].(x := RootOffset(i, N[ts[i].ref].order) + j * BH_H_GAP,
                             y := PreTree(ts[i], 0)[j].1 * BH_V_GAP)
    {
      if i < |a| {
        assert ts[i] == a[i];
      } else {
        assert ts[i] == last;
        assert PT[j].0 in RefsOf(PT);
        assert (0 + j) * BH_H_GAP == j * BH_H_GAP;
      }
    }
  }

  /** `layoutBH`: with no node twice in the root trees, the trees are placed as
      `RootsPlaced` says. */
  lemma {:induction false} PlaceRootsSpec(N: Arena, ts: seq<BTree>)
    requires InForest(N.Keys, ts) && PreDistinct(RootsPre(ts))
    ensures RootsPlaced(N, PlaceRoots(N, ts), ts)
  {
    if ts != [] {
      var n := |ts|;
      var a := ts[..n - 1];
      var last := ts[n - 1];
      assert ts == a + [last];
      var PA, PT := RootsPre(a), PreTree(last, 0);
      assert RootsPre(ts) == PA + PT;
      DistinctSplit(PA, PT);
      var M := PlaceRoots(N, a);
      assert RootsPlaced(N, M, a) by { PlaceRootsSpec(N, a); }
      assert last.ref !in RefsOf(PA) by {
        assert PT[0].0 == last.ref;
        assert PT[0].0 in RefsOf(PT);
      }
      var off := RootOffset(n - 1, M[last.ref].order);
      assert off == RootOffset(|a|, N[last.ref].order);
      var N' := PlaceRoots(N, ts);
      assert N' == PlaceTree(M, last, 0, off, 0);
      assert Placed(M, N', PT, off, 0) by { PlaceTreeSpec(M, last, 0, off, 0); }
      RootsJoin(N, M, N', a, last);
    }
  }

  /** Only positions change, so the children lists still form the same trees. */
  lemma {:induction false} FormsKeep(N: Arena, N': Arena, t: BTree)
    requires Forms(N, t) && SameShape(N, N')
    ensures Forms(N', t) && InTree(N'.Keys, t)
    decreases t
  {
    forall i | 0 <= i < |t.kids| ensures Forms(N', t.kids[i]) && InTree(N'.Keys, t.kids[i]) {
      FormsKeep(N, N', t.kids[i]);
    }
  }

  /** Placing one more root tree after the first `idx`. */
  lemma PlaceRootsStep(N: Arena, M: Arena, N': Arena, ts: seq<BTree>, idx: nat, offset: int)
    requires InForest(N.Keys, ts) && idx < |ts|
    requires M == PlaceRoots(N, ts[..idx]) && offset == RootOffset(idx, M[ts[idx].ref].order)
    requires N' == PlaceTree(M, ts[idx], 0, offset, 0)
    ensures N' == PlaceRoots(N, ts[..idx + 1])
  {
    assert ts[..idx + 1][..idx] == ts[..idx];
  }

  lemma ShapeClosed(N: Arena, N': Arena)
    requires Closed(N) && SameShape(N, N')
    ensures Closed(N')
  {
    forall q | q in N' ensures Within(N', N'[q].children) {
      assert N'[q].children == N[q].children;
    }
  }

  /** Placing one more tree of the forest after the first `j`. */
  lemma PlaceForestStep(N: Arena, M: Arena, N': Arena, ts: seq<BTree>, j: nat, depth: nat, offset: int, count: int, c: int)
    requires InForest(N.Keys, ts) && j < |ts| && c == count + ForestSize(ts[..j])
    requires M == PlaceForest(N, ts[..j], depth, offset, count)
    requires N' == PlaceTree(M, ts[j], depth, offset, c)
    ensures N' == PlaceForest(N, ts[..j + 1], depth, offset, count)
    ensures c + TreeSize(ts[j]) == count + ForestSize(ts[..j + 1])
  {
    assert ts[..j + 1][..j] == ts[..j];
  }

  lemma SameShapeTrans(N: Arena, N': Arena, N'': Arena)
    requires SameShape(N, N') && SameShape(N', N'')
    ensures SameShape(N, N'')
  {
    forall q | q in N ensures N''[q] == N[q].(x := N''[q].x, y := N''[q].y) {
      assert N'[q] == N[q].(x := N'[q].x, y := N'[q].y);
    }
  }

  // ------------------------------------------------------------------- the arena

  /** All node records, updated in place as the source's node objects are. */
  class Heaps {
    var node: Arena
    /** The next fresh reference: `createBHNode` hands out a new identity each call. */
    var next: Ref

    ghost predicate Valid()
      reads this
    {
      (forall q :: q in node ==> q < next) && Closed(node)
    }

    constructor ()
      ensures Valid() && node == map[] && next == 0
    {
      node := map[];
      next := 0;
    }

    /** `createBHNode(key)`: a fresh record of order 0 with no children and no parent. */
    method CreateBHNode(key: real) returns (n: Ref)
      requires Valid()
      modifies this
      ensures Valid() && n == old(next) && n !in old(node) && next == old(next) + 1
      ensures node == old(node)[n := NewNode(key)]
    {
      n := next;
      node := node[n := NewNode(key)];
      next := next + 1;
    }

    /** `linkTrees(b1, b2)`, on the records; `Link` states its effect. */
    method LinkTrees(b1: Ref, b2: Ref) returns (w: Ref)
      requires Valid() && b1 in node && b2 in node
      modifies this`node
      ensures Valid() && (node, w) == Link(old(node), b1, b2)
    {
      if node[b1].key <= node[b2].key {
        node := node[b2 := node[b2].(parent := Ptr(b1))];
        node := node[b1 := node[b1].(children := [b2] + node[b1].children, order := node[b1].order + 1)];
        w := b1;
      } else {
        node := node[b1 := node[b1].(parent := Ptr(b2))];
        node := node[b2 := node[b2].(children := [b1] + node[b2].children, order := node[b2].order + 1)];
        w := b2;
      }
    }

    /** `bhMerge(h1, h2)` as written: sort, then the index loop with its `splice`. */
    method BhMerge(h1: Heap, h2: Heap) returns (r: Heap)
      requires Valid() && Within(node, h1.roots + h2.roots)
      modifies this`node
      ensures Valid() && (node, r.roots) == Merge(old(node), h1.roots, h2.roots)
    {
      var roots := SortByOrder(node, h1.roots + h2.roots);
      var result := [];
      var i := 0;
      while i < |roots|
        invariant Valid() && Within(node, roots) && i <= |roots|
        invariant Consolidate(node, roots, i, result) == Merge(old(node), h1.roots, h2.roots)
        decreases |roots| - i
      {
        var curr := roots[i];
        if i + 1 < |roots| && node[curr].order == node[roots[i + 1]].order {
          ConsolidateLinkStep(node, roots, i, result);
          curr := LinkTrees(curr, roots[i + 1]);
          i := i + 1;
          roots := roots[..i] + [curr] + roots[i..];
        } else {
          ConsolidatePushStep(node, roots, i, result);
          result := result + [curr];
        }
        i := i + 1;
      }
      r := Heap(result);
    }

    /** `bhInsert(heap, key)`: merge with a heap holding one fresh node. */
    method BhInsert(h: Heap, key: real) returns (r: Heap)
      requires Valid() && Within(node, h.roots)
      modifies this
      ensures Valid() && next == old(next) + 1
      ensures (node, r.roots) == Merge(old(node)[old(next) := NewNode(key)], h.roots, [old(next)])
      ensures h.roots == [] ==> r.roots == [old(next)] && node[old(next)].order == 0 && node[old(next)].key == key
    {
      var n := CreateBHNode(key);
      r := BhMerge(h, Heap([n]));
      if h.roots == [] {
        InsertIntoEmpty(old(node), n, key);
      }
    }

    /** `c.parent = null` for each child `c`, in order. */
    method ClearParents(kids: seq<Ref>)
      requires Valid() && Within(node, kids)
      modifies this`node
      ensures Valid() && node == Cleared(old(node), kids)
    {
      for j := 0 to |kids|
        invariant Valid() && node == Cleared(old(node), kids[..j])
      {
        assert kids[..j + 1][..j] == kids[..j];
        node := node[kids[j] := node[kids[j]].(parent := Null)];
      }
      assert kids[..|kids|] == kids;
    }

    /** `bhExtractMin(heap)`. */
    method BhExtractMin(h: Heap) returns (r: Heap)
      requires Valid() && Within(node, h.roots)
      modifies this`node
      ensures Valid() && (node, r) == ExtractMin(old(node), h)
      ensures h.roots == [] ==> node == old(node) && r == h
    {
      var m := FindMin(node, h);
      if m.None? {
        return h;
      }
      var minNode := m.value;
      var newRoots := Without(h.roots, minNode);
      var kids := node[minNode].children;
      ClearParents(kids);
      var childRoots := Reverse(kids);
      r := BhMerge(Heap(newRoots), Heap(childRoots));
    }

    /** `layoutBH(heap)` over the trees `ts` the roots' children lists form. */
    method LayoutBH(h: Heap, ghost ts: seq<BTree>)
      requires Valid() && InForest(node.Keys, ts) && |ts| == |h.roots|
      requires forall i :: 0 <= i < |ts| ==> ts[i].ref == h.roots[i] && Forms(node, ts[i])
      modifies this`node
      ensures Valid() && node == PlaceRoots(old(node), ts)
    {
      for idx := 0 to |h.roots|
        invariant Valid() && SameShape(old(node), node) && node == PlaceRoots(old(node), ts[..idx])
      {
        var root := h.roots[idx];
        var offsetX := idx * (BH_H_GAP * Pow2(node[root].order) + BH_H_GAP);
        FormsKeep(old(node), node, ts[idx]);
        ghost var M := node;
        var count := Dfs(root, 0, offsetX, 0, ts[idx]);
        PlaceRootsStep(old(node), M, node, ts, idx, offsetX);
        SameShapeTrans(old(node), M, node);
      }
      assert ts[..|h.roots|] == ts;
    }

    /** The recursive `dfs(node, depth)` of `layoutBH`, with the shared counter passed in
        and returned. */
    method Dfs(q: Ref, depth: nat, offset: int, count: int, ghost t: BTree) returns (count': int)
      requires Valid() && t.ref == q && Forms(node, t) && InTree(node.Keys, t)
      modifies this`node
      ensures Valid() && node == PlaceTree(old(node), t, depth, offset, count) && count' == count + TreeSize(t)
      ensures SameShape(old(node), node)
      decreases t, 1
    {
      node := node[q := node[q].(x := offset + count * BH_H_GAP, y := depth * BH_V_GAP)];
      ghost var N1 := node;
      ShapeClosed(old(node), node);
      FormsKeep(old(node), node, t);
      count' := DfsChildren(node[q].children, depth + 1, offset, count + 1, t.kids);
      SameShapeTrans(old(node), N1, node);
    }

    /** `children.forEach((child) => dfs(child, depth))`. */
    method DfsChildren(kids: seq<Ref>, depth: nat, offset: int, count: int, ghost ts: seq<BTree>) returns (count': int)
      requires Valid() && |kids| == |ts| && InForest(node.Keys, ts)
      requires forall j :: 0 <= j < |ts| ==> ts[j].ref == kids[j] && Forms(node, ts[j])
      modifies this`node
      ensures Valid() && node == PlaceForest(old(node), ts, depth, offset, count) && count' == count + ForestSize(ts)
      ensures SameShape(old(node), node)
      decreases ts, 0
    {
      count' := count;
      for j := 0 to |kids|
        invariant Valid() && SameShape(old(node), node)
        invariant node == PlaceForest(old(node), ts[..j], depth, offset, count)
        invariant count' == count + ForestSize(ts[..j])
      {
        FormsKeep(old(node), node, ts[j]);
        ghost var M, c := node, count';
        count' := Dfs(kids[j], depth, offset, count', ts[j]);
        PlaceForestStep(old(node), M, node, ts, j, depth, offset, count, c);
        SameShapeTrans(old(node), M, node);
      }
      assert ts[..|kids|] == ts;
    }
  }
}
