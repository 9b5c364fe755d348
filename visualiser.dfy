/** The early binary-search-tree visualiser: its node records (a value, two child
    links and a drawing position, no parent link), the membership test, the insertion
    that fixes a new node's position when it is created, the insert guard of the input
    box, the splitting of a number's digits into display lines, and the bounding box of
    the drawn nodes.

    `Drawing` holds the node records, one map per field as in the tree engine. The
    in-place `insertNode` is specified by the shape-level insertion of `SearchTree`. */
module Visualiser {
  import opened Shapes
  import opened Links
  import SearchTree
  import TreeEngine

  /** The values the insert guard admits: `0 <= value <= 99999`. */
  const MIN_VALUE: real := 0.0
  const MAX_VALUE: real := 99999.0

  /** Where `insertNode` places the root, how far it shifts a child sideways at depth 1
      (`200 / depth` at deeper levels), and how far below its parent it places a child. */
  const START_X: real := 500.0
  const START_Y: real := 50.0
  const SHIFT: real := 200.0
  const VERTICAL_GAP: real := 80.0

  /** The bounds record of `getBoundingBox`. */
  datatype Box = Box(minX: real, maxX: real, minY: real, maxY: real)

  // ------------------------------------------------------------ membership

  /** Some node of `t` holds `v`. */
  ghost predicate Holds(V: map<Ref, real>, t: Tree, v: real)
    requires Refs(t) <= V.Keys
  {
    exists q :: q in Refs(t) && V[q] == v
  }

  /** A value is held by some node exactly when it occurs in the in-order values. */
  lemma {:induction false} HoldsValues(V: map<Ref, real>, t: Tree, v: real)
    requires Refs(t) <= V.Keys
    ensures Holds(V, t, v) <==> v in SearchTree.Values(V, t)
  {
    match t
    case Nil =>
    case Node(l, x, rt) =>
      HoldsValues(V, l, v);
      HoldsValues(V, rt, v);
      assert SearchTree.Values(V, t) == SearchTree.Values(V, l) + [V[x]] + SearchTree.Values(V, rt);
      if Holds(V, t, v) {
        var q :| q in Refs(t) && V[q] == v;
        if q in Refs(l) { assert Holds(V, l, v); }
        else if q in Refs(rt) { assert Holds(V, rt, v); }
      }
      if v in SearchTree.Values(V, l) { var q :| q in Refs(l) && V[q] == v; assert q in Refs(t); }
      if v in SearchTree.Values(V, rt) { var q :| q in Refs(rt) && V[q] == v; assert q in Refs(t); }
  }

  // ------------------------------------------------------------ the insert guard

  /** The test of `handleInsert` on the parsed input: `None` is the `NaN` that
      `parseFloat` returns for text that is not a number. */
  function Admissible(parsed: Option<real>): (ok: bool)
    ensures ok <==> parsed.Some? && MIN_VALUE <= parsed.value <= MAX_VALUE
  {
    parsed.Some? && parsed.value <= MAX_VALUE && parsed.value >= MIN_VALUE
  }

  /** Each value occurs at most once. */
  ghost predicate NoDuplicates(s: seq<real>) {
    forall x :: multiset(s)[x] <= 1
  }

  /** Adding one value that was absent keeps a sequence free of duplicates. */
  lemma GrowNoDuplicates(s: seq<real>, s': seq<real>, v: real)
    requires NoDuplicates(s) && v !in s && multiset(s') == multiset(s) + multiset{v}
    ensures NoDuplicates(s')
  {
    forall x ensures multiset(s')[x] <= 1 {
      if x == v { assert multiset(s)[v] == 0; }
    }
  }

  /** Inserting a value the tree does not hold keeps its values free of duplicates. */
  lemma InsertKeepsNoDuplicates(V: map<Ref, real>, t: Tree, v: real, n: Ref)
    requires Refs(t) <= V.Keys && n !in Refs(t)
    requires NoDuplicates(SearchTree.Values(V, t)) && v !in SearchTree.Values(V, t)
    ensures Refs(SearchTree.Insert(V, t, v, n)) <= V[n := v].Keys
    ensures NoDuplicates(SearchTree.Values(V[n := v], SearchTree.Insert(V, t, v, n)))
  {
    SearchTree.InsertMultiset(V, t, v, n);
    GrowNoDuplicates(SearchTree.Values(V, t), SearchTree.Values(V[n := v], SearchTree.Insert(V, t, v, n)), v);
  }

  // ------------------------------------------------------------ positions

  /** The sideways step of `insertNode` at `depth`. */
  function Shift(depth: nat): real
    requires depth >= 1
  {
    SHIFT / depth as real
  }

  /** The `y` that `insertNode`, called at `y` on the subtree `t`, gives the new node:
      80 more for each level it descends. */
  function DropY(V: map<Ref, real>, t: Tree, v: real, y: real): real
    requires Refs(t) <= V.Keys
  {
    match t
    case Nil => y
    case Node(l, q, rt) =>
      if v < V[q] then DropY(V, l, v, y + VERTICAL_GAP) else DropY(V, rt, v, y + VERTICAL_GAP)
  }

  /** The new node is drawn 80 lower per level of its depth in the grown tree. */
  lemma {:induction false} DropYDepth(V: map<Ref, real>, t: Tree, v: real, y: real, n: Ref)
    requires Refs(t) <= V.Keys && n !in Refs(t)
    ensures DropY(V, t, v, y) == y + VERTICAL_GAP * Depth(SearchTree.Insert(V, t, v, n), n) as real
  {
    match t
    case Nil =>
    case Node(l, q, rt) =>
      if v < V[q] {
        DropYDepth(V, l, v, y + VERTICAL_GAP, n);
        assert Depth(SearchTree.Insert(V, t, v, n), n) == 1 + Depth(SearchTree.Insert(V, l, v, n), n);
      } else {
        DropYDepth(V, rt, v, y + VERTICAL_GAP, n);
        assert Depth(SearchTree.Insert(V, t, v, n), n) == 1 + Depth(SearchTree.Insert(V, rt, v, n), n);
      }
  }

  /** The `x` that `insertNode`, called at `(x, depth)` on the subtree `t`, gives the new
      node: each level moves it `200 / depth` to the side the value goes. */
  function DropX(V: map<Ref, real>, t: Tree, v: real, x: real, depth: nat): real
    requires Refs(t) <= V.Keys && depth >= 1
  {
    match t
    case Nil => x
    case Node(l, q, rt) =>
      if v < V[q] then DropX(V, l, v, x - Shift(depth), depth + 1)
      else DropX(V, rt, v, x + Shift(depth), depth + 1)
  }

  /** The horizontal shift at depth `d` is `200 / d`, so the shifts below a node can add
      up to more than the shift that placed it, and a node of the left subtree can be drawn
      to the right of the root. After inserting 50, 10, 20, 30 (a root 50 whose left child
      10 has a right spine 20, 30), inserting 40
      sends it left of 50 but draws it at 500 - 200 + 100 + 200/3 + 50, about 516.7,
      to the right of the root at 500. */
  lemma LeftSubtreeCrossesRoot()
    ensures var V := map[0 := 50.0, 1 := 10.0, 2 := 20.0, 3 := 30.0];
            var t := Node(Node(Nil, 1, Node(Nil, 2, Node(Nil, 3, Nil))), 0, Nil);
            40.0 < V[0] && DropX(V, t, 40.0, START_X, 1) > START_X
  {
    var V := map[0 := 50.0, 1 := 10.0, 2 := 20.0, 3 := 30.0];
    var c := Node(Nil, 3, Nil);
    var b := Node(Nil, 2, c);
    var a := Node(Nil, 1, b);
    calc {
      DropX(V, Node(a, 0, Nil), 40.0, START_X, 1);
      DropX(V, a, 40.0, START_X - 200.0, 2);
      DropX(V, b, 40.0, START_X - 200.0 + 100.0, 3);
      DropX(V, c, 40.0, START_X - 200.0 + 100.0 + 200.0 / 3.0, 4);
      DropX(V, Nil, 40.0, START_X - 200.0 + 100.0 + 200.0 / 3.0 + 50.0, 5);
    }
  }

  // ------------------------------------------------------------ display lines

  /** `wrapNumber` on the digit string `s` of a number: up to three characters stay on one
      line; a longer string is cut into two lines, the first one holding the larger half. */
  function WrapNumber(s: string): (lines: seq<string>)
    ensures |s| <= 3 ==> lines == [s]
    ensures |s| > 3 ==> |lines| == 2 && lines[0] + lines[1] == s && |lines[0]| == (|s| + 1) / 2
  {
    if |s| <= 3 then [s]
    else
      var mid := (|s| + 1) / 2;
      [s[..mid], s[mid..]]
  }

  /** The lines read one after the other. */
  function Join(lines: seq<string>): string {
    if lines == [] then [] else lines[0] + Join(lines[1..])
  }

  /** Wrapping loses nothing: the lines read together give the string back, and no line
      is empty unless the string is. */
  lemma WrapNumberJoin(s: string)
    ensures Join(WrapNumber(s)) == s
    ensures forall i :: 0 <= i < |WrapNumber(s)| ==> |WrapNumber(s)[i]| > 0 || s == []
  {
    var lines := WrapNumber(s);
    if |s| > 3 {
      assert lines[1..][1..] == [];
      assert Join(lines) == lines[0] + (lines[1] + Join([]));
    } else {
      assert lines[1..] == [];
    }
  }

  /** Up to six characters (a five-digit value, or four digits and a point) fit in lines
      of at most three characters, the first line at most one longer than the second. */
  lemma WrapNumberFits(s: string)
    requires |s| <= 6
    ensures forall i :: 0 <= i < |WrapNumber(s)| ==> |WrapNumber(s)[i]| <= 3
    ensures |WrapNumber(s)| == 2 ==> 0 <= |WrapNumber(s)[0]| - |WrapNumber(s)[1]| <= 1
  {
    var lines := WrapNumber(s);
    if |s| > 3 {
      assert |lines[0]| + |lines[1]| == |s| by { assert |lines[0] + lines[1]| == |s|; }
    }
  }

  // ------------------------------------------------------------ bounding box

  /** `b` is `bounds` after `Math.min`/`Math.max` with the point `(x, y)`; `None` stands for
      the initial bounds `(Infinity, -Infinity, Infinity, -Infinity)`. */
  function Include(bounds: Option<Box>, x: real, y: real): (b: Box)
    ensures b.minX <= x <= b.maxX && b.minY <= y <= b.maxY
    ensures bounds.Some? ==> b.minX <= bounds.value.minX && bounds.value.maxX <= b.maxX &&
                             b.minY <= bounds.value.minY && bounds.value.maxY <= b.maxY
    ensures b.minX == x || (bounds.Some? && b.minX == bounds.value.minX)
    ensures b.maxX == x || (bounds.Some? && b.maxX == bounds.value.maxX)
    ensures b.minY == y || (bounds.Some? && b.minY == bounds.value.minY)
    ensures b.maxY == y || (bounds.Some? && b.maxY == bounds.value.maxY)
  {
    match bounds
    case None => Box(x, x, y, y)
    case Some(c) =>
      Box(if x < c.minX then x else c.minX, if c.maxX < x then x else c.maxX,
          if y < c.minY then y else c.minY, if c.maxY < y then y else c.maxY)
  }

  /** Every node of `s` lies inside `b`. */
  ghost predicate Covers(b: Box, s: set<Ref>, X: map<Ref, real>, Y: map<Ref, real>)
    requires s <= X.Keys && s <= Y.Keys
  {
    forall q :: q in s ==> b.minX <= X[q] <= b.maxX && b.minY <= Y[q] <= b.maxY
  }

  /** `b` contains `init`, when there is one. */
  ghost predicate Widens(b: Box, init: Option<Box>) {
    init.Some? ==> b.minX <= init.value.minX && init.value.maxX <= b.maxX &&
                   b.minY <= init.value.minY && init.value.maxY <= b.maxY
  }

  /** Each side of `b` is a side of `init` or the coordinate of a node of `s`. */
  ghost predicate Attained(b: Box, init: Option<Box>, s: set<Ref>, X: map<Ref, real>, Y: map<Ref, real>)
    requires s <= X.Keys && s <= Y.Keys
  {
    ((init.Some? && b.minX == init.value.minX) || exists q :: q in s && X[q] == b.minX) &&
    ((init.Some? && b.maxX == init.value.maxX) || exists q :: q in s && X[q] == b.maxX) &&
    ((init.Some? && b.minY == init.value.minY) || exists q :: q in s && Y[q] == b.minY) &&
    ((init.Some? && b.maxY == init.value.maxY) || exists q :: q in s && Y[q] == b.maxY)
  }

  /** A side reached by an intermediate box stays reached through the larger set. */
  lemma AttainedChain(b: Box, mid: Box, init: Option<Box>, s0: set<Ref>, s1: set<Ref>,
                      X: map<Ref, real>, Y: map<Ref, real>)
    requires s0 <= s1 && s1 <= X.Keys && s1 <= Y.Keys
    requires Attained(mid, init, s0, X, Y) && Attained(b, Some(mid), s1, X, Y)
    ensures Attained(b, init, s1, X, Y)
  {
  }

  /** One step of the walk: `mid` holds `init` and the nodes `s0`; the walk over a further
      set `s` leaves `mid` as it is when `s` is empty and otherwise widens it to `b` over
      `s`. Then `b` holds `init` and the nodes of both sets. */
  lemma Absorb(X: map<Ref, real>, Y: map<Ref, real>, s0: set<Ref>, s: set<Ref>, all: set<Ref>,
               init: Option<Box>, mid: Box, b: Option<Box>)
    requires all == s0 + s && all <= X.Keys && all <= Y.Keys
    requires Covers(mid, s0, X, Y) && Widens(mid, init) && Attained(mid, init, s0, X, Y)
    requires s == {} ==> b == Some(mid)
    requires s != {} ==> b.Some? && Covers(b.value, s, X, Y) && Widens(b.value, Some(mid)) &&
                         Attained(b.value, Some(mid), s, X, Y)
    ensures b.Some? && Covers(b.value, all, X, Y) && Widens(b.value, init)
    ensures Attained(b.value, init, all, X, Y)
  {
    if s != {} {
      AttainedChain(b.value, mid, init, s0, all, X, Y);
    }
  }

  // ------------------------------------------------------------ the node records

  class Drawing {
    var left: map<Ref, Ptr>
    var right: map<Ref, Ptr>
    var value: map<Ref, real>
    var posX: map<Ref, real>
    var posY: map<Ref, real>
    /** The identity the next created node gets. */
    var next: nat

    /** Every node has every field, and only created nodes exist. */
    ghost predicate Valid()
      reads this
    {
      TreeEngine.Dom(left, next) && TreeEngine.Dom(right, next) && TreeEngine.Dom(value, next) &&
      TreeEngine.Dom(posX, next) && TreeEngine.Dom(posY, next)
    }

    constructor ()
      ensures Valid() && left == map[] && next == 0
    {
      left, right, value, posX, posY := map[], map[], map[], map[], map[];
      next := 0;
    }

    /** `nodeExists(node, value)`: a node of the tree reached from `p` holds `v`. */
    function NodeExists(p: Ptr, v: real, ghost t: Tree): (b: bool)
      reads this
      requires Shaped(left, right, p, t) && Refs(t) <= value.Keys
      ensures b <==> v in SearchTree.Values(value, t)
      decreases t
    {
      if p.Null? then false
      else if value[p.ref] == v then true
      else NodeExists(left[p.ref], v, t.left) || NodeExists(right[p.ref], v, t.right)
    }

    /** The object literal `insertNode` creates for an empty subtree: a leaf holding `v`,
        drawn at `(x, y)`. */
    method CreateNode(v: real, x: real, y: real) returns (n: Ref)
      requires Valid()
      modifies this`left, this`right, this`value, this`posX, this`posY, this`next
      ensures Valid()
      ensures n == old(next) && n !in old(value) && next == old(next) + 1
      ensures left == old(left)[n := Null] && right == old(right)[n := Null] && value == old(value)[n := v]
      ensures posX == old(posX)[n := x] && posY == old(posY)[n := y]
    {
      n := next;
      TreeEngine.DomAdd(left, n, Null);
      TreeEngine.DomAdd(right, n, Null);
      TreeEngine.DomAdd(value, n, v);
      TreeEngine.DomAdd(posX, n, x);
      TreeEngine.DomAdd(posY, n, y);
      left, right, value := left[n := Null], right[n := Null], value[n := v];
      posX, posY := posX[n := x], posY[n := y];
      next := next + 1;
    }

    /** The field assignment `q.left = p`. */
    method SetLeft(q: Ref, p: Ptr)
      requires Valid() && q in left
      modifies this`left
      ensures Valid() && left == old(left)[q := p]
    {
      TreeEngine.DomPut(left, next, q, p);
      left := left[q := p];
    }

    /** The field assignment `q.right = p`. */
    method SetRight(q: Ref, p: Ptr)
      requires Valid() && q in right
      modifies this`right
      ensures Valid() && right == old(right)[q := p]
    {
      TreeEngine.DomPut(right, next, q, p);
      right := right[q := p];
    }

    /** The recursion of `insertNode(root, value, x, y, depth)`: a `null` subtree becomes a
        new leaf at `(x, y)`; otherwise the value goes left when it is below the node's
        and right otherwise, `200 / depth` further to that side and 80 lower, and the
        child field is set to the result. Only the new node gets a position. */
    method InsertNodeAt(p: Ptr, v: real, x: real, y: real, depth: nat, ghost t: Tree) returns (r: Ref)
      requires Valid() && depth >= 1 && Shaped(left, right, p, t) && Distinct(t) && Refs(t) <= value.Keys
      modifies this`left, this`right, this`value, this`posX, this`posY, this`next
      ensures Valid() && next == old(next) + 1 && old(next) !in old(value)
      ensures Shaped(left, right, Ptr(r), SearchTree.Insert(old(value), t, v, old(next)))
      ensures r == (if t.Nil? then old(next) else t.ref)
      ensures value == old(value)[old(next) := v]
      ensures posX == old(posX)[old(next) := DropX(old(value), t, v, x, depth)]
      ensures posY == old(posY)[old(next) := DropY(old(value), t, v, y)]
      ensures Keeps(old(left), left, Refs(t)) && Keeps(old(right), right, Refs(t))
      decreases t, 1
    {
      if p.Null? {
        r := CreateNode(v, x, y);
        return;
      }
      r := p.ref;
      if v < value[r] {
        InsertNodeLeftOf(r, v, x, y, depth, t);
      } else {
        InsertNodeRightOf(r, v, x, y, depth, t);
      }
    }

    /** The step of `InsertNodeAt` at a node `r` whose value exceeds `v`: insert into the
        left subtree, `200 / depth` to the left and 80 lower, then `r.left = kid`. */
    method InsertNodeLeftOf(r: Ref, v: real, x: real, y: real, depth: nat, ghost t: Tree)
      requires r in value && v < value[r]
      requires Valid() && depth >= 1 && Shaped(left, right, Ptr(r), t) && Distinct(t) && Refs(t) <= value.Keys
      modifies this`left, this`right, this`value, this`posX, this`posY, this`next
      ensures Valid() && next == old(next) + 1 && old(next) !in old(value)
      ensures Shaped(left, right, Ptr(r), SearchTree.Insert(old(value), t, v, old(next)))
      ensures value == old(value)[old(next) := v]
      ensures posX == old(posX)[old(next) := DropX(old(value), t, v, x, depth)]
      ensures posY == old(posY)[old(next) := DropY(old(value), t, v, y)]
      ensures Keeps(old(left), left, Refs(t)) && Keeps(old(right), right, Refs(t))
      decreases t, 0
    {
      ShapedRefs(left, right, Ptr(r), t);
      ghost var L0, R0, V0, n := left, right, value, next;
      assert n !in Refs(t) && n !in value;
      var kid := InsertNodeAt(left[r], v, x - Shift(depth), y + VERTICAL_GAP, depth + 1, t.left);
      ghost var L1, R1 := left, right;
      SetLeft(r, Ptr(kid));
      assert Shaped(left, right, Ptr(r), SearchTree.Insert(V0, t, v, n)) &&
             Keeps(L0, left, Refs(t)) && Keeps(R0, right, Refs(t)) by {
        TreeEngine.InsertShapeLeft(L0, R0, L1, R1, V0, t, v, n, kid);
      }
    }

    /** The step of `InsertNodeAt` at a node `r` whose value is at most `v`: insert into the
        right subtree, `200 / depth` to the right and 80 lower, then `r.right = kid`. */
    method InsertNodeRightOf(r: Ref, v: real, x: real, y: real, depth: nat, ghost t: Tree)
      requires r in value && !(v < value[r])
      requires Valid() && depth >= 1 && Shaped(left, right, Ptr(r), t) && Distinct(t) && Refs(t) <= value.Keys
      modifies this`left, this`right, this`value, this`posX, this`posY, this`next
      ensures Valid() && next == old(next) + 1 && old(next) !in old(value)
      ensures Shaped(left, right, Ptr(r), SearchTree.Insert(old(value), t, v, old(next)))
      ensures value == old(value)[old(next) := v]
      ensures posX == old(posX)[old(next) := DropX(old(value), t, v, x, depth)]
      ensures posY == old(posY)[old(next) := DropY(old(value), t, v, y)]
      ensures Keeps(old(left), left, Refs(t)) && Keeps(old(right), right, Refs(t))
      decreases t, 0
    {
      ShapedRefs(left, right, Ptr(r), t);
      ghost var L0, R0, V0, n := left, right, value, next;
      assert n !in Refs(t) && n !in value;
      var kid := InsertNodeAt(right[r], v, x + Shift(depth), y + VERTICAL_GAP, depth + 1, t.right);
      ghost var L1, R1 := left, right;
      SetRight(r, Ptr(kid));
      assert Shaped(left, right, Ptr(r), SearchTree.Insert(V0, t, v, n)) &&
             Keeps(L0, left, Refs(t)) && Keeps(R0, right, Refs(t)) by {
        TreeEngine.InsertShapeRight(L0, R0, L1, R1, V0, t, v, n, kid);
      }
    }

    /** `insertNode(root, value)` with its defaults `x = 500`, `y = 50`, `depth = 1`. The
        values gain one copy of `v`, in its sorted place on a search tree; the root stays
        the root; the new node is drawn 80 lower per level below the root; no other node
        moves. */
    method InsertNode(root: Ptr, v: real, ghost t: Tree) returns (r: Ref)
      requires Valid() && Shaped(left, right, root, t) && Distinct(t) && Refs(t) <= value.Keys
      modifies this`left, this`right, this`value, this`posX, this`posY, this`next
      ensures Valid() && next == old(next) + 1
      ensures Shaped(left, right, Ptr(r), SearchTree.Insert(old(value), t, v, old(next)))
      ensures Distinct(SearchTree.Insert(old(value), t, v, old(next)))
      ensures root.Ptr? ==> r == root.ref
      ensures value == old(value)[old(next) := v]
      ensures multiset(SearchTree.Values(value, SearchTree.Insert(old(value), t, v, old(next)))) ==
              multiset(SearchTree.Values(old(value), t)) + multiset{v}
      ensures SearchTree.Sorted(SearchTree.Values(old(value), t)) ==>
                SearchTree.Values(value, SearchTree.Insert(old(value), t, v, old(next))) ==
                SearchTree.InsertSorted(SearchTree.Values(old(value), t), v)
      ensures posY == old(posY)[old(next) := DropY(old(value), t, v, START_Y)]
      ensures posX == old(posX)[old(next) := DropX(old(value), t, v, START_X, 1)]
      ensures Keeps(old(left), left, Refs(t)) && Keeps(old(right), right, Refs(t))
    {
      ghost var V0, N := value, next;
      ShapedRefs(left, right, root, t);
      assert N !in Refs(t) && Refs(t) <= value.Keys;
      r := InsertNodeAt(root, v, START_X, START_Y, 1, t);
      ghost var u := SearchTree.Insert(V0, t, v, N);
      assert Distinct(u) by { SearchTree.InsertDistinct(V0, t, v, N); }
      assert multiset(SearchTree.Values(value, u)) == multiset(SearchTree.Values(V0, t)) + multiset{v} by {
        SearchTree.InsertMultiset(V0, t, v, N);
      }
      if SearchTree.Sorted(SearchTree.Values(V0, t)) {
        assert SearchTree.Values(value, u) == SearchTree.InsertSorted(SearchTree.Values(V0, t), v) by {
          SearchTree.InsertValues(V0, t, v, N);
        }
      }
    }

    /** `handleInsert` on the parsed input: a value outside `[0, 99999]` (or `NaN`) is
        refused, a value already in the tree is accepted but not inserted, and any other
        value is inserted. Trees built this way never hold a value twice. */
    method HandleInsert(parsed: Option<real>, root: Ptr, ghost t: Tree) returns (accepted: bool, r: Ptr, ghost u: Tree)
      requires Valid() && Shaped(left, right, root, t) && Distinct(t) && Refs(t) <= value.Keys
      modifies this`left, this`right, this`value, this`posX, this`posY, this`next
      ensures Valid() && Shaped(left, right, r, u) && Distinct(u)
      ensures accepted <==> Admissible(parsed)
      ensures Refs(u) <= value.Keys
      ensures !accepted || parsed.value in SearchTree.Values(old(value), t) ==>
                r == root && u == t && left == old(left) && right == old(right) && value == old(value) &&
                posX == old(posX) && posY == old(posY) && next == old(next)
      ensures accepted && !(parsed.value in SearchTree.Values(old(value), t)) ==>
                u == SearchTree.Insert(old(value), t, parsed.value, old(next)) && value == old(value)[old(next) := parsed.value] &&
                next == old(next) + 1 &&
                posX == old(posX)[old(next) := DropX(old(value), t, parsed.value, START_X, 1)] &&
                posY == old(posY)[old(next) := DropY(old(value), t, parsed.value, START_Y)] &&
                Keeps(old(left), left, Refs(t)) && Keeps(old(right), right, Refs(t))
      ensures NoDuplicates(SearchTree.Values(old(value), t)) ==> NoDuplicates(SearchTree.Values(value, u))
    {
      ShapedRefs(left, right, root, t);
      accepted := Admissible(parsed);
      if accepted && !NodeExists(root, parsed.value, t) {
        ghost var V0, N := value, next;
        assert N !in Refs(t);
        var n := InsertNode(root, parsed.value, t);
        r := Ptr(n);
        u := SearchTree.Insert(V0, t, parsed.value, N);
        if NoDuplicates(SearchTree.Values(V0, t)) {
          InsertKeepsNoDuplicates(V0, t, parsed.value, N);
        }
      } else {
        r, u := root, t;
      }
    }

    /** `getBoundingBox(node, bounds)`: the walk that widens the shared bounds record by
        each node's position, node first, then the left and the right subtree. The record
        is threaded through the calls and returned. The result contains the given bounds
        and every node, and each of its sides is a side of the given bounds or the
        coordinate of a node. */
    method GetBoundingBox(p: Ptr, bounds: Option<Box>, ghost t: Tree) returns (b: Option<Box>)
      requires Shaped(left, right, p, t) && Refs(t) <= posX.Keys && Refs(t) <= posY.Keys
      ensures t.Nil? ==> b == bounds
      ensures t.Node? ==> b.Some? && Covers(b.value, Refs(t), posX, posY) && Widens(b.value, bounds) &&
                          Attained(b.value, bounds, Refs(t), posX, posY)
      decreases t
    {
      if p.Null? {
        return bounds;
      }
      var x := p.ref;
      ShapedRefs(left, right, p, t);
      var b0 := Include(bounds, posX[x], posY[x]);
      assert Covers(b0, {x}, posX, posY) && Attained(b0, bounds, {x}, posX, posY);
      var b1 := GetBoundingBox(left[x], Some(b0), t.left);
      Absorb(posX, posY, {x}, Refs(t.left), Refs(t.left) + {x}, bounds, b0, b1);
      var b2 := GetBoundingBox(right[x], b1, t.right);
      Absorb(posX, posY, Refs(t.left) + {x}, Refs(t.right), Refs(t), bounds, b1.value, b2);
      b := b2;
    }

    /** `getBoundingBox(root)` from the initial infinite bounds: `None` for an empty tree;
        otherwise a box that contains every node and whose every side is the coordinate
        of some node. */
    method BoundingBox(root: Ptr, ghost t: Tree) returns (b: Option<Box>)
      requires Shaped(left, right, root, t) && Refs(t) <= posX.Keys && Refs(t) <= posY.Keys
      ensures b.None? <==> t.Nil?
      ensures b.Some? ==> Covers(b.value, Refs(t), posX, posY) && Attained(b.value, None, Refs(t), posX, posY)
    {
      b := GetBoundingBox(root, None, t);
    }
  }
}
