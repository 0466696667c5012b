/** The layout engine of arrangeNodes, as functions over the node arena: the depth of a subtree,
    the level-based vertical pass, the depth-first horizontal pass that threads a running cursor,
    and the horizontal rescale. The class in graph.dfy runs the same passes in place and is
    proved to produce exactly what these functions describe; the lemmas here say what that is
    on the breadth-first trees the builder makes. */
module Layout {

  import opened Tree

  const H_MARGIN: real := 50.0
  const V_MARGIN: real := 50.0
  /** The distance the cursor moves after each leaf. */
  const LEAF_SPACING: real := 60.0

  /** Every child id lies after its parent and inside the arena; this is what makes the
      recursive passes terminate. */
  ghost predicate ChildrenAfter(ns: seq<Node>)
  {
    forall i, k :: 0 <= i < |ns| && 0 <= k < |ns[i].children| ==> i < ns[i].children[k] < |ns|
  }

  ghost predicate SameChildren(a: seq<Node>, b: seq<Node>)
  {
    |a| == |b| && forall j :: 0 <= j < |a| ==> b[j].children == a[j].children
  }

  /** b is a with some y coordinates rewritten and nothing else. */
  ghost predicate OnlyYChanged(a: seq<Node>, b: seq<Node>)
  {
    |a| == |b| && forall j :: 0 <= j < |a| ==> b[j] == a[j].(y := b[j].y)
  }

  /** b is a with some x coordinates rewritten and nothing else. */
  ghost predicate OnlyXChanged(a: seq<Node>, b: seq<Node>)
  {
    |a| == |b| && forall j :: 0 <= j < |a| ==> b[j] == a[j].(x := b[j].x)
  }

  /** b is a with some coordinates rewritten: values, prime flags, children and parents stay. */
  ghost predicate OnlyXYChanged(a: seq<Node>, b: seq<Node>)
  {
    |a| == |b| && forall j :: 0 <= j < |a| ==> b[j] == a[j].(x := b[j].x, y := b[j].y)
  }

  lemma YThenX(a: seq<Node>, b: seq<Node>, c: seq<Node>)
    requires OnlyYChanged(a, b) && OnlyXChanged(b, c)
    ensures OnlyXYChanged(a, c)
  {
    forall j | 0 <= j < |a|
      ensures c[j] == a[j].(x := c[j].x, y := c[j].y)
    {
      assert b[j] == a[j].(y := b[j].y);
      assert c[j] == b[j].(x := c[j].x);
    }
  }

  lemma XYThenX(a: seq<Node>, b: seq<Node>, c: seq<Node>)
    requires OnlyXYChanged(a, b) && OnlyXChanged(b, c)
    ensures OnlyXYChanged(a, c)
  {
    forall j | 0 <= j < |a|
      ensures c[j] == a[j].(x := c[j].x, y := c[j].y)
    {
      assert b[j] == a[j].(x := b[j].x, y := b[j].y);
      assert c[j] == b[j].(x := c[j].x);
    }
  }

  lemma SameChildrenKeepsOrder(a: seq<Node>, b: seq<Node>)
    requires ChildrenAfter(a) && SameChildren(a, b)
    ensures ChildrenAfter(b)
  {
    forall i, k | 0 <= i < |b| && 0 <= k < |b[i].children|
      ensures i < b[i].children[k] < |b|
    {
      assert b[i].children == a[i].children;
    }
  }

  lemma OnlyYSameChildren(a: seq<Node>, b: seq<Node>)
    requires OnlyYChanged(a, b)
    ensures SameChildren(a, b)
  {
    forall j | 0 <= j < |a|
      ensures b[j].children == a[j].children
    {
      assert b[j] == a[j].(y := b[j].y);
    }
  }

  lemma OnlyXSameChildren(a: seq<Node>, b: seq<Node>)
    requires OnlyXChanged(a, b)
    ensures SameChildren(a, b)
  {
    forall j | 0 <= j < |a|
      ensures b[j].children == a[j].children
    {
      assert b[j] == a[j].(x := b[j].x);
    }
  }

  // ---------------------------------------------------------------------------------------
  // getDepth
  // ---------------------------------------------------------------------------------------

  /** getDepth: 1 for a leaf, else 1 more than the deepest child. */
  function Depth(ns: seq<Node>, i: nat): (d: nat)
    requires ChildrenAfter(ns) && i < |ns|
    ensures d >= 1 && (d == 1 <==> ns[i].children == [])
    decreases |ns| - i, 1
  {
    if ns[i].children == [] then 1 else 1 + MaxDepth(ns, i, ns[i].children)
  }

  /** Math.max over the depths of the nodes cs (0 when there are none). */
  function MaxDepth(ns: seq<Node>, p: nat, cs: seq<nat>): (d: nat)
    requires ChildrenAfter(ns) && p < |ns|
    requires forall k :: 0 <= k < |cs| ==> p < cs[k] < |ns|
    ensures cs != [] ==> d >= 1
    decreases |ns| - p, 0, |cs|
  {
    if cs == [] then 0
    else
      var a := MaxDepth(ns, p, cs[..|cs| - 1]);
      var b := Depth(ns, cs[|cs| - 1]);
      if a < b then b else a
  }

  /** MaxDepth is the maximum: at least the depth of each of the nodes cs, and the depth of one
      of them. */
  lemma {:induction false} MaxDepthIsMax(ns: seq<Node>, p: nat, cs: seq<nat>)
    requires ChildrenAfter(ns) && p < |ns|
    requires forall k :: 0 <= k < |cs| ==> p < cs[k] < |ns|
    ensures forall k :: 0 <= k < |cs| ==> Depth(ns, cs[k]) <= MaxDepth(ns, p, cs)
    ensures cs != [] ==> exists k :: 0 <= k < |cs| && MaxDepth(ns, p, cs) == Depth(ns, cs[k])
    decreases |cs|
  {
    if cs != [] {
      var init := cs[..|cs| - 1];
      MaxDepthIsMax(ns, p, init);
      assert forall k :: 0 <= k < |init| ==> init[k] == cs[k];
      if init != [] && Depth(ns, cs[|cs| - 1]) <= MaxDepth(ns, p, init) {
        var k :| 0 <= k < |init| && MaxDepth(ns, p, init) == Depth(ns, init[k]);
        assert MaxDepth(ns, p, cs) == Depth(ns, cs[k]);
      }
    }
  }

  // ---------------------------------------------------------------------------------------
  // setY
  // ---------------------------------------------------------------------------------------

  /** setY's formula for a node at the given level below the root. With maxDepth 1 the source
      divides by zero; the only node is then the root, at level 0, and 0 * (Infinity or NaN)
      is NaN. */
  function YAt(level: nat, maxDepth: nat, H: real): Coord
  {
    if maxDepth == 1 then NaN
    else Num(V_MARGIN + level as real * ((H - 2.0 * V_MARGIN) / (maxDepth as real - 1.0)))
  }

  /** The height is NaN exactly for a single level, and otherwise level 0 is on the top margin. */
  lemma YAtCases(level: nat, maxDepth: nat, H: real)
    ensures YAt(level, maxDepth, H).NaN? <==> maxDepth == 1
    ensures maxDepth != 1 && level == 0 ==> YAt(level, maxDepth, H) == Num(V_MARGIN)
  {
  }

  /** setY(node i, level): write i's y, then the children's subtrees one level lower, in order. */
  ghost function SetYAt(ns: seq<Node>, i: nat, level: nat, maxDepth: nat, H: real): (r: seq<Node>)
    requires ChildrenAfter(ns) && i < |ns|
    ensures OnlyYChanged(ns, r)
    decreases |ns| - i, 1
  {
    var ns1 := ns[i := ns[i].(y := YAt(level, maxDepth, H))];
    assert OnlyYChanged(ns, ns1);
    OnlyYSameChildren(ns, ns1);
    SameChildrenKeepsOrder(ns, ns1);
    SetYAll(ns1, i, ns1[i].children, level + 1, maxDepth, H)
  }

  /** The forEach of setY over the children cs of p: each child's subtree in turn. */
  ghost function SetYAll(ns: seq<Node>, p: nat, cs: seq<nat>, level: nat, maxDepth: nat, H: real): (r: seq<Node>)
    requires ChildrenAfter(ns) && p < |ns|
    requires forall k :: 0 <= k < |cs| ==> p < cs[k] < |ns|
    ensures OnlyYChanged(ns, r)
    decreases |ns| - p, 0, |cs|
  {
    if cs == [] then ns
    else
      var r1 := SetYAll(ns, p, cs[..|cs| - 1], level, maxDepth, H);
      OnlyYSameChildren(ns, r1);
      SameChildrenKeepsOrder(ns, r1);
      var r2 := SetYAt(r1, cs[|cs| - 1], level, maxDepth, H);
      assert OnlyYChanged(ns, r2) by {
        forall j | 0 <= j < |ns|
          ensures r2[j] == ns[j].(y := r2[j].y)
        {
          assert r1[j] == ns[j].(y := r1[j].y);
          assert r2[j] == r1[j].(y := r2[j].y);
        }
      }
      r2
  }

  // ---------------------------------------------------------------------------------------
  // arrangeNode
  // ---------------------------------------------------------------------------------------

  /** The arena after a pass, with the cursor xPos where the pass left it. */
  datatype Placed = Placed(nodes: seq<Node>, cursor: real)

  /** arrangeNode(node i) with the cursor at xPos: a leaf takes the cursor's position and moves
      the cursor on by LEAF_SPACING; any other node first arranges its children in order, then
      sits halfway between its first and its last child. */
  ghost function ArrangeAt(ns: seq<Node>, i: nat, xPos: real): (r: Placed)
    requires ChildrenAfter(ns) && i < |ns|
    ensures OnlyXChanged(ns, r.nodes)
    decreases |ns| - i, 1
  {
    if ns[i].children == [] then
      var r := ns[i := ns[i].(x := xPos)];
      assert OnlyXChanged(ns, r);
      Placed(r, xPos + LEAF_SPACING)
    else
      var cs := ns[i].children;
      var p := ArrangeAll(ns, i, cs, xPos);
      var first := p.nodes[cs[0]];
      var last := p.nodes[cs[|cs| - 1]];
      var r := p.nodes[i := p.nodes[i].(x := (first.x + last.x) / 2.0)];
      assert OnlyXChanged(ns, r) by {
        forall j | 0 <= j < |ns|
          ensures r[j] == ns[j].(x := r[j].x)
        {
          assert p.nodes[j] == ns[j].(x := p.nodes[j].x);
        }
      }
      Placed(r, p.cursor)
  }

  /** How ArrangeAt finishes on a node with children, spelled out for the in-place pass. */
  lemma ArrangeAtParent(ns: seq<Node>, i: nat, xPos: real)
    requires ChildrenAfter(ns) && i < |ns| && ns[i].children != []
    ensures var cs := ns[i].children;
            var p := ArrangeAll(ns, i, cs, xPos);
            ArrangeAt(ns, i, xPos) == Placed(p.nodes[i := p.nodes[i].(x := (p.nodes[cs[0]].x + p.nodes[cs[|cs| - 1]].x) / 2.0)], p.cursor)
  {
  }

  /** The forEach of setY over the first k + 1 children: the first k, then child k. */
  lemma SetYAllSnoc(ns: seq<Node>, p: nat, cs: seq<nat>, k: nat, level: nat, maxDepth: nat, H: real)
    requires ChildrenAfter(ns) && p < |ns| && k < |cs|
    requires forall m :: 0 <= m < |cs| ==> p < cs[m] < |ns|
    ensures var r1 := SetYAll(ns, p, cs[..k], level, maxDepth, H);
            ChildrenAfter(r1) && SetYAll(ns, p, cs[..k + 1], level, maxDepth, H) == SetYAt(r1, cs[k], level, maxDepth, H)
  {
    var r1 := SetYAll(ns, p, cs[..k], level, maxDepth, H);
    OnlyYSameChildren(ns, r1);
    SameChildrenKeepsOrder(ns, r1);
    assert cs[..k + 1][..k] == cs[..k];
  }

  /** The forEach of arrangeNode over the children cs of p, threading the cursor. */
  ghost function ArrangeAll(ns: seq<Node>, p: nat, cs: seq<nat>, xPos: real): (r: Placed)
    requires ChildrenAfter(ns) && p < |ns|
    requires forall k :: 0 <= k < |cs| ==> p < cs[k] < |ns|
    ensures OnlyXChanged(ns, r.nodes)
    decreases |ns| - p, 0, |cs|
  {
    if cs == [] then Placed(ns, xPos)
    else
      var r1 := ArrangeAll(ns, p, cs[..|cs| - 1], xPos);
      OnlyXSameChildren(ns, r1.nodes);
      SameChildrenKeepsOrder(ns, r1.nodes);
      var r2 := ArrangeAt(r1.nodes, cs[|cs| - 1], r1.cursor);
      assert OnlyXChanged(ns, r2.nodes) by {
        forall j | 0 <= j < |ns|
          ensures r2.nodes[j] == ns[j].(x := r2.nodes[j].x)
        {
          assert r1.nodes[j] == ns[j].(x := r1.nodes[j].x);
          assert r2.nodes[j] == r1.nodes[j].(x := r2.nodes[j].x);
        }
      }
      r2
  }

  /** The forEach of arrangeNode over the first k + 1 children: the first k, then child k with
      the cursor where they left it. */
  lemma ArrangeAllSnoc(ns: seq<Node>, p: nat, cs: seq<nat>, k: nat, xPos: real)
    requires ChildrenAfter(ns) && p < |ns| && k < |cs|
    requires forall m :: 0 <= m < |cs| ==> p < cs[m] < |ns|
    ensures var r1 := ArrangeAll(ns, p, cs[..k], xPos);
            ChildrenAfter(r1.nodes) && ArrangeAll(ns, p, cs[..k + 1], xPos) == ArrangeAt(r1.nodes, cs[k], r1.cursor)
  {
    var r1 := ArrangeAll(ns, p, cs[..k], xPos);
    OnlyXSameChildren(ns, r1.nodes);
    SameChildrenKeepsOrder(ns, r1.nodes);
    assert cs[..k + 1][..k] == cs[..k];
  }

  // ---------------------------------------------------------------------------------------
  // Horizontal rescale
  // ---------------------------------------------------------------------------------------

  function Xs(ns: seq<Node>): (xs: seq<real>)
    ensures |xs| == |ns| && forall j :: 0 <= j < |ns| ==> xs[j] == ns[j].x
  {
    seq(|ns|, j requires 0 <= j < |ns| => ns[j].x)
  }

  /** Math.min over a non-empty list. */
  function MinOf(s: seq<real>): (m: real)
    requires s != []
    ensures m in s && forall j :: 0 <= j < |s| ==> m <= s[j]
  {
    if |s| == 1 then s[0]
    else
      var m0 := MinOf(s[..|s| - 1]);
      assert forall j :: 0 <= j < |s| - 1 ==> s[..|s| - 1][j] == s[j];
      if s[|s| - 1] < m0 then s[|s| - 1] else m0
  }

  /** Math.max over a non-empty list. */
  function MaxOf(s: seq<real>): (m: real)
    requires s != []
    ensures m in s && forall j :: 0 <= j < |s| ==> s[j] <= m
  {
    if |s| == 1 then s[0]
    else
      var m0 := MaxOf(s[..|s| - 1]);
      assert forall j :: 0 <= j < |s| - 1 ==> s[..|s| - 1][j] == s[j];
      if m0 < s[|s| - 1] then s[|s| - 1] else m0
  }

  /** scaleX: the usable width over the span of x, with a zero span replaced by 1. */
  function ScaleX(minX: real, maxX: real, W: real): (s: real)
    ensures minX < maxX ==> (maxX - minX) * s == W - 2.0 * H_MARGIN
    ensures minX <= maxX && W > 2.0 * H_MARGIN ==> s > 0.0
  {
    (W - 2.0 * H_MARGIN) / (if maxX - minX == 0.0 then 1.0 else maxX - minX)
  }

  /** Where the rescale sends x: the left margin exactly when x is the minimum (for a non-zero
      scale). */
  function RescaledX(x: real, minX: real, scaleX: real): (r: real)
    ensures scaleX != 0.0 ==> (r == H_MARGIN <==> x == minX)
  {
    var shift := (x - minX) * scaleX;
    ProductZero(x - minX, scaleX);
    assert H_MARGIN + shift == H_MARGIN <==> shift == 0.0;
    H_MARGIN + shift
  }

  lemma ProductZero(a: real, b: real)
    ensures a * b == 0.0 <==> a == 0.0 || b == 0.0
  {
    if a != 0.0 && b != 0.0 {
      assert a * b / b == a;
    }
  }

  /** The rescale maps the smallest x to the left margin and the largest to the right one. */
  lemma RescaleEnds(minX: real, maxX: real, W: real)
    requires minX < maxX
    ensures RescaledX(minX, minX, ScaleX(minX, maxX, W)) == H_MARGIN
    ensures RescaledX(maxX, minX, ScaleX(minX, maxX, W)) == W - H_MARGIN
  {
    var s := ScaleX(minX, maxX, W);
    assert (maxX - minX) * s == W - 2.0 * H_MARGIN;
  }

  /** With a zero span every x is the left margin. */
  lemma RescaleFlat(x: real, W: real)
    ensures RescaledX(x, x, ScaleX(x, x, W)) == H_MARGIN
  {
  }

  /** With room to spare (W > 100) the rescale keeps the order of the x coordinates. */
  lemma RescaleKeepsOrder(a: real, b: real, minX: real, maxX: real, W: real)
    requires minX < maxX && W > 2.0 * H_MARGIN
    ensures a < b <==> RescaledX(a, minX, ScaleX(minX, maxX, W)) < RescaledX(b, minX, ScaleX(minX, maxX, W))
  {
    var s := ScaleX(minX, maxX, W);
    assert s > 0.0;
    assert RescaledX(b, minX, s) - RescaledX(a, minX, s) == (b - a) * s;
  }

  /** The rescale is affine, so it keeps a node halfway between two others. */
  lemma RescaleKeepsMidpoint(a: real, b: real, minX: real, s: real)
    ensures RescaledX((a + b) / 2.0, minX, s) == (RescaledX(a, minX, s) + RescaledX(b, minX, s)) / 2.0
  {
  }

  /** Step 4 of arrangeNodes: every x rescaled with the minimum and the scale of the whole arena. */
  ghost function Rescale(ns: seq<Node>, W: real): (r: seq<Node>)
    requires ns != []
    ensures OnlyXChanged(ns, r)
  {
    var minX := MinOf(Xs(ns));
    var scaleX := ScaleX(minX, MaxOf(Xs(ns)), W);
    seq(|ns|, j requires 0 <= j < |ns| => ns[j].(x := RescaledX(ns[j].x, minX, scaleX)))
  }

  /** The positions before the rescale: y by level, then x by the depth-first pass from the root
      with the cursor starting at the left margin. */
  ghost function Placement(ns: seq<Node>, H: real): (r: seq<Node>)
    requires ChildrenAfter(ns) && ns != []
    ensures OnlyXYChanged(ns, r)
  {
    var withY := SetYAt(ns, 0, 0, Depth(ns, 0), H);
    OnlyYSameChildren(ns, withY);
    SameChildrenKeepsOrder(ns, withY);
    var placed := ArrangeAt(withY, 0, H_MARGIN).nodes;
    YThenX(ns, withY, placed);
    placed
  }

  /** arrangeNodes on a non-empty arena. */
  ghost function Arrangement(ns: seq<Node>, W: real, H: real): (r: seq<Node>)
    requires ChildrenAfter(ns) && ns != []
    ensures OnlyXYChanged(ns, r)
  {
    var placed := Placement(ns, H);
    XYThenX(ns, placed, Rescale(placed, W));
    Rescale(placed, W)
  }
}
