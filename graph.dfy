/** The tree builder and arrangeNodes as the source runs them: a graph object whose node list
    and edge list are rebuilt by generateGraph and rewritten in place by the layout passes.
    Each method is proved to produce exactly what the functions of Tree and Layout describe. */
module Graph {

  import opened Wrappers
  import opened Tree
  import opened Layout
  import opened LayoutHeap
  import Primes

  /** The ids 0 .. count - 1: the builder's currentLevel list, which keeps every node attached
      so far, in creation order. */
  function Ids(count: nat): (ids: seq<nat>)
    ensures |ids| == count && forall k :: 0 <= k < count ==> ids[k] == k
  {
    seq(count, k requires 0 <= k < count => k as nat)
  }

  /** In the breadth-first arena of count nodes, the first node with fewer than two children is
      the parent breadth-first filling gives node count. */
  lemma FirstOpenSlot(count: nat)
    requires count >= 1
    ensures |HeapChildren(HeapParent(count), count)| < 2
    ensures forall q :: 0 <= q < HeapParent(count) ==> |HeapChildren(q, count)| == 2
  {
  }

  /** Attaching node count to its breadth-first parent turns the arena of count nodes into the
      arena of count + 1 nodes: ns0 is the arena with the new node pushed, ns1 has it listed
      as its parent's last child, ns2 has its parent set. */
  lemma BuiltTreeAttach(root: int, count: nat, ns0: seq<Node>, ns1: seq<Node>, ns2: seq<Node>)
    requires count >= 1
    requires ns0 == BuiltTree(root, count) + [Node(root + count, Primes.ReportedPrime(root + count), [], None, 0.0, Num(0.0))]
    requires ns1 == ns0[HeapParent(count) := ns0[HeapParent(count)].(children := ns0[HeapParent(count)].children + [count])]
    requires ns2 == ns1[count := ns1[count].(parent := Some(HeapParent(count)))]
    ensures ns2 == BuiltTree(root, count + 1)
  {
    var p := HeapParent(count);
    var b0 := BuiltTree(root, count);
    var bt := BuiltTree(root, count + 1);
    forall i | 0 <= i < count + 1
      ensures ns2[i] == bt[i]
    {
      if i == count {
        assert ns2[i] == Node(root + count, Primes.ReportedPrime(root + count), [], Some(p), 0.0, Num(0.0));
      } else if i == p {
        assert ns2[i] == b0[i].(children := HeapChildren(i, count) + [count]);
      } else {
        assert ns2[i] == b0[i];
      }
    }
  }

  /** The builder's start: the root alone, no edges, currentLevel [0]. */
  lemma SingleNode(root: int)
    ensures BuiltTree(root, 1) == [Node(root, Primes.ReportedPrime(root), [], None, 0.0, Num(0.0))]
    ensures HeapEdges(1) == [] && Ids(1) == [0]
  {
    assert HeapChildren(0, 1) == [];
  }

  lemma IdsGrow(count: nat)
    ensures Ids(count) + [count] == Ids(count + 1)
  {
  }

  /** The arena of count nodes with node count pushed (not yet attached). */
  ghost function Pushed(root: int, count: nat): (ns: seq<Node>)
    ensures |ns| == count + 1
  {
    BuiltTree(root, count) + [Node(root + count, Primes.ReportedPrime(root + count), [], None, 0.0, Num(0.0))]
  }

  /** While the builder fills the arena of count nodes (the new node count already pushed),
      currentLevel holds a node with fewer than two children ... */
  lemma OpenSlotExists(root: int, count: nat, level: seq<nat>, ns: seq<Node>)
    requires count >= 1 && level == Ids(count) && ns == Pushed(root, count)
    ensures HeapParent(count) < |level| && |ns[level[HeapParent(count)]].children| < 2
  {
    FirstOpenSlot(count);
    assert ns[HeapParent(count)] == BuiltTree(root, count)[HeapParent(count)];
  }

  /** ... and the first such node is the parent breadth-first filling gives node count. */
  lemma OpenSlotIsParent(root: int, count: nat, level: seq<nat>, ns: seq<Node>, k: nat)
    requires count >= 1 && level == Ids(count) && ns == Pushed(root, count)
    requires k < |level| && |ns[level[k]].children| < 2
    requires forall q :: 0 <= q < k ==> |ns[level[q]].children| >= 2
    ensures level[k] == HeapParent(count)
  {
    FirstOpenSlot(count);
    var p := HeapParent(count);
    assert ns[k] == BuiltTree(root, count)[k];
    assert ns[p] == BuiltTree(root, count)[p];
    assert |ns[level[p]].children| < 2;
  }

  /** The builder's step for node count: the first open slot of currentLevel is the
      breadth-first parent, and listing count as its last child and setting its parent gives
      the arena, the edges and the currentLevel of count + 1 nodes. */
  lemma AttachNumber(root: int, count: nat, level: seq<nat>, k: nat, ns0: seq<Node>, ns2: seq<Node>)
    requires count >= 1 && level == Ids(count) && ns0 == Pushed(root, count)
    requires k < |level| && |ns0[level[k]].children| < 2
    requires forall q :: 0 <= q < k ==> |ns0[level[q]].children| >= 2
    requires var ns1 := ns0[level[k] := ns0[level[k]].(children := ns0[level[k]].children + [count])];
             ns2 == ns1[count := ns1[count].(parent := Some(level[k]))]
    ensures level[k] == HeapParent(count)
    ensures ns2 == BuiltTree(root, count + 1)
    ensures HeapEdges(count) + [Edge(level[k], count)] == HeapEdges(count + 1)
    ensures level + [count] == Ids(count + 1)
  {
    OpenSlotIsParent(root, count, level, ns0, k);
    var ns1 := ns0[level[k] := ns0[level[k]].(children := ns0[level[k]].children + [count])];
    BuiltTreeAttach(root, count, ns0, ns1, ns2);
    HeapEdgesGrow(count);
    IdsGrow(count);
  }

  lemma HeapEdgesGrow(count: nat)
    requires count >= 1
    ensures HeapEdges(count) + [Edge(HeapParent(count), count)] == HeapEdges(count + 1)
  {
  }

  /** b is a with the same values, prime flags, children and parents, node for node. */
  ghost predicate SameTree(a: seq<Node>, b: seq<Node>)
  {
    |a| == |b| &&
    forall j :: 0 <= j < |a| ==>
      b[j].value == a[j].value && b[j].isPrime == a[j].isPrime && b[j].children == a[j].children && b[j].parent == a[j].parent
  }

  /** The layout changes coordinates only: values, prime flags, children and parents stay. */
  lemma ArrangementKeepsTree(ns: seq<Node>, W: real, H: real)
    requires ChildrenAfter(ns) && ns != []
    ensures SameTree(ns, Arrangement(ns, W, H))
  {
    var laid := Arrangement(ns, W, H);
    forall j | 0 <= j < |ns|
      ensures laid[j].value == ns[j].value && laid[j].isPrime == ns[j].isPrime
      ensures laid[j].children == ns[j].children && laid[j].parent == ns[j].parent
    {
      assert laid[j] == ns[j].(x := laid[j].x, y := laid[j].y);
    }
  }

  /** The builder's arena of count consecutive values from root, laid out on a W x H canvas. */
  ghost function LaidOutTree(root: int, count: nat, W: real, H: real): (ns: seq<Node>)
    requires count >= 1
    ensures |ns| == count
  {
    var bt := BuiltTree(root, count);
    HeapShapedArena(bt);
    Arrangement(bt, W, H)
  }

  /** The laid-out arena of count consecutive values from root keeps the values, the prime
      flags and the breadth-first shape of the built tree. */
  lemma ArrangedBuiltTree(root: int, count: nat, W: real, H: real)
    requires count >= 1
    ensures HeapShaped(LaidOutTree(root, count, W, H))
    ensures forall i :: 0 <= i < count ==>
              LaidOutTree(root, count, W, H)[i].value == root + i &&
              LaidOutTree(root, count, W, H)[i].isPrime == Primes.ReportedPrime(root + i)
  {
    var bt := BuiltTree(root, count);
    HeapShapedArena(bt);
    ArrangementKeepsTree(bt, W, H);
    var ns := LaidOutTree(root, count, W, H);
    assert ns == Arrangement(bt, W, H);
    assert SameTree(bt, ns);
    forall i | 0 <= i < count
      ensures ns[i].children == HeapChildren(i, count) && ns[i].parent == (if i == 0 then None else Some(HeapParent(i)))
    {
      assert ns[i].children == bt[i].children && ns[i].parent == bt[i].parent;
    }
  }

  /** The graph generateGraph builds for (start, end, type), laid out on a W x H canvas: one
      node per value from the root to end (the root alone when the root is past end), values
      consecutive from the root, each prime flag the primality test of its value, and the
      breadth-first tree shape. */
  lemma GeneratedGraph(start: int, end: int, kind: string, W: real, H: real)
    ensures var root := ComputeRoot(start, kind);
            var count := if root <= end then end - root + 1 else 1;
            var ns := LaidOutTree(root, count, W, H);
            |ns| == count && HeapShaped(ns) &&
            (forall i :: 0 <= i < count ==> ns[i].value == root + i && ns[i].isPrime == Primes.ReportedPrime(root + i))
  {
    var root := ComputeRoot(start, kind);
    var count := if root <= end then end - root + 1 else 1;
    ArrangedBuiltTree(root, count, W, H);
  }

  class Graph {
    var nodes: seq<Node>
    var edges: seq<Edge>

    constructor ()
      ensures nodes == [] && edges == []
    {
      nodes := [];
      edges := [];
    }

    /** currentLevel.find(n => n.children.length < 2) over the node list ns: the position in
        level of the first node with fewer than two children, or None when every node of level
        has two. */
    static method FindOpen(ns: seq<Node>, level: seq<nat>) returns (r: Option<nat>)
      requires forall k :: 0 <= k < |level| ==> level[k] < |ns|
      ensures r.Some? ==> r.value < |level| && |ns[level[r.value]].children| < 2
      ensures r.Some? ==> forall k :: 0 <= k < r.value ==> |ns[level[k]].children| >= 2
      ensures r.None? ==> forall k :: 0 <= k < |level| ==> |ns[level[k]].children| >= 2
    {
      var k := 0;
      while k < |level|
        invariant 0 <= k <= |level|
        invariant forall m :: 0 <= m < k ==> |ns[level[m]].children| >= 2
      {
        if |ns[level[k]].children| < 2 {
          return Some(k);
        }
        k := k + 1;
      }
      return None;
    }

    /** generateGraph(start, end, type) on a W x H canvas: the nodes and edges of the
        breadth-first tree over the values from the root to end, then arrangeNodes. */
    method GenerateGraph(start: int, end: int, kind: string, W: real, H: real)
      modifies this
      ensures var root := ComputeRoot(start, kind);
              var count := if root <= end then end - root + 1 else 1;
              nodes == LaidOutTree(root, count, W, H) && edges == HeapEdges(count)
    {
      nodes := [];
      edges := [];
      var rootValue := ComputeRoot(start, kind);
      var validNumbers := ValuesUpTo(rootValue, end);

      var rootIsPrime := Primes.IsPrime(rootValue);
      nodes := [Node(rootValue, rootIsPrime, [], None, 0.0, Num(0.0))];
      var currentLevel: seq<nat> := [0];
      var rest := if |validNumbers| > 0 then validNumbers[1..] else [];
      ghost var count := if rootValue <= end then end - rootValue + 1 else 1;
      assert |rest| == count - 1;
      SingleNode(rootValue);
      AddAll(rest, currentLevel, rootValue);
      ghost var built := nodes;
      assert ChildrenAfter(nodes) by {
        HeapShapedArena(nodes);
      }
      ArrangeNodes(W, H);
      assert nodes == LaidOutTree(rootValue, count, W, H) by {
        assert nodes == Arrangement(built, W, H);
      }
    }

    /** validNumbers.slice(1).forEach(...) of generateGraph: AddNumber for each value after
        the root, in order, starting from the root alone with currentLevel [root]. */
    method AddAll(rest: seq<int>, currentLevel: seq<nat>, ghost root: int)
      modifies this
      requires nodes == BuiltTree(root, 1) && edges == HeapEdges(1) && currentLevel == Ids(1)
      requires forall k :: 0 <= k < |rest| ==> rest[k] == root + k + 1
      ensures nodes == BuiltTree(root, |rest| + 1) && edges == HeapEdges(|rest| + 1)
    {
      var level := currentLevel;
      var t := 0;
      while t < |rest|
        invariant 0 <= t <= |rest|
        invariant nodes == BuiltTree(root, t + 1)
        invariant edges == HeapEdges(t + 1)
        invariant level == Ids(t + 1)
      {
        level := AddNumber(rest[t], level, root);
        t := t + 1;
      }
    }

    /** The validNumbers list of generateGraph: the values from lo to hi in increasing order,
        none when hi < lo. */
    static method ValuesUpTo(lo: int, hi: int) returns (vs: seq<int>)
      ensures |vs| == if lo <= hi then hi - lo + 1 else 0
      ensures forall k :: 0 <= k < |vs| ==> vs[k] == lo + k
    {
      vs := [];
      var v := lo;
      while v <= hi
        invariant v == lo || lo < v <= hi + 1
        invariant |vs| == v - lo
        invariant forall k :: 0 <= k < |vs| ==> vs[k] == lo + k
        decreases hi - v
      {
        vs := vs + [v];
        v := v + 1;
      }
    }

    /** The forEach callback of generateGraph for the value num: create its node, find the
        first node of currentLevel with fewer than two children, attach the new node to it with
        an edge, and add the new node to currentLevel. On the arena of the values from root up
        to num - 1 this gives the arena of the values from root up to num. */
    method AddNumber(num: int, currentLevel: seq<nat>, ghost root: int) returns (level: seq<nat>)
      modifies this
      requires |nodes| >= 1 && num == root + |nodes|
      requires nodes == BuiltTree(root, |nodes|) && edges == HeapEdges(|nodes|) && currentLevel == Ids(|nodes|)
      ensures nodes == BuiltTree(root, old(|nodes|) + 1) && edges == HeapEdges(old(|nodes|) + 1)
      ensures level == Ids(old(|nodes|) + 1)
    {
      var isPrime := Primes.IsPrime(num);
      var id: nat := |nodes|;
      var ns := nodes + [Node(num, isPrime, [], None, 0.0, Num(0.0))];
      assert ns == Pushed(root, id);
      var found := FindOpen(ns, currentLevel);
      match found {
        case None =>
          OpenSlotExists(root, id, currentLevel, ns);
          assert false;
          level := currentLevel;
        case Some(k) =>
          var parent := currentLevel[k];
          ghost var pushed := ns;
          ns := ns[parent := ns[parent].(children := ns[parent].children + [id])];
          ns := ns[id := ns[id].(parent := Some(parent))];
          AttachNumber(root, id, currentLevel, k, pushed, ns);
          nodes, edges, level := ns, edges + [Edge(parent, id)], currentLevel + [id];
      }
    }

    /** arrangeNodes: nothing for an empty graph; otherwise y by level, x by the depth-first
        pass with the cursor starting at the left margin, then the horizontal rescale. */
    method ArrangeNodes(W: real, H: real)
      modifies this
      requires ChildrenAfter(nodes)
      ensures edges == old(edges)
      ensures nodes == if old(nodes) == [] then [] else Arrangement(old(nodes), W, H)
    {
      if |nodes| == 0 {
        return;
      }
      var xPos := H_MARGIN;
      var maxDepth := Depth(nodes, 0);
      SetY(0, 0, maxDepth, H);
      OnlyYSameChildren(old(nodes), nodes);
      SameChildrenKeepsOrder(old(nodes), nodes);
      xPos := ArrangeNode(0, xPos);
      ghost var placed := nodes;
      assert placed == Placement(old(nodes), H);
      RescaleNodes(W);
      assert nodes == Rescale(placed, W);
    }

    /** Step 4 of arrangeNodes: every x moved by the same affine map, which takes the smallest
        x to the left margin and, unless all are equal, the largest to the right one. */
    method RescaleNodes(W: real)
      modifies this
      requires nodes != []
      ensures nodes == Rescale(old(nodes), W) && edges == old(edges)
    {
      var minX := MinOf(Xs(nodes));
      var maxX := MaxOf(Xs(nodes));
      var scaleX := ScaleX(minX, maxX, W);
      var j := 0;
      while j < |nodes|
        invariant 0 <= j <= |nodes| == |old(nodes)|
        invariant forall k :: 0 <= k < j ==> nodes[k] == old(nodes)[k].(x := RescaledX(old(nodes)[k].x, minX, scaleX))
        invariant forall k :: j <= k < |nodes| ==> nodes[k] == old(nodes)[k]
        invariant edges == old(edges)
      {
        nodes := nodes[j := nodes[j].(x := RescaledX(nodes[j].x, minX, scaleX))];
        j := j + 1;
      }
    }

    /** setY(node i, level): i's height from its level, then each child's subtree one level
        lower, in order. */
    method SetY(i: nat, level: nat, maxDepth: nat, H: real)
      modifies this
      requires ChildrenAfter(nodes) && i < |nodes|
      ensures nodes == SetYAt(old(nodes), i, level, maxDepth, H)
      ensures edges == old(edges)
      decreases |nodes| - i
    {
      nodes := nodes[i := nodes[i].(y := YAt(level, maxDepth, H))];
      ghost var ns1 := nodes;
      assert OnlyYChanged(old(nodes), ns1);
      OnlyYSameChildren(old(nodes), ns1);
      SameChildrenKeepsOrder(old(nodes), ns1);
      var cs := nodes[i].children;
      var k := 0;
      while k < |cs|
        invariant 0 <= k <= |cs|
        invariant nodes == SetYAll(ns1, i, cs[..k], level + 1, maxDepth, H)
        invariant edges == old(edges)
        decreases |cs| - k
      {
        SetYAllSnoc(ns1, i, cs, k, level + 1, maxDepth, H);
        SetY(cs[k], level + 1, maxDepth, H);
        k := k + 1;
      }
      assert cs[..|cs|] == cs;
    }

    /** arrangeNode(node i) with the running cursor at xPos; returns where it leaves the cursor.
        A leaf takes the cursor's position and moves it on by 60; any other node first arranges
        its children in order, then sits halfway between its first and its last child. */
    method ArrangeNode(i: nat, xPos: real) returns (xNext: real)
      modifies this
      requires ChildrenAfter(nodes) && i < |nodes|
      ensures nodes == ArrangeAt(old(nodes), i, xPos).nodes
      ensures xNext == ArrangeAt(old(nodes), i, xPos).cursor
      ensures edges == old(edges)
      decreases |nodes| - i
    {
      if |nodes[i].children| == 0 {
        nodes := nodes[i := nodes[i].(x := xPos)];
        xNext := xPos + LEAF_SPACING;
      } else {
        var cs := nodes[i].children;
        xNext := xPos;
        var k := 0;
        while k < |cs|
          invariant 0 <= k <= |cs|
          invariant nodes == ArrangeAll(old(nodes), i, cs[..k], xPos).nodes
          invariant xNext == ArrangeAll(old(nodes), i, cs[..k], xPos).cursor
          invariant edges == old(edges)
          decreases |cs| - k
        {
          ArrangeAllSnoc(old(nodes), i, cs, k, xPos);
          xNext := ArrangeNode(cs[k], xNext);
          k := k + 1;
        }
        assert cs[..|cs|] == cs;
        ArrangeAtParent(old(nodes), i, xPos);
        var firstChild := nodes[cs[0]];
        var lastChild := nodes[cs[|cs| - 1]];
        nodes := nodes[i := nodes[i].(x := (firstChild.x + lastChild.x) / 2.0)];
      }
    }
  }
}
