/** What the layout passes of arrangeNodes do on the breadth-first arenas the tree builder
    makes: every node sits at the height of its level, the leaves are 60 apart in depth-first
    order, every parent is centred between its first and its last child, and the rescale keeps
    all of that while stretching the drawing to the margins. */
module LayoutHeap {

  import opened Tree
  import opened Layout

  /** A breadth-first arena as far as the layout is concerned: node i lists HeapChildren(i, n). */
  ghost predicate HeapArena(ns: seq<Node>)
  {
    ChildrenAfter(ns) && forall i :: 0 <= i < |ns| ==> ns[i].children == HeapChildren(i, |ns|)
  }

  lemma HeapShapedArena(ns: seq<Node>)
    requires HeapShaped(ns)
    ensures HeapArena(ns)
  {
    forall i, k | 0 <= i < |ns| && 0 <= k < |ns[i].children|
      ensures i < ns[i].children[k] < |ns|
    {
      HeapChildrenOrdered(i, |ns|);
    }
  }

  lemma SameChildrenKeepsHeap(a: seq<Node>, b: seq<Node>)
    requires HeapArena(a) && SameChildren(a, b)
    ensures HeapArena(b)
  {
    SameChildrenKeepsOrder(a, b);
  }

  /** cs lists, in increasing order, children of p in an arena of n nodes. */
  ghost predicate SiblingList(p: nat, cs: seq<nat>, n: nat)
  {
    (forall k :: 0 <= k < |cs| ==> p < cs[k] < n && cs[k] >= 1 && HeapParent(cs[k]) == p) &&
    (forall a, b :: 0 <= a < b < |cs| ==> cs[a] < cs[b])
  }

  lemma HeapChildrenSiblings(i: nat, n: nat)
    ensures SiblingList(i, HeapChildren(i, n), n)
  {
    HeapChildrenOrdered(i, n);
    forall k | 0 <= k < |HeapChildren(i, n)|
      ensures HeapParent(HeapChildren(i, n)[k]) == i
    {
      HeapChildIffParent(i, HeapChildren(i, n)[k], n);
    }
  }

  lemma SiblingPrefix(p: nat, cs: seq<nat>, n: nat)
    requires SiblingList(p, cs, n) && cs != []
    ensures SiblingList(p, cs[..|cs| - 1], n)
    ensures cs[|cs| - 1] !in cs[..|cs| - 1]
  {
    var init := cs[..|cs| - 1];
    assert forall k :: 0 <= k < |init| ==> init[k] == cs[k];
  }

  // ---------------------------------------------------------------------------------------
  // Subtrees of the breadth-first shape
  // ---------------------------------------------------------------------------------------

  /** Node j lies in the subtree of node i: following parents from j reaches i. */
  predicate InSubtree(i: nat, j: nat)
    decreases j
  {
    j == i || (j > i && InSubtree(i, HeapParent(j)))
  }

  /** The number of edges from i down to j. */
  function Dist(i: nat, j: nat): nat
    requires InSubtree(i, j)
    decreases j
  {
    if j == i then 0 else 1 + Dist(i, HeapParent(j))
  }

  /** The level of node j: the root is at level 0, its children at level 1, and so on. */
  function Level(j: nat): nat
    decreases j
  {
    if j == 0 then 0 else 1 + Level(HeapParent(j))
  }

  lemma {:induction false} RootSubtree(j: nat)
    ensures InSubtree(0, j) && Dist(0, j) == Level(j)
    decreases j
  {
    if j > 0 {
      RootSubtree(HeapParent(j));
    }
  }

  /** The subtree of a child lies in the subtree of its parent, one edge further down. */
  lemma {:induction false} ParentSubtree(c: nat, j: nat)
    ensures c >= 1 && InSubtree(c, j) ==> InSubtree(HeapParent(c), j) && Dist(HeapParent(c), j) == Dist(c, j) + 1
    decreases j
  {
    if c >= 1 && InSubtree(c, j) && j != c {
      ParentSubtree(c, HeapParent(j));
    }
  }

  /** The children of a node of a subtree belong to the subtree. */
  lemma ChildSubtree(a: nat, j: nat, c: nat, n: nat)
    ensures InSubtree(a, j) && c in HeapChildren(j, n) ==> InSubtree(a, c)
  {
    HeapChildIffParent(j, c, n);
  }

  /** Every proper descendant of i comes at or after i's first child. */
  lemma {:induction false} DescendantAfter(i: nat, j: nat)
    ensures InSubtree(i, j) && j != i ==> j >= 2 * i + 1
    decreases j
  {
    if InSubtree(i, j) && j != i && HeapParent(j) != i {
      DescendantAfter(i, HeapParent(j));
    }
  }

  /** A leaf's subtree is the leaf alone. */
  lemma LeafSubtree(i: nat, j: nat, n: nat)
    ensures HeapChildren(i, n) == [] && InSubtree(i, j) && j < n ==> j == i
  {
    DescendantAfter(i, j);
  }

  /** The subtrees of two different siblings share no node. */
  lemma {:induction false} SiblingsDisjoint(a: nat, b: nat, j: nat)
    ensures a >= 1 && b >= 1 && a != b && HeapParent(a) == HeapParent(b) && InSubtree(a, j) ==> !InSubtree(b, j)
    decreases j
  {
    if a >= 1 && b >= 1 && a != b && HeapParent(a) == HeapParent(b) && InSubtree(a, j) && j != a {
      SiblingsDisjoint(a, b, HeapParent(j));
      if j == b {
        DescendantAfter(a, b);
      }
    } else if a >= 1 && b >= 1 && a != b && HeapParent(a) == HeapParent(b) && j == a {
      DescendantAfter(b, a);
    }
  }

  /** A proper descendant j of i lies in the subtree of one of i's children. */
  lemma {:induction false} ChildToward(i: nat, j: nat, n: nat) returns (c: nat)
    requires InSubtree(i, j) && j != i && j < n
    ensures c in HeapChildren(i, n) && InSubtree(c, j) && Dist(i, j) == Dist(c, j) + 1
    decreases j
  {
    if HeapParent(j) == i {
      c := j;
    } else {
      c := ChildToward(i, HeapParent(j), n);
    }
    HeapChildIffParent(i, c, n);
    ParentSubtree(c, j);
  }

  // ---------------------------------------------------------------------------------------
  // getDepth
  // ---------------------------------------------------------------------------------------

  /** getDepth counts the levels of a subtree: every node of it is fewer than Depth edges down
      ... */
  lemma {:induction false} DepthAbove(ns: seq<Node>, i: nat)
    requires HeapArena(ns) && i < |ns|
    ensures forall j :: 0 <= j < |ns| && InSubtree(i, j) ==> Dist(i, j) < Depth(ns, i)
    decreases |ns| - i, 1
  {
    var n := |ns|;
    var cs := ns[i].children;
    if cs == [] {
      forall j | 0 <= j < n && InSubtree(i, j)
        ensures Dist(i, j) < Depth(ns, i)
      {
        LeafSubtree(i, j, n);
      }
    } else {
      HeapChildrenSiblings(i, n);
      MaxDepthAbove(ns, i, cs);
      forall j | 0 <= j < n && InSubtree(i, j)
        ensures Dist(i, j) < Depth(ns, i)
      {
        if j != i {
          var c := ChildToward(i, j, n);
          var k :| 0 <= k < |cs| && cs[k] == c;
        }
      }
    }
  }

  /** ... and some node of it is exactly Depth - 1 edges down. */
  lemma {:induction false} DepthReached(ns: seq<Node>, i: nat) returns (deepest: nat)
    requires HeapArena(ns) && i < |ns|
    ensures deepest < |ns| && InSubtree(i, deepest) && Dist(i, deepest) == Depth(ns, i) - 1
    decreases |ns| - i, 1
  {
    var cs := ns[i].children;
    if cs == [] {
      deepest := i;
    } else {
      HeapChildrenSiblings(i, |ns|);
      var d, m := MaxDepthReached(ns, i, cs);
      ParentSubtree(cs[m], d);
      deepest := d;
    }
  }

  /** Every node below one of the siblings cs is fewer than MaxDepth edges below it ... */
  lemma {:induction false} MaxDepthAbove(ns: seq<Node>, p: nat, cs: seq<nat>)
    requires HeapArena(ns) && p < |ns| && SiblingList(p, cs, |ns|)
    ensures forall j, k :: 0 <= j < |ns| && 0 <= k < |cs| && InSubtree(cs[k], j) ==> Dist(cs[k], j) < MaxDepth(ns, p, cs)
    decreases |ns| - p, 0, |cs|
  {
    if cs != [] {
      var init := cs[..|cs| - 1];
      var last := cs[|cs| - 1];
      SiblingPrefix(p, cs, |ns|);
      DepthAbove(ns, last);
      MaxDepthAbove(ns, p, init);
      forall j, k | 0 <= j < |ns| && 0 <= k < |cs| && InSubtree(cs[k], j)
        ensures Dist(cs[k], j) < MaxDepth(ns, p, cs)
      {
        if k < |cs| - 1 {
          assert cs[k] == init[k];
        }
      }
    }
  }

  /** ... and some node below one of them, the m-th, is exactly MaxDepth - 1 edges below it. */
  lemma {:induction false} MaxDepthReached(ns: seq<Node>, p: nat, cs: seq<nat>) returns (deepest: nat, m: nat)
    requires HeapArena(ns) && p < |ns| && SiblingList(p, cs, |ns|) && cs != []
    ensures m < |cs| && deepest < |ns| && InSubtree(cs[m], deepest) && Dist(cs[m], deepest) == MaxDepth(ns, p, cs) - 1
    decreases |ns| - p, 0, |cs|
  {
    var init := cs[..|cs| - 1];
    var last := cs[|cs| - 1];
    SiblingPrefix(p, cs, |ns|);
    var d2 := DepthReached(ns, last);
    if init == [] || MaxDepth(ns, p, init) < Depth(ns, last) {
      deepest, m := d2, |cs| - 1;
    } else {
      var d1, m1 := MaxDepthReached(ns, p, init);
      deepest, m := d1, m1;
      assert cs[m] == init[m];
    }
  }

  // ---------------------------------------------------------------------------------------
  // setY
  // ---------------------------------------------------------------------------------------

  /** b is a outside the subtree of i. */
  ghost predicate UnchangedOutside(a: seq<Node>, b: seq<Node>, i: nat)
  {
    |b| == |a| && forall j :: 0 <= j < |a| && !InSubtree(i, j) ==> b[j] == a[j]
  }

  /** b is a outside the subtrees of the nodes cs. */
  ghost predicate UnchangedOutsideAll(a: seq<Node>, b: seq<Node>, cs: seq<nat>)
  {
    |b| == |a| && forall j :: 0 <= j < |a| && (forall k :: 0 <= k < |cs| ==> !InSubtree(cs[k], j)) ==> b[j] == a[j]
  }

  /** Every node of i's subtree is at the height of its level, i being at the given level. */
  ghost predicate HeightsBelow(ns: seq<Node>, i: nat, level: nat, md: nat, H: real)
  {
    forall j :: 0 <= j < |ns| && InSubtree(i, j) ==> ns[j].y == YAt(level + Dist(i, j), md, H)
  }

  /** Every node of the subtrees of cs is at the height of its level, the nodes cs being at the
      given level. */
  ghost predicate HeightsBelowAll(ns: seq<Node>, cs: seq<nat>, level: nat, md: nat, H: real)
  {
    forall j, k :: 0 <= j < |ns| && 0 <= k < |cs| && InSubtree(cs[k], j) ==> ns[j].y == YAt(level + Dist(cs[k], j), md, H)
  }

  /** setY(i, level) gives every node of i's subtree the height of its own level and leaves
      every other node alone. */
  lemma {:induction false} SetYAtEffect(ns: seq<Node>, i: nat, level: nat, md: nat, H: real)
    requires HeapArena(ns) && i < |ns|
    ensures UnchangedOutside(ns, SetYAt(ns, i, level, md, H), i)
    ensures HeightsBelow(SetYAt(ns, i, level, md, H), i, level, md, H)
    decreases |ns| - i, 1
  {
    var n := |ns|;
    var ns1 := ns[i := ns[i].(y := YAt(level, md, H))];
    OnlyYSameChildren(ns, ns1);
    SameChildrenKeepsHeap(ns, ns1);
    var cs := ns1[i].children;
    HeapChildrenSiblings(i, n);
    SetYAllEffect(ns1, i, cs, level + 1, md, H);
    var r := SetYAll(ns1, i, cs, level + 1, md, H);
    assert SetYAt(ns, i, level, md, H) == r;
    SetYAtStep(ns, ns1, r, i, cs, level, md, H);
  }

  /** The step of SetYAtEffect: writing i's height, then the children's subtrees, changes
      exactly i's subtree. */
  lemma SetYAtStep(ns: seq<Node>, ns1: seq<Node>, r: seq<Node>, i: nat, cs: seq<nat>, level: nat, md: nat, H: real)
    requires i < |ns| && ns1 == ns[i := ns[i].(y := YAt(level, md, H))]
    requires cs == HeapChildren(i, |ns|) && SiblingList(i, cs, |ns|)
    requires UnchangedOutsideAll(ns1, r, cs) && HeightsBelowAll(r, cs, level + 1, md, H)
    ensures UnchangedOutside(ns, r, i) && HeightsBelow(r, i, level, md, H)
  {
    var n := |ns|;
    forall j | 0 <= j < n
      ensures !InSubtree(i, j) ==> r[j] == ns[j]
      ensures InSubtree(i, j) ==> r[j].y == YAt(level + Dist(i, j), md, H)
    {
      if j == i {
        assert forall k :: 0 <= k < |cs| ==> !InSubtree(cs[k], j);
      } else if InSubtree(i, j) {
        var c := ChildToward(i, j, n);
        var k :| 0 <= k < |cs| && cs[k] == c;
      } else {
        forall k | 0 <= k < |cs|
          ensures !InSubtree(cs[k], j)
        {
          ParentSubtree(cs[k], j);
        }
      }
    }
  }

  /** The forEach of setY over the children cs changes exactly their subtrees. */
  lemma {:induction false} SetYAllEffect(ns: seq<Node>, p: nat, cs: seq<nat>, level: nat, md: nat, H: real)
    requires HeapArena(ns) && p < |ns| && SiblingList(p, cs, |ns|)
    ensures UnchangedOutsideAll(ns, SetYAll(ns, p, cs, level, md, H), cs)
    ensures HeightsBelowAll(SetYAll(ns, p, cs, level, md, H), cs, level, md, H)
    decreases |ns| - p, 0, |cs|
  {
    if cs != [] {
      var n := |ns|;
      var init := cs[..|cs| - 1];
      var last := cs[|cs| - 1];
      SiblingPrefix(p, cs, n);
      SetYAllEffect(ns, p, init, level, md, H);
      var r1 := SetYAll(ns, p, init, level, md, H);
      OnlyYSameChildren(ns, r1);
      SameChildrenKeepsHeap(ns, r1);
      SetYAtEffect(r1, last, level, md, H);
      var r := SetYAt(r1, last, level, md, H);
      assert SetYAll(ns, p, cs, level, md, H) == r;
      assert cs == init + [last];
      SetYAllStep(ns, r1, r, p, cs, init, last, level, md, H);
    } else {
      assert UnchangedOutsideAll(ns, SetYAll(ns, p, cs, level, md, H), cs);
    }
  }

  /** The step of SetYAllEffect: the subtrees of the first children init, then the subtree of
      the last child. */
  lemma SetYAllStep(ns: seq<Node>, r1: seq<Node>, r: seq<Node>, p: nat, cs: seq<nat>, init: seq<nat>, last: nat,
                    level: nat, md: nat, H: real)
    requires SiblingList(p, cs, |ns|) && cs == init + [last]
    requires UnchangedOutsideAll(ns, r1, init) && HeightsBelowAll(r1, init, level, md, H)
    requires UnchangedOutside(r1, r, last) && HeightsBelow(r, last, level, md, H)
    ensures UnchangedOutsideAll(ns, r, cs) && HeightsBelowAll(r, cs, level, md, H)
  {
    var n := |ns|;
    forall j | 0 <= j < n && (forall k :: 0 <= k < |cs| ==> !InSubtree(cs[k], j))
      ensures r[j] == ns[j]
    {
      assert forall k :: 0 <= k < |init| ==> init[k] == cs[k];
      assert last == cs[|cs| - 1];
    }
    forall j, k | 0 <= j < n && 0 <= k < |cs| && InSubtree(cs[k], j)
      ensures r[j].y == YAt(level + Dist(cs[k], j), md, H)
    {
      assert last == cs[|cs| - 1];
      if k < |cs| - 1 {
        assert init[k] == cs[k] && cs[k] < last;
        SiblingsDisjoint(cs[k], last, j);
        assert !InSubtree(last, j);
        assert r[j] == r1[j];
      }
    }
  }

  // ---------------------------------------------------------------------------------------
  // arrangeNode
  // ---------------------------------------------------------------------------------------

  /** The leaves of i's subtree, in the depth-first order arrangeNode visits them. */
  function Leaves(n: nat, i: nat): (ls: seq<nat>)
    requires i < n
    ensures forall k :: 0 <= k < |ls| ==> i <= ls[k] < n
    decreases n - i, 1
  {
    HeapChildrenOrdered(i, n);
    if HeapChildren(i, n) == [] then [i] else LeavesOf(n, i, HeapChildren(i, n))
  }

  function LeavesOf(n: nat, p: nat, cs: seq<nat>): (ls: seq<nat>)
    requires p < n && forall k :: 0 <= k < |cs| ==> p < cs[k] < n
    ensures forall k :: 0 <= k < |ls| ==> p < ls[k] < n
    decreases n - p, 0, |cs|
  {
    if cs == [] then [] else LeavesOf(n, p, cs[..|cs| - 1]) + Leaves(n, cs[|cs| - 1])
  }

  /** The leaves of a subtree are childless nodes of that subtree, and there is at least one. */
  lemma {:induction false} LeavesFacts(n: nat, i: nat)
    requires i < n
    ensures Leaves(n, i) != []
    ensures forall k :: 0 <= k < |Leaves(n, i)| ==>
              Leaves(n, i)[k] < n && InSubtree(i, Leaves(n, i)[k]) && HeapChildren(Leaves(n, i)[k], n) == []
    decreases n - i, 1
  {
    var cs := HeapChildren(i, n);
    if cs != [] {
      HeapChildrenSiblings(i, n);
      LeavesOfFacts(n, i, cs);
      forall k | 0 <= k < |Leaves(n, i)|
        ensures InSubtree(i, Leaves(n, i)[k])
      {
        var l := Leaves(n, i)[k];
        var m :| 0 <= m < |cs| && InSubtree(cs[m], l);
        ParentSubtree(cs[m], l);
      }
    }
  }

  lemma {:induction false} LeavesOfFacts(n: nat, p: nat, cs: seq<nat>)
    requires p < n && SiblingList(p, cs, n)
    ensures cs != [] ==> LeavesOf(n, p, cs) != []
    ensures forall k :: 0 <= k < |LeavesOf(n, p, cs)| ==>
              LeavesOf(n, p, cs)[k] < n && HeapChildren(LeavesOf(n, p, cs)[k], n) == [] &&
              exists m :: 0 <= m < |cs| && InSubtree(cs[m], LeavesOf(n, p, cs)[k])
    ensures forall k, s :: 0 <= k < |LeavesOf(n, p, cs)| && s >= 1 && HeapParent(s) == p && s !in cs ==>
              !InSubtree(s, LeavesOf(n, p, cs)[k])
    decreases n - p, 0, |cs|
  {
    if cs != [] {
      var init := cs[..|cs| - 1];
      var last := cs[|cs| - 1];
      SiblingPrefix(p, cs, n);
      LeavesOfFacts(n, p, init);
      LeavesFacts(n, last);
      var li := LeavesOf(n, p, init);
      var ll := Leaves(n, last);
      var ls := LeavesOf(n, p, cs);
      assert ls == li + ll;
      forall k | 0 <= k < |ls|
        ensures exists m :: 0 <= m < |cs| && InSubtree(cs[m], ls[k])
      {
        if k < |li| {
          var m :| 0 <= m < |init| && InSubtree(init[m], li[k]);
          assert cs[m] == init[m];
        } else {
          assert InSubtree(cs[|cs| - 1], ls[k]);
        }
      }
      forall k, s | 0 <= k < |ls| && s >= 1 && HeapParent(s) == p && s !in cs
        ensures !InSubtree(s, ls[k])
      {
        if k >= |li| {
          SiblingsDisjoint(last, s, ls[k]);
        } else {
          assert s !in init;
        }
      }
    }
  }

  /** Conversely, every childless node of a subtree is one of its leaves. */
  lemma {:induction false} LeavesComplete(n: nat, i: nat)
    requires i < n
    ensures forall j :: 0 <= j < n && InSubtree(i, j) && HeapChildren(j, n) == [] ==> j in Leaves(n, i)
    decreases n - i, 1
  {
    var cs := HeapChildren(i, n);
    if cs == [] {
      forall j | 0 <= j < n && InSubtree(i, j) && HeapChildren(j, n) == []
        ensures j in Leaves(n, i)
      {
        LeafSubtree(i, j, n);
      }
    } else {
      HeapChildrenSiblings(i, n);
      LeavesOfComplete(n, i, cs);
      assert Leaves(n, i) == LeavesOf(n, i, cs);
      forall j | 0 <= j < n && InSubtree(i, j) && HeapChildren(j, n) == []
        ensures j in Leaves(n, i)
      {
        var c := ChildToward(i, j, n);
        var m :| 0 <= m < |cs| && cs[m] == c;
      }
    }
  }

  lemma {:induction false} LeavesOfComplete(n: nat, p: nat, cs: seq<nat>)
    requires p < n && SiblingList(p, cs, n)
    ensures forall j, m :: 0 <= j < n && 0 <= m < |cs| && InSubtree(cs[m], j) && HeapChildren(j, n) == [] ==>
              j in LeavesOf(n, p, cs)
    decreases n - p, 0, |cs|
  {
    if cs != [] {
      var init := cs[..|cs| - 1];
      var last := cs[|cs| - 1];
      SiblingPrefix(p, cs, n);
      LeavesOfComplete(n, p, init);
      LeavesComplete(n, last);
      assert LeavesOf(n, p, cs) == LeavesOf(n, p, init) + Leaves(n, last);
      forall j, m | 0 <= j < n && 0 <= m < |cs| && InSubtree(cs[m], j) && HeapChildren(j, n) == []
        ensures j in LeavesOf(n, p, cs)
      {
        if m < |cs| - 1 {
          assert cs[m] == init[m];
        }
      }
    }
  }

  /** The nodes ls of ns are placed LEAF_SPACING apart from x on, in the order listed. */
  ghost predicate LeafRun(ns: seq<Node>, ls: seq<nat>, x: real)
  {
    forall k :: 0 <= k < |ls| ==> ls[k] < |ns| && ns[ls[k]].x == x + LEAF_SPACING * k as real
  }

  /** arrangeNode(i) with the cursor at x: the k-th leaf of i's subtree goes to x + 60k,
      nothing outside the subtree moves, and the cursor ends 60 past x for every leaf placed. */
  lemma {:induction false} ArrangeAtPlaces(ns: seq<Node>, i: nat, x: real)
    requires HeapArena(ns) && i < |ns|
    ensures ArrangeAt(ns, i, x).cursor == x + LEAF_SPACING * |Leaves(|ns|, i)| as real
    ensures UnchangedOutside(ns, ArrangeAt(ns, i, x).nodes, i)
    ensures LeafRun(ArrangeAt(ns, i, x).nodes, Leaves(|ns|, i), x)
    decreases |ns| - i, 1
  {
    var n := |ns|;
    var cs := ns[i].children;
    var r := ArrangeAt(ns, i, x);
    if cs == [] {
      assert r.nodes == ns[i := ns[i].(x := x)];
      assert Leaves(n, i) == [i];
    } else {
      HeapChildrenSiblings(i, n);
      ArrangeAllPlaces(ns, i, cs, x);
      var p := ArrangeAll(ns, i, cs, x);
      ArrangeAtParent(ns, i, x);
      assert Leaves(n, i) == LeavesOf(n, i, cs);
      ArrangeAtStep(ns, p.nodes, r.nodes, i, cs, LeavesOf(n, i, cs), x);
    }
  }

  /** The step of ArrangeAtPlaces for a node with children: centring i after its children's
      subtrees are placed moves neither a leaf nor anything outside i's subtree. */
  lemma ArrangeAtStep(ns: seq<Node>, pn: seq<Node>, rn: seq<Node>, i: nat, cs: seq<nat>, ls: seq<nat>, x: real)
    requires i < |ns| && |rn| == |pn| && (forall j :: 0 <= j < |pn| && j != i ==> rn[j] == pn[j])
    requires SiblingList(i, cs, |ns|) && UnchangedOutsideAll(ns, pn, cs)
    requires LeafRun(pn, ls, x) && forall k :: 0 <= k < |ls| ==> i < ls[k]
    ensures UnchangedOutside(ns, rn, i) && LeafRun(rn, ls, x)
  {
    forall j | 0 <= j < |ns| && !InSubtree(i, j)
      ensures rn[j] == ns[j]
    {
      forall k | 0 <= k < |cs|
        ensures !InSubtree(cs[k], j)
      {
        ParentSubtree(cs[k], j);
      }
    }
  }

  lemma {:induction false} ArrangeAllPlaces(ns: seq<Node>, p: nat, cs: seq<nat>, x: real)
    requires HeapArena(ns) && p < |ns| && SiblingList(p, cs, |ns|)
    ensures ArrangeAll(ns, p, cs, x).cursor == x + LEAF_SPACING * |LeavesOf(|ns|, p, cs)| as real
    ensures UnchangedOutsideAll(ns, ArrangeAll(ns, p, cs, x).nodes, cs)
    ensures LeafRun(ArrangeAll(ns, p, cs, x).nodes, LeavesOf(|ns|, p, cs), x)
    decreases |ns| - p, 0, |cs|
  {
    if cs != [] {
      var n := |ns|;
      var init := cs[..|cs| - 1];
      var last := cs[|cs| - 1];
      assert SiblingList(p, init, n) && cs == init + [last] by {
        SiblingPrefix(p, cs, n);
      }
      var li := LeavesOf(n, p, init);
      var ll := Leaves(n, last);
      assert LeavesOf(n, p, cs) == li + ll;
      var r1 := ArrangeAll(ns, p, init, x);
      var r := ArrangeAt(r1.nodes, last, r1.cursor);
      assert ArrangeAll(ns, p, cs, x) == r;
      assert r1.cursor == x + LEAF_SPACING * |li| as real && UnchangedOutsideAll(ns, r1.nodes, init) && LeafRun(r1.nodes, li, x) by {
        ArrangeAllPlaces(ns, p, init, x);
      }
      assert HeapArena(r1.nodes) by {
        OnlyXSameChildren(ns, r1.nodes);
        SameChildrenKeepsHeap(ns, r1.nodes);
      }
      assert r.cursor == r1.cursor + LEAF_SPACING * |ll| as real && UnchangedOutside(r1.nodes, r.nodes, last) &&
             LeafRun(r.nodes, ll, r1.cursor) by {
        ArrangeAtPlaces(r1.nodes, last, r1.cursor);
      }
      ArrangeAllStep(ns, r1, r, p, cs, init, last, li, ll, x);
    } else {
      assert UnchangedOutsideAll(ns, ArrangeAll(ns, p, cs, x).nodes, cs);
    }
  }

  /** The step of ArrangeAllPlaces: the last child's subtree is placed where the first
      children's leaves li stopped, and moves nothing outside it, in particular none of li. */
  lemma ArrangeAllStep(ns: seq<Node>, r1: Placed, r: Placed, p: nat, cs: seq<nat>, init: seq<nat>, last: nat,
                       li: seq<nat>, ll: seq<nat>, x: real)
    requires p < |ns| && SiblingList(p, cs, |ns|) && SiblingList(p, init, |ns|) && cs == init + [last]
    requires li == LeavesOf(|ns|, p, init)
    requires r1.cursor == x + LEAF_SPACING * |li| as real && UnchangedOutsideAll(ns, r1.nodes, init) && LeafRun(r1.nodes, li, x)
    requires r.cursor == r1.cursor + LEAF_SPACING * |ll| as real && UnchangedOutside(r1.nodes, r.nodes, last)
    requires LeafRun(r.nodes, ll, r1.cursor)
    ensures r.cursor == x + LEAF_SPACING * |li + ll| as real
    ensures UnchangedOutsideAll(ns, r.nodes, cs) && LeafRun(r.nodes, li + ll, x)
  {
    var n := |ns|;
    forall j | 0 <= j < n && (forall k :: 0 <= k < |cs| ==> !InSubtree(cs[k], j))
      ensures r.nodes[j] == ns[j]
    {
      assert forall k :: 0 <= k < |init| ==> init[k] == cs[k];
      assert last == cs[|cs| - 1];
    }
    assert last !in init && last >= 1 && HeapParent(last) == p by {
      assert last == cs[|cs| - 1];
      assert forall k :: 0 <= k < |init| ==> init[k] == cs[k] && cs[k] < last;
    }
    LeavesOfFacts(n, p, init);
    assert forall k :: 0 <= k < |li| ==> r.nodes[li[k]] == r1.nodes[li[k]];
    LeafRunsJoin(r1.nodes, r.nodes, li, ll, x);
  }

  /** Two runs of leaves placed 60 apart, the second starting where the first one stopped,
      make one run; the second pass does not move the leaves of the first. */
  lemma LeafRunsJoin(a: seq<Node>, b: seq<Node>, li: seq<nat>, ll: seq<nat>, x: real)
    requires |a| == |b| && LeafRun(a, li, x) && LeafRun(b, ll, x + LEAF_SPACING * |li| as real)
    requires forall k :: 0 <= k < |li| ==> b[li[k]] == a[li[k]]
    ensures LeafRun(b, li + ll, x)
  {
    forall k | 0 <= k < |li + ll|
      ensures (li + ll)[k] < |b| && b[(li + ll)[k]].x == x + LEAF_SPACING * k as real
    {
      if k >= |li| {
        assert (li + ll)[k] == ll[k - |li|];
      }
    }
  }

  /** Node j sits halfway between its first and its last child (trivially so for a leaf). */
  ghost predicate Centred(ns: seq<Node>, j: nat)
    requires j < |ns|
  {
    var cs := HeapChildren(j, |ns|);
    cs != [] ==> ns[j].x == (ns[cs[0]].x + ns[cs[|cs| - 1]].x) / 2.0
  }

  /** Every node of i's subtree is centred over its children. */
  ghost predicate CentredBelow(ns: seq<Node>, i: nat)
  {
    forall j :: 0 <= j < |ns| && InSubtree(i, j) ==> Centred(ns, j)
  }

  /** Every node of the subtrees of cs is centred over its children. */
  ghost predicate CentredBelowAll(ns: seq<Node>, cs: seq<nat>)
  {
    forall j, m :: 0 <= j < |ns| && 0 <= m < |cs| && InSubtree(cs[m], j) ==> Centred(ns, j)
  }

  lemma CentredKept(a: seq<Node>, b: seq<Node>, j: nat)
    requires |a| == |b| && j < |a| && Centred(a, j) && b[j].x == a[j].x
    requires forall c :: c in HeapChildren(j, |a|) ==> b[c].x == a[c].x
    ensures Centred(b, j)
  {
  }

  /** After arrangeNode(i) every node of i's subtree is centred over its children. */
  lemma {:induction false} ArrangeAtCentres(ns: seq<Node>, i: nat, x: real)
    requires HeapArena(ns) && i < |ns|
    ensures CentredBelow(ArrangeAt(ns, i, x).nodes, i)
    decreases |ns| - i, 1
  {
    var n := |ns|;
    var cs := ns[i].children;
    var r := ArrangeAt(ns, i, x);
    if cs == [] {
      forall j | 0 <= j < n && InSubtree(i, j)
        ensures Centred(r.nodes, j)
      {
        LeafSubtree(i, j, n);
      }
    } else {
      HeapChildrenSiblings(i, n);
      ArrangeAllCentres(ns, i, cs, x);
      var p := ArrangeAll(ns, i, cs, x);
      ArrangeAtParent(ns, i, x);
      CentresStep(p.nodes, r.nodes, i, cs);
    }
  }

  /** The step of ArrangeAtCentres: i itself is set halfway between its first and its last
      child, and every proper descendant of i was centred by its child's pass. */
  lemma CentresStep(pn: seq<Node>, rn: seq<Node>, i: nat, cs: seq<nat>)
    requires i < |pn| && cs == HeapChildren(i, |pn|) && cs != [] && CentredBelowAll(pn, cs)
    requires rn == pn[i := pn[i].(x := (pn[cs[0]].x + pn[cs[|cs| - 1]].x) / 2.0)]
    ensures CentredBelow(rn, i)
  {
    var n := |pn|;
    HeapChildrenSiblings(i, n);
    forall j | 0 <= j < n && InSubtree(i, j) && j != i
      ensures Centred(rn, j)
    {
      var c := ChildToward(i, j, n);
      var m :| 0 <= m < |cs| && cs[m] == c;
      assert Centred(pn, j);
      HeapChildrenOrdered(j, n);
      CentredKept(pn, rn, j);
    }
  }

  lemma {:induction false} ArrangeAllCentres(ns: seq<Node>, p: nat, cs: seq<nat>, x: real)
    requires HeapArena(ns) && p < |ns| && SiblingList(p, cs, |ns|)
    ensures CentredBelowAll(ArrangeAll(ns, p, cs, x).nodes, cs)
    decreases |ns| - p, 0, |cs|
  {
    if cs != [] {
      var n := |ns|;
      var init := cs[..|cs| - 1];
      var last := cs[|cs| - 1];
      assert SiblingList(p, init, n) by {
        SiblingPrefix(p, cs, n);
      }
      var r1 := ArrangeAll(ns, p, init, x);
      assert CentredBelowAll(r1.nodes, init) by {
        ArrangeAllCentres(ns, p, init, x);
      }
      assert HeapArena(r1.nodes) by {
        OnlyXSameChildren(ns, r1.nodes);
        SameChildrenKeepsHeap(ns, r1.nodes);
      }
      var r := ArrangeAt(r1.nodes, last, r1.cursor);
      assert CentredBelow(r.nodes, last) by {
        ArrangeAtCentres(r1.nodes, last, r1.cursor);
      }
      assert UnchangedOutside(r1.nodes, r.nodes, last) by {
        ArrangeAtPlaces(r1.nodes, last, r1.cursor);
      }
      assert ArrangeAll(ns, p, cs, x) == r;
      assert cs == init + [last];
      CentresAllStep(r1.nodes, r.nodes, p, cs, init, last);
    }
  }

  /** The step of ArrangeAllCentres: placing the last child's subtree leaves the subtrees of
      the first children, and so their centring, alone. */
  lemma CentresAllStep(r1: seq<Node>, r: seq<Node>, p: nat, cs: seq<nat>, init: seq<nat>, last: nat)
    requires SiblingList(p, cs, |r1|) && cs == init + [last]
    requires CentredBelowAll(r1, init) && UnchangedOutside(r1, r, last) && CentredBelow(r, last)
    ensures CentredBelowAll(r, cs)
  {
    var n := |r1|;
    assert last == cs[|cs| - 1];
    forall j, m | 0 <= j < n && 0 <= m < |cs| - 1 && InSubtree(cs[m], j)
      ensures Centred(r, j)
    {
      assert init[m] == cs[m] && cs[m] < last;
      assert Centred(r1, j);
      HeapChildrenOrdered(j, n);
      SiblingsDisjoint(cs[m], last, j);
      forall c | c in HeapChildren(j, n)
        ensures r[c].x == r1[c].x
      {
        ChildSubtree(cs[m], j, c, n);
        SiblingsDisjoint(cs[m], last, c);
      }
      CentredKept(r1, r, j);
    }
  }

  // ---------------------------------------------------------------------------------------
  // Rescale
  // ---------------------------------------------------------------------------------------

  lemma RealMulMonotone(a: real, b: real, c: real)
    requires a <= b && 0.0 <= c
    ensures a * c <= b * c
  {
    assert b * c - a * c == (b - a) * c;
  }

  lemma ScaledWithin(t: real, span: real, w: real)
    requires 0.0 <= t <= span && 0.0 < span && 0.0 <= w
    ensures 0.0 <= t * (w / span) <= w
  {
    var s := w / span;
    assert s >= 0.0;
    assert span * s == w;
    assert t * s <= span * s;
  }

  /** What Rescale does to one node, with the minimum and the scale taken over the arena. */
  lemma RescaleAt(ns: seq<Node>, W: real, j: nat)
    requires j < |ns|
    ensures Rescale(ns, W)[j].x == RescaledX(ns[j].x, MinOf(Xs(ns)), ScaleX(MinOf(Xs(ns)), MaxOf(Xs(ns)), W))
  {
  }

  lemma RescaledBetween(x: real, minX: real, maxX: real, W: real)
    requires minX <= x <= maxX && minX < maxX && W >= 2.0 * H_MARGIN
    ensures H_MARGIN <= RescaledX(x, minX, ScaleX(minX, maxX, W)) <= W - H_MARGIN
  {
    ScaledWithin(x - minX, maxX - minX, W - 2.0 * H_MARGIN);
    assert ScaleX(minX, maxX, W) == (W - 2.0 * H_MARGIN) / (maxX - minX);
  }

  /** With W >= 100 the rescale puts every node between the margins. */
  lemma RescaleWithin(ns: seq<Node>, W: real, j: nat)
    requires j < |ns| && W >= 2.0 * H_MARGIN
    ensures H_MARGIN <= Rescale(ns, W)[j].x <= W - H_MARGIN
  {
    var xs := Xs(ns);
    var minX := MinOf(xs);
    var maxX := MaxOf(xs);
    RescaleAt(ns, W, j);
    assert minX <= xs[j] <= maxX;
    if minX < maxX {
      RescaledBetween(ns[j].x, minX, maxX, W);
    } else {
      assert xs[j] == minX;
    }
  }

  /** The leftmost node goes to the left margin and, unless every node had the same x, the
      rightmost one to the right margin; if every node had the same x, all go to the left one. */
  lemma RescaleReachesMargins(ns: seq<Node>, W: real)
    requires ns != []
    ensures exists j :: 0 <= j < |ns| && Rescale(ns, W)[j].x == H_MARGIN
    ensures (exists a :: 0 <= a < |ns| && ns[a].x != ns[0].x) ==> exists j :: 0 <= j < |ns| && Rescale(ns, W)[j].x == W - H_MARGIN
    ensures (forall a :: 0 <= a < |ns| ==> ns[a].x == ns[0].x) ==> forall j :: 0 <= j < |ns| ==> Rescale(ns, W)[j].x == H_MARGIN
  {
    var xs := Xs(ns);
    var minX := MinOf(xs);
    var maxX := MaxOf(xs);
    var lo :| 0 <= lo < |xs| && xs[lo] == minX;
    var hi :| 0 <= hi < |xs| && xs[hi] == maxX;
    RescaleAt(ns, W, lo);
    if minX < maxX {
      Layout.RescaleEnds(minX, maxX, W);
      RescaleAt(ns, W, hi);
    } else {
      forall j | 0 <= j < |ns|
        ensures Rescale(ns, W)[j].x == H_MARGIN
      {
        assert xs[j] == minX;
        RescaleAt(ns, W, j);
      }
    }
  }

  /** With W > 100 the rescale keeps every strict left-to-right order between two nodes. */
  lemma RescaleMonotone(ns: seq<Node>, W: real, a: nat, b: nat)
    requires a < |ns| && b < |ns| && W > 2.0 * H_MARGIN
    ensures ns[a].x < ns[b].x <==> Rescale(ns, W)[a].x < Rescale(ns, W)[b].x
  {
    var xs := Xs(ns);
    var minX := MinOf(xs);
    var maxX := MaxOf(xs);
    if minX < maxX {
      RescaleKeepsOrder(ns[a].x, ns[b].x, minX, maxX, W);
    } else {
      assert ns[a].x == minX && ns[b].x == minX;
    }
  }

  /** A parent centred over its children stays centred after the rescale. */
  lemma RescaleCentres(ns: seq<Node>, W: real, j: nat)
    requires j < |ns| && Centred(ns, j)
    ensures Centred(Rescale(ns, W), j)
  {
    var xs := Xs(ns);
    var minX := MinOf(xs);
    var s := ScaleX(minX, MaxOf(xs), W);
    var cs := HeapChildren(j, |ns|);
    if cs != [] {
      RescaleKeepsMidpoint(ns[cs[0]].x, ns[cs[|cs| - 1]].x, minX, s);
    }
  }

  // ---------------------------------------------------------------------------------------
  // The whole layout
  // ---------------------------------------------------------------------------------------

  /** The vertical pass on a breadth-first arena: every node is at the height of its level, the
      levels run from 0 up to Depth - 1 and the deepest one is occupied, and Depth is 1 only for
      a single node. */
  lemma LayoutLevels(ns: seq<Node>, W: real, H: real)
    requires HeapArena(ns) && ns != []
    ensures forall j :: 0 <= j < |ns| ==> Arrangement(ns, W, H)[j].y == YAt(Level(j), Depth(ns, 0), H)
    ensures forall j :: 0 <= j < |ns| ==> Level(j) < Depth(ns, 0)
    ensures exists j :: 0 <= j < |ns| && Level(j) == Depth(ns, 0) - 1
    ensures Depth(ns, 0) == 1 <==> |ns| == 1
  {
    var md := Depth(ns, 0);
    var withY := SetYAt(ns, 0, 0, md, H);
    assert forall j :: 0 <= j < |ns| ==> withY[j].y == YAt(Level(j), md, H) by {
      SetYAtEffect(ns, 0, 0, md, H);
      forall j | 0 <= j < |ns|
        ensures InSubtree(0, j) && Dist(0, j) == Level(j)
      {
        RootSubtree(j);
      }
    }
    LevelsBelowDepth(ns);
    ArrangementKeepsHeights(ns, W, H);
  }

  /** Every level of a breadth-first arena is above Depth, the deepest one is occupied, and
      Depth is 1 only for a single node. */
  lemma LevelsBelowDepth(ns: seq<Node>)
    requires HeapArena(ns) && ns != []
    ensures forall j :: 0 <= j < |ns| ==> Level(j) < Depth(ns, 0)
    ensures exists j :: 0 <= j < |ns| && Level(j) == Depth(ns, 0) - 1
    ensures Depth(ns, 0) == 1 <==> |ns| == 1
  {
    DepthAbove(ns, 0);
    var d := DepthReached(ns, 0);
    forall j | 0 <= j < |ns|
      ensures InSubtree(0, j) && Dist(0, j) == Level(j)
    {
      RootSubtree(j);
    }
    if |ns| > 1 {
      assert ns[0].children == HeapChildren(0, |ns|);
    }
  }

  /** The horizontal passes leave every height as setY gave it. */
  lemma ArrangementKeepsHeights(ns: seq<Node>, W: real, H: real)
    requires ChildrenAfter(ns) && ns != []
    ensures var withY := SetYAt(ns, 0, 0, Depth(ns, 0), H);
            forall j :: 0 <= j < |ns| ==> Arrangement(ns, W, H)[j].y == withY[j].y
  {
    var withY := SetYAt(ns, 0, 0, Depth(ns, 0), H);
    OnlyYSameChildren(ns, withY);
    SameChildrenKeepsOrder(ns, withY);
    var placed := ArrangeAt(withY, 0, H_MARGIN).nodes;
    assert Placement(ns, H) == placed;
    var laid := Arrangement(ns, W, H);
    assert laid == Rescale(placed, W);
    forall j | 0 <= j < |ns|
      ensures laid[j].y == withY[j].y
    {
      assert placed[j] == withY[j].(x := placed[j].x);
      assert laid[j] == placed[j].(x := laid[j].x);
    }
  }

  /** The heights setY gives: with two levels or more the root is on the top margin, the
      deepest level on the bottom margin, every level in between, and, when H > 100, a deeper
      level is strictly lower. */
  lemma LevelHeights(a: nat, b: nat, md: nat, H: real)
    requires 2 <= md && a < md && b < md
    ensures YAt(a, md, H).Num? && YAt(b, md, H).Num?
    ensures a == 0 ==> YAt(a, md, H).value == V_MARGIN
    ensures a == md - 1 ==> YAt(a, md, H).value == H - V_MARGIN
    ensures H >= 2.0 * V_MARGIN ==> V_MARGIN <= YAt(a, md, H).value <= H - V_MARGIN
    ensures H > 2.0 * V_MARGIN ==> (a < b <==> YAt(a, md, H).value < YAt(b, md, H).value)
  {
    var step := (H - 2.0 * V_MARGIN) / (md as real - 1.0);
    assert (md as real - 1.0) * step == H - 2.0 * V_MARGIN;
    if H >= 2.0 * V_MARGIN {
      assert step >= 0.0;
      RealMulMonotone(0.0, a as real, step);
      RealMulMonotone(a as real, md as real - 1.0, step);
    }
    if H > 2.0 * V_MARGIN {
      assert step > 0.0;
      assert YAt(b, md, H).value - YAt(a, md, H).value == (b as real - a as real) * step;
    }
  }

  /** arrangeNodes on the arena the builder makes, vertically, for a single node: the
      division by maxDepth - 1 = 0 leaves it at NaN. */
  lemma LayoutSingleNode(ns: seq<Node>, W: real, H: real)
    requires HeapArena(ns) && |ns| == 1
    ensures Arrangement(ns, W, H)[0].y == NaN
  {
    LayoutLevels(ns, W, H);
  }

  /** arrangeNodes on the arena the builder makes, vertically, with two nodes or more: the
      root is on the top margin and some node, of the deepest level, on the bottom margin. */
  lemma LayoutMargins(ns: seq<Node>, W: real, H: real)
    requires HeapArena(ns) && |ns| >= 2
    ensures Arrangement(ns, W, H)[0].y == Num(V_MARGIN)
    ensures exists j :: 0 <= j < |ns| && Arrangement(ns, W, H)[j].y == Num(H - V_MARGIN)
  {
    LayoutLevels(ns, W, H);
    var md := Depth(ns, 0);
    LevelHeights(0, 0, md, H);
    var d :| 0 <= d < |ns| && Level(d) == md - 1;
    LevelHeights(Level(d), 0, md, H);
  }

  /** arrangeNodes on the arena the builder makes, vertically, for two nodes a and b: on one
      level they share one height; with two nodes or more and H > 100 the one on the deeper
      level is strictly lower. */
  lemma LayoutLevelOrder(ns: seq<Node>, W: real, H: real, a: nat, b: nat)
    requires HeapArena(ns) && a < |ns| && b < |ns|
    ensures Level(a) == Level(b) ==> Arrangement(ns, W, H)[a].y == Arrangement(ns, W, H)[b].y
    ensures |ns| >= 2 && H > 2.0 * V_MARGIN && Level(a) < Level(b) ==>
              Arrangement(ns, W, H)[a].y.Num? && Arrangement(ns, W, H)[b].y.Num? &&
              Arrangement(ns, W, H)[a].y.value < Arrangement(ns, W, H)[b].y.value
  {
    LayoutLevels(ns, W, H);
    if |ns| >= 2 {
      LevelHeights(Level(a), Level(b), Depth(ns, 0), H);
    }
  }

  /** The horizontal pass before the rescale: in depth-first order the k-th leaf is at
      50 + 60k, and every node is centred over its first and its last child. */
  lemma PlacementHorizontal(ns: seq<Node>, H: real)
    requires HeapArena(ns) && ns != []
    ensures forall k :: 0 <= k < |Leaves(|ns|, 0)| ==> Placement(ns, H)[Leaves(|ns|, 0)[k]].x == H_MARGIN + LEAF_SPACING * k as real
    ensures forall j :: 0 <= j < |ns| ==> Centred(Placement(ns, H), j)
  {
    var withY := SetYAt(ns, 0, 0, Depth(ns, 0), H);
    OnlyYSameChildren(ns, withY);
    SameChildrenKeepsHeap(ns, withY);
    ArrangeAtPlaces(withY, 0, H_MARGIN);
    ArrangeAtCentres(withY, 0, H_MARGIN);
    assert Placement(ns, H) == ArrangeAt(withY, 0, H_MARGIN).nodes;
    forall j | 0 <= j < |ns|
      ensures InSubtree(0, j)
    {
      RootSubtree(j);
    }
  }

  /** The leaves that arrangeNode places in depth-first order are exactly the nodes without
      children: none is missed and none has a child. */
  lemma LeavesAreChildless(ns: seq<Node>)
    requires HeapArena(ns) && ns != []
    ensures forall j :: 0 <= j < |ns| ==> (ns[j].children == [] <==> j in Leaves(|ns|, 0))
  {
    LeavesFacts(|ns|, 0);
    LeavesComplete(|ns|, 0);
    forall j | 0 <= j < |ns|
      ensures InSubtree(0, j)
    {
      RootSubtree(j);
    }
  }

  /** After arrangeNodes every node is centred over its first and its last child. */
  lemma LayoutCentred(ns: seq<Node>, W: real, H: real)
    requires HeapArena(ns) && ns != []
    ensures forall j :: 0 <= j < |ns| ==> Centred(Arrangement(ns, W, H), j)
  {
    var placed := Placement(ns, H);
    assert Arrangement(ns, W, H) == Rescale(placed, W);
    assert forall j :: 0 <= j < |ns| ==> Centred(placed, j) by {
      PlacementHorizontal(ns, H);
    }
    forall j | 0 <= j < |ns|
      ensures Centred(Arrangement(ns, W, H), j)
    {
      RescaleCentres(placed, W, j);
    }
  }

  /** After arrangeNodes, with W >= 100, every node lies between the margins and some node is
      on the left one; with two leaves or more some node is on the right one. */
  lemma LayoutWithinMargins(ns: seq<Node>, W: real, H: real)
    requires HeapArena(ns) && ns != [] && W >= 2.0 * H_MARGIN
    ensures forall j :: 0 <= j < |ns| ==> H_MARGIN <= Arrangement(ns, W, H)[j].x <= W - H_MARGIN
    ensures exists j :: 0 <= j < |ns| && Arrangement(ns, W, H)[j].x == H_MARGIN
    ensures |Leaves(|ns|, 0)| >= 2 ==> exists j :: 0 <= j < |ns| && Arrangement(ns, W, H)[j].x == W - H_MARGIN
  {
    var placed := Placement(ns, H);
    var ls := Leaves(|ns|, 0);
    var laid := Arrangement(ns, W, H);
    assert laid == Rescale(placed, W);
    forall j | 0 <= j < |ns|
      ensures H_MARGIN <= laid[j].x <= W - H_MARGIN
    {
      RescaleWithin(placed, W, j);
    }
    if |ls| >= 2 {
      assert exists a :: 0 <= a < |ns| && placed[a].x != placed[0].x by {
        assert LeafRun(placed, ls, H_MARGIN) by {
          PlacementHorizontal(ns, H);
        }
        assert placed[ls[1]].x != placed[ls[0]].x;
        if placed[ls[0]].x == placed[0].x {
          assert placed[ls[1]].x != placed[0].x;
        }
      }
    }
    RescaleReachesMargins(placed, W);
  }

  /** After arrangeNodes, with W > 100, the leaves run strictly left to right in depth-first
      order. */
  lemma LayoutLeavesOrdered(ns: seq<Node>, W: real, H: real)
    requires HeapArena(ns) && ns != [] && W > 2.0 * H_MARGIN
    ensures forall a, b :: 0 <= a < b < |Leaves(|ns|, 0)| ==>
              Arrangement(ns, W, H)[Leaves(|ns|, 0)[a]].x < Arrangement(ns, W, H)[Leaves(|ns|, 0)[b]].x
  {
    var placed := Placement(ns, H);
    var ls := Leaves(|ns|, 0);
    assert Arrangement(ns, W, H) == Rescale(placed, W);
    assert LeafRun(placed, ls, H_MARGIN) by {
      PlacementHorizontal(ns, H);
    }
    forall a, b | 0 <= a < b < |ls|
      ensures Rescale(placed, W)[ls[a]].x < Rescale(placed, W)[ls[b]].x
    {
      RescaleMonotone(placed, W, ls[a], ls[b]);
    }
  }
}
