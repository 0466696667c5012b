/** The tree builder's values: the root policy, the node arena and its edges, and the
    breadth-first ("heap") shape that filling each new node into the first open slot produces. */
module Tree {

  import opened Wrappers
  import Primes

  /** Lower-cases one character if it is an upper-case ASCII letter. */
  function LowerChar(c: char): (d: char)
    ensures 'A' <= c <= 'Z' ==> 'a' <= d <= 'z' && d as int == c as int + 32
    ensures !('A' <= c <= 'Z') ==> d == c
    ensures !('A' <= d <= 'Z')
  {
    if 'A' <= c <= 'Z' then (c as int + 32) as char else c
  }

  /** Lower-cases the ASCII letters and leaves every other character alone. Compared against
      "zero", "odd" and "even", this gives the same answer as JavaScript's toLowerCase: no
      character outside ASCII lower-cases to any of the letters of those words. */
  function LowerAscii(s: string): (r: string)
    ensures |r| == |s|
    ensures forall k :: 0 <= k < |s| ==> r[k] == LowerChar(s[k])
    ensures forall k :: 0 <= k < |r| ==> !('A' <= r[k] <= 'Z')
  {
    if s == [] then []
    else
      var rest := LowerAscii(s[1..]);
      assert forall k :: 1 <= k < |s| ==> ([LowerChar(s[0])] + rest)[k] == rest[k - 1];
      [LowerChar(s[0])] + rest
  }

  /** computeRoot: "odd" moves an even start up by one, "even" moves an odd start up by one,
      "zero" and every other type keep the start. */
  function ComputeRoot(start: int, kind: string): (r: int)
    ensures r == start || r == start + 1
    ensures LowerAscii(kind) == "odd" ==> r % 2 == 1
    ensures LowerAscii(kind) == "even" ==> r % 2 == 0
    ensures LowerAscii(kind) != "odd" && LowerAscii(kind) != "even" ==> r == start
  {
    var t := LowerAscii(kind);
    if t == "zero" then start
    else if t == "odd" then (if start % 2 == 0 then start + 1 else start)
    else if t == "even" then (if start % 2 == 0 then start else start + 1)
    else start
  }

  /** A coordinate that may be JavaScript's NaN, which the vertical placement of a
      one-node tree produces. */
  datatype Coord = Num(value: real) | NaN

  /** A node of the arena: children and parent are ids, that is positions in the node list. */
  datatype Node = Node(value: int, isPrime: bool, children: seq<nat>, parent: Option<nat>, x: real, y: Coord)

  /** An edge from the parent's id to the child's id. */
  datatype Edge = Edge(from: nat, to: nat)

  /** The children that breadth-first filling gives node i of a tree of n nodes. */
  function HeapChildren(i: nat, n: nat): seq<nat>
  {
    if 2 * i + 1 >= n then [] else if 2 * i + 2 >= n then [2 * i + 1] else [2 * i + 1, 2 * i + 2]
  }

  /** The parent that breadth-first filling gives node i >= 1. */
  function HeapParent(i: nat): nat
    requires i >= 1
  {
    (i - 1) / 2
  }

  /** At most two children, listed in the order they were added, each one after its parent. */
  lemma HeapChildrenOrdered(i: nat, n: nat)
    ensures |HeapChildren(i, n)| <= 2
    ensures forall a, b :: 0 <= a < b < |HeapChildren(i, n)| ==> HeapChildren(i, n)[a] < HeapChildren(i, n)[b]
    ensures forall a :: 0 <= a < |HeapChildren(i, n)| ==> i < HeapChildren(i, n)[a] < n
  {
  }

  /** c is listed among the children of p exactly when p is the parent of c. */
  lemma {:induction false} HeapChildIffParent(p: nat, c: nat, n: nat)
    ensures c in HeapChildren(p, n) <==> 1 <= c < n && HeapParent(c) == p
  {
    if 1 <= c && HeapParent(c) == p {
      assert c == 2 * p + 1 || c == 2 * p + 2;
    }
  }

  /** The arena has the breadth-first shape: node i lists HeapChildren(i, n) and points to
      HeapParent(i), and the root has no parent. */
  ghost predicate HeapShaped(ns: seq<Node>)
  {
    forall i :: 0 <= i < |ns| ==>
      ns[i].children == HeapChildren(i, |ns|) &&
      ns[i].parent == (if i == 0 then None else Some(HeapParent(i)))
  }

  /** The arena the builder produces for count consecutive values from root, before layout. */
  ghost function BuiltTree(root: int, count: nat): (ns: seq<Node>)
    ensures |ns| == count && HeapShaped(ns)
    ensures forall i :: 0 <= i < count ==> ns[i].value == root + i && ns[i].isPrime == Primes.ReportedPrime(root + i)
  {
    seq(count, i requires 0 <= i < count =>
      Node(root + i, Primes.ReportedPrime(root + i), HeapChildren(i, count),
           if i == 0 then None else Some(HeapParent(i)), 0.0, Num(0.0)))
  }

  /** The edges the builder produces, one per non-root node, in creation order. */
  function HeapEdges(count: nat): (es: seq<Edge>)
    ensures |es| == if count == 0 then 0 else count - 1
    ensures forall k :: 0 <= k < |es| ==> es[k].to == k + 1 && es[k].from == HeapParent(k + 1)
  {
    if count <= 1 then [] else seq(count - 1, k requires 0 <= k < count - 1 => Edge(HeapParent(k + 1), k + 1))
  }

  /** In a breadth-first arena no node has more than two children, the root has no parent, and
      every other node has exactly one parent, which lists it as a child. */
  lemma HeapShapedIsTree(ns: seq<Node>)
    requires HeapShaped(ns)
    ensures forall i :: 0 <= i < |ns| ==> |ns[i].children| <= 2
    ensures |ns| > 0 ==> ns[0].parent == None
    ensures forall c :: 1 <= c < |ns| ==> ns[c].parent.Some? && ns[c].parent.value < c && c in ns[ns[c].parent.value].children
    ensures forall c, p :: 0 <= c < |ns| && 0 <= p < |ns| && c in ns[p].children ==> ns[c].parent == Some(p)
  {
    forall i | 0 <= i < |ns|
      ensures |ns[i].children| <= 2
    {
      HeapChildrenOrdered(i, |ns|);
    }
    forall c, p | 0 <= c < |ns| && 0 <= p < |ns|
      ensures c in ns[p].children <==> c >= 1 && ns[c].parent == Some(p)
    {
      HeapChildIffParent(p, c, |ns|);
    }
  }

  /** The values of the built tree: consecutive, hence distinct and ascending, and each node's
      prime flag is the primality test on its value. */
  lemma BuiltTreeValues(root: int, count: nat)
    ensures forall i, j :: 0 <= i < j < count ==> BuiltTree(root, count)[i].value < BuiltTree(root, count)[j].value
    ensures count > 0 ==> BuiltTree(root, count)[0].value == root && BuiltTree(root, count)[count - 1].value == root + count - 1
  {
  }
}
