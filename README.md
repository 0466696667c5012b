# Prime tree visualiser — a Dafny model of its core

The application reads a range `start .. end` and a root policy (`zero`, `odd` or `even`). It
builds a binary tree of the consecutive integers from the root value up to `end`, filling it
breadth first. Each node is flagged with whether its value is prime. The tree is then laid out
on a canvas: each level gets its own height, the leaves are spaced left to right, every parent
is centred over its children, and the result is stretched to the canvas width. The user can
zoom with buttons or with the mouse wheel; the wheel keeps the point under the cursor fixed. A
separate prime utility module provides the same primality test, a memo cache filled over a
range, and factorisation into prime powers.

The model, file by file:

- `primes.dfy` (module `Primes`) covers `isPrime` / `_isPrime`, the `primeCache` map and its
  two operations, and `getPrimesFactors`. The cache is a class whose `map` field is updated
  in place. The trial-division loops are methods proved against the ghost predicate
  `ReportedPrime`, and `ReportedPrime` is related to textbook primality by a lemma.
- `tree.dfy` (module `Tree`) covers `computeRoot`, the node and edge records, and the
  breadth-first ("heap") shape of the tree. In that shape node `i` has children `2i+1` and
  `2i+2`, and node `i ≥ 1` has parent `(i-1)/2`.
- `layout.dfy` (module `Layout`) states the four steps of `arrangeNodes` as functions over the
  node list: `getDepth`, `setY`, `arrangeNode`, and the rescale. Nodes refer to one another
  by their position in the node list.
- `layout_heap.dfy` (module `LayoutHeap`) proves what those steps do on the tree the builder
  makes: which height each level gets, where the leaves go, that parents are centred, and
  where the margins are.
- `graph.dfy` (module `Graph`) holds the graph object. Its node and edge lists are rebuilt
  by `generateGraph` and rewritten by `arrangeNodes`, with a recursive `setY` and
  `arrangeNode`. Each method is proved to produce exactly what the functions above describe.
- `view.dfy` (module `View`) holds the view transform: `zoom`, `panX`, `panY` and the
  manual-transform flag. It covers `zoomIn`, `zoomOut` and the wheel handler.
- `arith.dfy` and `wrappers.dfy` are small helpers: non-linear integer steps, and `Option`.

Behaviours of the code that the model keeps on purpose:

- `isPrime(1)` is `true` in both copies of the test (`app.js:24`, `src/core/prime-utils.js:4`).
- `generateGraph` raises no error when the root is past `end`. It builds a single root node
  (`app.js:49-65`).
- A one-node tree is placed at `y = NaN`, because `setY` divides by `maxDepth - 1 = 0`. The
  model represents this with `Coord.NaN`.
- Negative inputs to `getPrimesFactors` have their twos divided out. Nothing else happens
  after that: `i <= Math.sqrt(n)` is false for a negative `n`, and so is `n > 2`.

## Model

| member | source | states |
|---|---|---|
| Primes.IsPrime | src/core/prime-utils.js:3-8 | the trial-division loop answers exactly ReportedPrime(num): below 2 only 1 is reported prime, otherwise no i ≥ 2 with i·i ≤ num divides num |
| Primes.ReportedPrimeIsPrimality | app.js:23-29 | the reported answer is true exactly for 1 and for the primes (no divisor strictly between 1 and n), so testing only up to the square root loses nothing |
| Primes.PrimeCache.PrecomputePrimes | src/core/prime-utils.js:10-14 | afterwards every key in start..end is cached; keys already cached keep their value; every new key lies in the range and holds the primality answer; a consistent cache stays consistent |
| Primes.PrimeCache.CheckIsPrime | src/core/prime-utils.js:16-18 | an uncached number answers false; on a consistent cache the answer is true exactly when n is cached and reported prime |
| Primes.DivideOutAll | src/core/prime-utils.js:36-39 | dividing d out as often as it goes: d^power · rest == m, d does not divide rest, power is 0 exactly when d does not divide m, and rest keeps the sign of m |
| Primes.OddTrials | src/core/prime-utils.js:45-55 | the odd loop keeps its invariant: the factors so far times what is left is n, what is left has no divisor below i, the factors are increasing primes below i with positive powers, 2 first exactly when n is even; it stops with i·i above what is left, and does nothing when what is left is negative |
| Primes.GetPrimesFactors | src/core/prime-utils.js:23-63 | 0 and 1 give [{0,1}] and [{1,1}]; for n ≥ 2 the product of the powers is n, every value is a prime with a positive power, values strictly increase, 2 comes first exactly when n is even, later values are odd, and only the last value may exceed √n (with power 1); for negative n at most a single factor 2, present exactly when n is even |
| Tree.ComputeRoot | app.js:32-41 | the root is start or start+1; "odd" (any letter case) gives an odd root, "even" an even one, and any other type keeps start |
| Tree.HeapEdges | app.js:72-77 | one edge per non-root node, in creation order: the k-th edge runs from the breadth-first parent of node k+1 to node k+1; Graph.AttachNumber, Graph.Graph.AddNumber and Graph.Graph.GenerateGraph prove that the builder pushes exactly these edges |
| Tree.HeapChildIffParent | app.js:72-75 | c is listed among p's children exactly when p is c's parent |
| Tree.HeapShapedIsTree | app.js:66-81 | in the built tree no node has more than two children, the root has no parent, every other node has exactly one parent that comes before it and lists it as a child, and a listed child points back to its parent |
| Tree.LowerChar | app.js:33-37 | one character of toLowerCase on ASCII letters: an upper-case letter becomes the lower-case letter 32 code points above it, any other character is kept, and the result is never an upper-case ASCII letter |
| Tree.LowerAscii | app.js:33-37 | toLowerCase on the ASCII letters of the type string: same length, each character lower-cased by LowerChar, so no upper-case ASCII letter remains |
| Tree.BuiltTree | app.js:55-81 | the tree the builder makes for count values: count nodes in breadth-first shape (children 2i+1 and 2i+2 where they exist, parent (i-1)/2), node i holding root+i and the primality answer for it |
| Tree.BuiltTreeValues | app.js:49-70 | the node values run consecutively from the root value to root+count-1, strictly increasing |
| Graph.Graph.FindOpen | app.js:72 | currentLevel.find: the first position whose node has fewer than two children, or None exactly when every node has two |
| Graph.Graph.ValuesUpTo | app.js:47-53 | validNumbers holds lo, lo+1, …, hi in order, and is empty when hi < lo |
| Graph.AttachNumber | app.js:68-82 | the first node of currentLevel with fewer than two children is the breadth-first parent of the new node, and attaching the new node to it gives the tree, the edges and the currentLevel of one more value |
| Graph.Graph.AddAll | app.js:64-82 | starting from the root alone, the forEach over the values after the root builds the breadth-first tree of all of them and its heap edges |
| Graph.Graph.AddNumber | app.js:68-82 | the forEach callback turns the tree of count values into the tree of count+1 values and pushes the edge to the new node; the new node joins currentLevel; a parent is always found, so the `if (parent)` guard never fails |
| Graph.Graph.GenerateGraph | app.js:44-85 | the node list becomes the laid-out breadth-first tree of the values from the root up to end (the root alone when the root is past end), and the edge list becomes the heap edges of that tree |
| Graph.GeneratedGraph | app.js:44-85 | the generated graph has end-root+1 nodes (1 when root > end), is breadth-first shaped, holds values root+i, and flags each with the primality answer for its value |
| Graph.ArrangementKeepsTree | app.js:89-131 | the layout changes coordinates only: values, prime flags, children and parents are unchanged, node for node |
| Graph.Graph.ArrangeNodes | app.js:89-131 | an empty node list is left alone; otherwise the nodes become Arrangement(nodes): setY, then arrangeNode from the root with the cursor at 50, then the rescale loop; edges are untouched |
| Graph.Graph.RescaleNodes | app.js:124-130 | the min/max/scale loop makes the node list exactly Rescale(nodes, W); the edges are untouched |
| Graph.Graph.SetY | app.js:104-107 | the recursive setY gives exactly SetYAt: only y changes, on the node and its subtree |
| Graph.Graph.ArrangeNode | app.js:111-121 | the recursive arrangeNode gives exactly ArrangeAt: only x changes, and the returned cursor is the one the closure variable xPos ends with |
| Layout.MaxDepth | app.js:99 | Math.max over the children's depths is at least 1 when there are children |
| Layout.MaxDepthIsMax | app.js:99 | Math.max over the children's depths is at least every child's depth and equals one of them |
| Layout.YAtCases | app.js:105 | the height (H-100)·level/(maxDepth-1)+50 is NaN for a one-node tree (maxDepth 1), whose only node is at level 0; otherwise level 0 is at the top margin 50 |
| Layout.SetYAt | app.js:104-107 | setY on a node and its subtree changes only y; every other field of every node is kept (per-level heights in LayoutHeap.SetYAtEffect) |
| Layout.SetYAll | app.js:106 | the forEach of setY over a child list changes only y |
| Layout.ArrangeAt | app.js:111-121 | arrangeNode on a node and its subtree changes only x; every other field of every node is kept (positions in LayoutHeap.ArrangeAtPlaces) |
| Layout.ArrangeAll | app.js:116 | the forEach of arrangeNode over a child list changes only x |
| Layout.ScaleX | app.js:127 | scaleX stretches the span [minX, maxX] onto the width between the margins, W-100, and is positive for W > 100 |
| Layout.RescaledX | app.js:129 | with a non-zero scale a node lands on the left margin 50 exactly when it was at minX |
| Layout.Rescale | app.js:124-130 | the rescale loop changes only x |
| Layout.Placement | app.js:94-122 | setY followed by arrangeNode from the root changes only x and y |
| Layout.Arrangement | app.js:89-131 | the whole of arrangeNodes changes only x and y; values, flags, children and parents are kept |
| Layout.Depth | app.js:97-100 | getDepth is at least 1, and exactly 1 for a node without children |
| Layout.MinOf | app.js:125 | Math.min: the result is one of the list's elements and at most every element |
| Layout.MaxOf | app.js:126 | Math.max: the result is one of the list's elements and at least every element |
| Layout.RescaleEnds | app.js:127-130 | with a non-zero span the smallest x goes to the left margin 50 and the largest to W-50 |
| Layout.RescaleFlat | app.js:127-130 | with a zero span (where the source divides by 1 instead) every x goes to the left margin |
| Layout.RescaleKeepsOrder | app.js:127-130 | for W > 100 the rescale keeps strict left-to-right order, in both directions |
| Layout.RescaleKeepsMidpoint | app.js:119-129 | the rescale is affine, so a point halfway between two others stays halfway |
| LayoutHeap.DepthAbove | app.js:97-100 | getDepth bounds the subtree: every node in it is fewer than Depth edges below its top |
| LayoutHeap.DepthReached | app.js:97-100 | getDepth is reached: some node of the subtree is exactly Depth-1 edges below its top |
| LayoutHeap.ArrangementKeepsHeights | app.js:111-130 | arrangeNode and the rescale leave every height exactly as setY set it |
| LayoutHeap.SetYAtEffect | app.js:104-108 | setY gives every node of the subtree the height of its own level and leaves every other node alone |
| LayoutHeap.LayoutLevels | app.js:101-108 | after arrangeNodes each node is at the height of its level; levels are below maxDepth and the deepest is occupied; maxDepth is 1 exactly for a single node |
| LayoutHeap.LevelHeights | app.js:105 | with two levels or more, level 0 is at 50 and the last level at H-50, every level lies between the margins, and for H > 100 a deeper level is strictly lower (both directions) |
| LayoutHeap.LayoutSingleNode | app.js:105 | a single node gets y = NaN |
| LayoutHeap.LayoutMargins | app.js:101-108 | with two nodes or more the root is at y = 50 and some node is at y = H-50 |
| LayoutHeap.LayoutLevelOrder | app.js:104-108 | nodes on the same level share a height; for H > 100 a node on a deeper level is strictly lower |
| LayoutHeap.ArrangeAtPlaces | app.js:111-122 | arrangeNode with the cursor at x puts the k-th leaf of the subtree at x+60k, advances the cursor by 60 per leaf, and moves nothing outside the subtree |
| LayoutHeap.ArrangeAtCentres | app.js:115-120 | after arrangeNode every node of the subtree with children is halfway between its first and its last child |
| LayoutHeap.LeavesComplete | app.js:111-114 | every node of a subtree without children is one of the leaves arrangeNode places, in the order it lists them |
| LayoutHeap.LeavesAreChildless | app.js:111-114 | in the built tree the leaves arrangeNode places are exactly the nodes without children, in both directions |
| LayoutHeap.PlacementHorizontal | app.js:94-122 | before the rescale the k-th leaf in depth-first order is at 50+60k and every parent is centred over its first and last child |
| LayoutHeap.RescaleWithin | app.js:124-130 | for W ≥ 100 the rescale puts every node between 50 and W-50 |
| LayoutHeap.RescaleReachesMargins | app.js:124-130 | some node lands on the left margin; unless all x were equal, some node lands on W-50; if all were equal, all land on 50 |
| LayoutHeap.RescaleMonotone | app.js:124-130 | for W > 100 two nodes keep their strict left-to-right order, in both directions |
| LayoutHeap.RescaleCentres | app.js:119-130 | a parent centred over its children stays centred after the rescale |
| LayoutHeap.LayoutCentred | app.js:89-131 | after arrangeNodes every node with children is halfway between its first and its last child |
| LayoutHeap.LayoutWithinMargins | app.js:89-131 | after arrangeNodes with W ≥ 100 every x lies within [50, W-50] and some node is at 50; with two leaves or more some node is at W-50 |
| LayoutHeap.LayoutLeavesOrdered | app.js:89-131 | after arrangeNodes with W > 100 the leaves run strictly left to right in depth-first order |
| View.View.constructor | app.js:11-16 | the view starts at zoom 1, pan (0, 0) and no manual transform |
| View.ToScreen | app.js:145-155 | the drawing transform m·zoom+pan is the identity at zoom 1 and pan 0, and with a non-zero zoom maps exactly the model origin onto the pan |
| View.WheelFactor | app.js:247 | the wheel factor is positive; it is above 1 (zoom in) for deltaY < 0 and below 1 otherwise |
| View.WheelStepsCancel | app.js:247 | a step in followed by a step out multiplies the zoom by exactly 1 |
| View.ToModel | app.js:244-245 | the cursor's model coordinate is the point that the drawing transform m·zoom+pan puts under the cursor |
| View.ScreenModelInverse | app.js:244-245 | model-to-screen followed by screen-to-model is the identity for a non-zero zoom |
| View.WheelPan | app.js:243-254 | the new pan keeps the model point under the cursor fixed when the zoom is multiplied by the factor |
| View.WheelRoundTrip | app.js:243-254 | a wheel step in and one out at the same cursor restore both zoom and pan exactly |
| View.View.WheelZoom | app.js:235-257 | the handler sets manualTransform, multiplies the zoom by WheelFactor(deltaY) and sets both pans by WheelPan, so the point under the cursor does not move |
| View.View.ZoomIn | app.js:212-216 | the zoom is multiplied by 1.1 (so it grows) and the pan is unchanged |
| View.View.ZoomOut | app.js:219-223 | the zoom is divided by 1.1 (so it shrinks) and the pan is unchanged |
| View.ZoomInThenOut | app.js:212-223 | zoomIn then zoomOut restores zoom and pan exactly |
| View.WheelInThenOut | app.js:235-257 | a wheel step in then out at the same position restores zoom and pan exactly |

## Left out

- drawGraph and all canvas and DOM work are not modelled: drawing, colours, labels and the
  symmetry line. The canvas width and height are parameters `W` and `H`.
- centerGraphWithoutDrawing (auto-fit) and the drag-to-pan mouse handlers are not part of this
  model. Neither is reading and parsing the inputs (`parseInt`, `refreshGraph`).
- The zoom buttons' click handlers only set `manualTransform` before calling `zoomIn` or
  `zoomOut`. `ZoomIn` and `ZoomOut` model the two functions themselves.
- `events.js`, `main.js`, the modular `src/core/app.js` and the test files are not part of
  this model.
- Numbers are mathematical integers and reals, not IEEE doubles. Rounding in the layout and
  zoom arithmetic is not modelled, so the round trips hold exactly rather than within
  rounding. The one non-finite value the core produces, the NaN height of a one-node tree, is
  modelled explicitly.
- `Math.sqrt(num)` in the loop bounds is modelled as the integer test `i*i <= num`. For
  integer `i` this agrees with `i <= Math.sqrt(num)` while `num` is below 2^52. Nearer 2^53
  the rounded square root can let through one extra trial, `i` against `i*i - 1`, and the model
  does not cover that trial. It never changes the answer, because `i` does not divide `i*i - 1`.
- The source's references to nodes are modelled as positions in the node list. These are
  the entries of `currentLevel`, `children` and `parent`, and the edge ends. The model is
  exact because each node object appears once in that list, and every reference the source
  follows points to one of those objects.
- Tree.ComputeRoot, Tree.LowerChar, Tree.LowerAscii: the type string is lower-cased on ASCII
  letters only. No other character
  lower-cases to a letter of "zero", "odd" or "even", so the comparisons agree with
  `toLowerCase`.
- View.View.WheelZoom, View.View.ZoomIn, View.View.ZoomOut: these require a positive zoom,
  which the view starts with and every zoom step keeps. The source would also run with a zero,
  negative or NaN zoom. The auto-fit step, which is not part of this model, sets the zoom to
  NaN for a one-node tree, because the graph height it divides by is NaN. The handlers then
  run with that NaN zoom.
- Graph.Graph.ArrangeNodes requires that every child comes after its parent in the node
  list, which holds for every tree the builder makes. The source's getDepth would not
  terminate on a cyclic structure.
- Graph.Graph.GenerateGraph: a root value that is not a safe integer is not modelled. Neither
  is very large ranges running out of memory or time.
