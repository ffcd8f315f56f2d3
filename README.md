# Portfolio site logic in Dafny

This project models the parts of a personal portfolio site (a Next.js app) that hold real logic, and proves what they promise.

- **Projects section** (`components/ProjectsHeapStack.tsx`). Repositories are classified as AI-leaning by a keyword heuristic. They are ranked by a three-tier priority and kept in an array-backed binary max-heap. The user pops the root one, three or all at a time. Popped batches go onto a LIFO stack whose top is index 0, and can be popped back into the heap. A batch "signature" suppresses repeated pushes. The heap is laid out level by level for display.
- **Algorithm playground** (`components/DSAPlayground.tsx`), with the animation removed:
  - Tower of Hanoi move generation and replay;
  - bubble sort;
  - the N-Queens `safe` check and backtracking solver;
  - the binary-search explorer over an array of even numbers, with its target clamping;
  - breadth- and depth-first traversal of a graph, with the guard that makes a second run during a first one a no-op.
- **Site graph on the landing page** (`components/GraphHero.tsx`):
  - the adjacency table built from the edge list;
  - the breadth-first parent map from `Start` ("first path wins");
  - the walk from a hovered node back to `Start`;
  - the test that draws an edge as part of that path;
  - the shipped nodes and edges.
- **`cn`** (`lib/cn.ts`), the class-name joiner.

State that the source updates in place is modelled imperatively:
- the heap and stack of the projects section are fields of a class;
- the heap operations, bubble sort, N-Queens and the Hanoi replay work on arrays;
- the traversal, parent-map and path loops are `while`/`for` loops.

Each method is proved against a specification function or predicate, and the properties are proved as lemmas about those.

Files:
- `wrappers.dfy`: `Option`.
- `numbers.dfy`: powers of two (the Hanoi move count, the heap level widths) and whole numbers (what a number input may hold).
- `repo_priority.dfy`: classifier, priority, comparator.
- `heap.dfy`: generic heap over a comparator.
- `heap_levels.dfy`: `levels`.
- `text.dfy`: `join`, `split` and decimal text.
- `heap_stack.dfy`: the heap/stack state.
- `class_names.dfy`: `cn`.
- `hanoi.dfy`, `bubble_sort.dfy`, `nqueens.dfy`, `binary_search.dfy`, `graph_traversal.dfy`: the playground.
- `graph_hero.dfy`: the site graph.

## Model

| member | source | states |
|---|---|---|
| RepoPriority.Lower | components/ProjectsHeapStack.tsx:19 | lowercasing keeps the length and lowercases every character in place |
| RepoPriority.Contains | components/ProjectsHeapStack.tsx:21 | `text.includes(k)` is true exactly when `k` occurs at some position of `text` |
| RepoPriority.AnyPhrase | components/ProjectsHeapStack.tsx:21 | true exactly when some phrase keyword occurs in the text |
| RepoPriority.ScanTokensSpec | components/ProjectsHeapStack.tsx:17 | the boundary scan finds a short token from a position exactly when one starts at or after it |
| RepoPriority.TokenAtSpec | components/ProjectsHeapStack.tsx:17 | the regex condition (`ai`/`ml`/`llm` with start or a non-`[a-z0-9]` character before, end or such a character after) holds exactly when a token starts at some position |
| RepoPriority.MatchesShortToken | components/ProjectsHeapStack.tsx:17 | true exactly when the text holds a short token bounded on both sides |
| RepoPriority.IsAIRepo | components/ProjectsHeapStack.tsx:18-25 | true exactly when the lowercased `name + ' ' + description` contains a phrase keyword or a bounded short token |
| RepoPriority.PriorityIsTierThenStars | components/ProjectsHeapStack.tsx:31-35 | priority orders by tier (≥1000 stars, then AI, then the rest), then by stars; equal priority means same tier and same stars |
| RepoPriority.NameCompareSpec | components/ProjectsHeapStack.tsx:41 | the name comparison is 0 exactly on equal names, negative exactly when the first name is lexicographically smaller, positive exactly when it is larger |
| RepoPriority.NameCompareAntisymmetric | components/ProjectsHeapStack.tsx:41 | swapping the names negates the comparison |
| RepoPriority.NameCompareTransitive | components/ProjectsHeapStack.tsx:41 | the name order is transitive |
| RepoPriority.CompareSign | components/ProjectsHeapStack.tsx:38-42 | `compare(a, b) > 0` exactly when `a` has the higher priority or equal priority and the later name; 0 exactly on equal priority and name |
| RepoPriority.CompareAntisymmetric | components/ProjectsHeapStack.tsx:38-42 | `compare(a, b)` and `compare(b, a)` have opposite signs |
| RepoPriority.CompareTotal | components/ProjectsHeapStack.tsx:38-42 | any two repositories are comparable |
| RepoPriority.CompareTransitive | components/ProjectsHeapStack.tsx:38-42 | "at least" under `compare` is transitive |
| RepoPriority.CompareReflexive | components/ProjectsHeapStack.tsx:38-42 | every repository compares equal to itself |
| RepoPriorityExamples.BrainIsNotAI | components/ProjectsHeapStack.tsx:17-24 | a repository named `brain` is not classified as AI (the `ai` inside a word is not a token) |
| RepoPriorityExamples.HyphenatedAIIsAI | components/ProjectsHeapStack.tsx:17-24 | `my-ai-tool` is classified as AI (hyphens are boundaries) |
| RepoPriorityExamples.ApexIsAI | components/ProjectsHeapStack.tsx:17-24 | `Apex AI` is classified as AI (`ai` between a space and the end) |
| RepoPriorityExamples.ZetaIsNotAI | components/ProjectsHeapStack.tsx:17-24 | `Zeta` holds no keyword and no short token, so it is not classified as AI |
| RepoPriorityExamples.TierScenario | components/ProjectsHeapStack.tsx:31-35 | concrete priorities of the three tiers: 2 002 000 for 2000 stars, 1 000 005 for a 5-star AI repository, 5 for a plain one |
| RepoPriorityExamples.TierOrder | components/ProjectsHeapStack.tsx:38-42 | `compare` ranks the top-tier repository above the AI one and the AI one above the plain one |
| Heap.Transitive | components/ProjectsHeapStack.tsx:38-42 | "at least" under a preorder comparator chains |
| Heap.RootIsMax | components/ProjectsHeapStack.tsx:78 | the root of a heap is at least every element, so popping `h[0]` pops a maximum |
| Heap.ChainIsNonIncreasing | components/ProjectsHeapStack.tsx:77-78 | a sequence whose neighbours step down is non-increasing everywhere |
| Heap.HeapifyDown | components/ProjectsHeapStack.tsx:43-53 | given the heap property below `i`'s children, the subtree at `i` becomes a heap; the cells are permuted and nothing outside `i..n` changes |
| Heap.SiftStep | components/ProjectsHeapStack.tsx:49-51 | swapping `i` with its larger child fixes the edges at `i` and leaves only the child's edges to fix |
| Heap.SwapDownEdges | components/ProjectsHeapStack.tsx:49-51 | the swap of `SiftStep` stated on the values: every edge below `i` except those under the child holds afterwards, and the new parent is at least both of the child's children |
| Heap.HeapifyUp | components/ProjectsHeapStack.tsx:54-59 | an array that is a heap except between `i` and its ancestors becomes a heap; the cells are permuted and nothing after `i` changes |
| Heap.RiseStep | components/ProjectsHeapStack.tsx:56-57 | swapping a larger child with its parent moves the only possible violation to the parent |
| Heap.SwapUpEdges | components/ProjectsHeapStack.tsx:57 | the same swap stated on the values |
| Heap.Swap | components/ProjectsHeapStack.tsx:51 | a swap exchanges two cells, keeps the others and permutes the values |
| Heap.BuildHeap | components/ProjectsHeapStack.tsx:60 | the result is a heap and a permutation of the input (the input is a value, so it is untouched) |
| Heap.BatchSize | components/ProjectsHeapStack.tsx:76-77 | the number of pops is `min(count, size)`, the whole size when `count` is absent, 0 for a non-positive count |
| Heap.LastToRoot | components/ProjectsHeapStack.tsx:79-80 | moving the last cell to the root keeps every edge below the root's children and removes exactly the root from the multiset |
| Heap.PopRoot | components/ProjectsHeapStack.tsx:78-80 | one round returns the old root and leaves a heap of the other cells |
| Heap.PushRoot | components/ProjectsHeapStack.tsx:78 | appending the root to a popped prefix that dominates the heap keeps the prefix stepping down and dominating |
| Heap.BatchStep | components/ProjectsHeapStack.tsx:77-81 | one round of the pop loop keeps the permutation, the domination and the step-down order |
| Heap.PopBatch | components/ProjectsHeapStack.tsx:72-81 | pops `BatchSize(count, size)` roots; popped is non-increasing and dominates the rest; popped plus rest is a permutation of the heap; the rest is a heap; the first popped is the old root |
| HeapLevels.Levels | components/ProjectsHeapStack.tsx:61 | the loop computes the level slices `LevelsFrom(arr, 0)` |
| HeapLevels.LevelsConcat | components/ProjectsHeapStack.tsx:61 | concatenating the levels gives back the array; no levels exactly for an empty array |
| HeapLevels.LevelWidth | components/ProjectsHeapStack.tsx:142 | level `li` is `arr[2^li - 1 .. min(2^(li+1) - 1, n)]`, so its element `idx` is `arr[2^li - 1 + idx]`; it is non-empty, has exactly `2^li` elements unless it is the last level, and at most that many if it is |
| HeapLevels.LevelParent | components/ProjectsHeapStack.tsx:142 | element `idx` of drawn level `li + 1` is the cell `k = 2^(li+1) - 1 + idx`, and element `idx / 2` of level `li` exists and is the cell `(k - 1) / 2`, its parent in `heapifyDown` and `heapifyUp` |
| Text.Split | lib/cn.ts:5 | `split(' ')` returns at least one piece, none holding the separator, and joining the pieces gives back the string |
| Text.SplitJoin | lib/cn.ts:5 | splitting a join of separator-free pieces gives back the pieces |
| Text.Decimal | lib/cn.ts:5 | decimal text is non-empty, all digits and without a leading zero |
| Text.DecimalValue | lib/cn.ts:5 | reading the decimal text of `n` gives `n` back |
| Text.IntText | lib/cn.ts:5 | the text of an integer is non-empty and holds no space |
| ProjectsHeapStack.CompareIsPreorder | components/ProjectsHeapStack.tsx:38-42 | `compare` meets the preorder laws the heap needs |
| ProjectsHeapStack.Reverse | components/ProjectsHeapStack.tsx:88 | `[...popped].reverse()` has the same length and values, back to front |
| ProjectsHeapStack.ReversedBatchAscends | components/ProjectsHeapStack.tsx:86-90 | the reversed batch ascends from index 0, so the last popped (the smallest) ends on top of the stack at index 0 |
| ProjectsHeapStack.Urls | components/ProjectsHeapStack.tsx:83 | `popped.map(p => p.html_url)` keeps length and order |
| ProjectsHeapStack.HasUrl | components/ProjectsHeapStack.tsx:108 | true exactly when some heap entry has the URL |
| ProjectsHeapStack.HeapStackBrowser.constructor | components/ProjectsHeapStack.tsx:64-67 | the initial heap is a heap permuting the repositories; empty stack and signature |
| ProjectsHeapStack.HeapStackBrowser.Reload | components/ProjectsHeapStack.tsx:69 | the heap is rebuilt from new repositories; stack and signature unchanged |
| ProjectsHeapStack.HeapStackBrowser.PopMany | components/ProjectsHeapStack.tsx:72-95 | everything `Heap.PopBatch` states; the stack becomes `reverse(popped) ++ stack` and the signature is recorded exactly when the batch is non-empty and its signature differs from the last; otherwise stack and signature are unchanged |
| ProjectsHeapStack.HeapStackBrowser.PopManyPushAlways | components/ProjectsHeapStack.tsx:72-95 | the batch is always pushed; heap and stack together keep every repository |
| ProjectsHeapStack.HeapStackBrowser.StackPop | components/ProjectsHeapStack.tsx:103-113 | empty stack: nothing changes; otherwise the top leaves the stack and is sifted into the heap unless the heap holds its URL, in which case the heap is unchanged and the item is gone; conservation holds exactly in the first case |
| ProjectsHeapStack.LostOnRepeatPop | components/ProjectsHeapStack.tsx:83-85 | pop, stack pop, pop on a one-repository heap leaves both heap and stack empty |
| ProjectsHeapStack.KeptOnRepeatPop | components/ProjectsHeapStack.tsx:83-85 | the same steps with the batch always pushed leave the repository on the stack |
| ClassNames.NonEmpty | lib/cn.ts:6 | `filter(Boolean)` keeps only non-empty pieces, each one from the input |
| ClassNames.FlatPiecesNoSpace | lib/cn.ts:5 | no piece produced by the `flatMap` holds a space |
| ClassNames.TokensAreTokens | lib/cn.ts:5-6 | every kept token is non-empty and space-free |
| ClassNames.JoinWellSpaced | lib/cn.ts:7 | joining such tokens with one space gives text without leading, trailing or double spaces, non-empty when there are tokens |
| ClassNames.CnWellSpaced | lib/cn.ts:5-7 | the result never starts or ends with a space and never holds two spaces in a row |
| ClassNames.FalsyIgnored | lib/cn.ts:5 | `cn()`, `cn(false, null)` and `cn(undefined)` are `""` |
| ClassNames.NonEmptyAppend | lib/cn.ts:6 | filtering commutes with concatenation |
| ClassNames.FlatPiecesAppend | lib/cn.ts:5 | the `flatMap` commutes with concatenation |
| ClassNames.TokensInOrder | lib/cn.ts:5-7 | tokens come in argument order, and a string's tokens are its non-empty space-separated pieces in order |
| ClassNames.NumberKept | lib/cn.ts:5 | a number contributes its decimal text; `cn(0)` is `"0"` |
| ClassNames.NonEmptyOfTokens | lib/cn.ts:6 | filtering already non-empty tokens changes nothing |
| ClassNames.CnIdempotent | lib/cn.ts:3-8 | `cn(cn(xs...)) == cn(xs...)` |
| Hanoi.GenerateHanoiMoves | components/DSAPlayground.tsx:138-140 | appends exactly the recursive move list `HanoiMoves(n, from, to, aux)` to `acc` |
| Hanoi.MoveCount | components/DSAPlayground.tsx:138-139 | `n` disks take `2^n - 1` moves |
| Hanoi.MovesUsePegs | components/DSAPlayground.tsx:138-139 | every move goes between two different pegs among `from`, `to`, `aux` |
| Hanoi.ThreePegMoves | components/DSAPlayground.tsx:150 | with pegs 0, 1, 2 every move stays on the three pegs |
| Hanoi.Step | components/DSAPlayground.tsx:153-154 | one move keeps three pegs |
| Hanoi.MoveDisk | components/DSAPlayground.tsx:153-154 | popping from `mv.from` and pushing onto `mv.to` in place is one `Step` |
| Hanoi.MoveAll | components/DSAPlayground.tsx:152-157 | the `for` loop over the moves leaves the copied pegs at `Run(pegs, moves)` |
| Hanoi.Play | components/DSAPlayground.tsx:147-159 | the replay loop ends in `Run(pegs, moves)` for the generated moves |
| Hanoi.WholeCountEnds | components/DSAPlayground.tsx:138-140 | on the number the input stores, a whole count `n` ends the recursion within `n` levels with exactly `HanoiMoves(n, from, to, aux)` |
| Hanoi.OtherCountNeverEnds | components/DSAPlayground.tsx:138-140 | on a negative or fractional count the recursion never reaches `n === 0`, however deep it is allowed to go |
| Hanoi.StuckOnOtherCount | components/DSAPlayground.tsx:147-150 | such a count leaves `running` set: `setRunning(true)` has run and `setRunning(false)` is never reached |
| Hanoi.ClampDisks | components/DSAPlayground.tsx:164 | the count held to the input's `min` 1 and `max` 8 as a whole number; a whole count in range is kept |
| Hanoi.ClampedPlayEnds | components/DSAPlayground.tsx:147-158 | with the count clamped, the generation ends within 8 levels with `HanoiMoves` and `running` is cleared |
| Hanoi.ReplayIsRun | components/DSAPlayground.tsx:152-155 | a replay that checks every move (non-empty source, smaller disk on top) agrees with the unchecked run when it succeeds |
| Hanoi.ReplayAppend | components/DSAPlayground.tsx:152-155 | replaying two move lists in a row is replaying their concatenation |
| Hanoi.TowerShape | components/DSAPlayground.tsx:145 | the initial tower `[n, ..., 1]` lists the disks from largest to smallest |
| Hanoi.TowerMoves | components/DSAPlayground.tsx:138-139 | the moves for `k` disks carry a tower from `from` to `to` over larger disks, legally at every step |
| Hanoi.TowerCompose | components/DSAPlayground.tsx:139 | the two recursive legs and the middle move compose into the tower move |
| Hanoi.HanoiSolves | components/DSAPlayground.tsx:145-155 | from `[[n..1], [], []]` every move is legal and all disks end on peg 2 as `[n..1]` |
| BubbleSort.Sort | components/DSAPlayground.tsx:194-206 | the result is sorted ascending and a permutation of the input |
| BubbleSort.Pass | components/DSAPlayground.tsx:199-203 | one outer pass extends the settled suffix by one cell, permuting the values and leaving the suffix alone |
| BubbleSort.BubbleStep | components/DSAPlayground.tsx:201 | one compare-and-swap carries the largest value so far forward and keeps the suffix settled |
| BubbleSort.SwapSame | components/DSAPlayground.tsx:201 | swapping neighbours permutes the values |
| BubbleSort.SortedUnique | components/DSAPlayground.tsx:194-206 | two sorted permutations of the same values are equal, so the sort's result is determined |
| BubbleSort.SettledSuffixIsFinal | components/DSAPlayground.tsx:197-204 | after pass `i` the last `i + 1` cells already hold their final sorted values |
| NQueens.Safe | components/DSAPlayground.tsx:234-240 | true exactly when no row above shares the column or a diagonal |
| NQueens.Backtrack | components/DSAPlayground.tsx:245-255 | adds one per complete board reached from the filled rows and restores every cell it wrote to `-1` |
| NQueens.Solve | components/DSAPlayground.tsx:241-258 | counts the complete boards reached from the empty board and leaves the board all `-1` |
| NQueens.SafeExtends | components/DSAPlayground.tsx:249 | placing a safe column extends a non-attacking placement |
| NQueens.PlacementNeedsSafe | components/DSAPlayground.tsx:249 | a non-attacking extension was a safe column |
| NQueens.ExtensionsAreSolutions | components/DSAPlayground.tsx:245-255 | the boards reached from a placement are exactly the solutions that start with it |
| NQueens.ExtendColsAreSolutions | components/DSAPlayground.tsx:248-254 | the boards reached from columns `col..n` are exactly those solutions whose next queen is at `col` or right of it |
| NQueens.DistinctConcat | components/DSAPlayground.tsx:248-254 | boards from different columns never repeat |
| NQueens.ExtensionsDistinct | components/DSAPlayground.tsx:245-255 | no board is reached twice |
| NQueens.SolveCountsSolutions | components/DSAPlayground.tsx:241-258 | `solve` counts each `n`-queens solution exactly once |
| BinarySearch.ArrayLength | components/DSAPlayground.tsx:298-299 | the length `Array.from` takes from the Size value: 0 for a size that is not positive, otherwise its whole part |
| BinarySearch.MakeArray | components/DSAPlayground.tsx:298 | `makeArray` for a length `n` has `n` elements |
| BinarySearch.MakeArrayValues | components/DSAPlayground.tsx:298 | its values are strictly increasing and are exactly the even numbers in `[0, 2n)` |
| BinarySearch.RoundToEven | components/DSAPlayground.tsx:300 | `Math.round(v / 2) * 2` on any number `v` is an even integer in `(v - 1, v + 1]`; it keeps an even whole `v` and raises an odd one by one |
| BinarySearch.SnapToValid | components/DSAPlayground.tsx:300-301 | on any number: it is returned unchanged on an empty array; otherwise the result is a whole number inside `[arr[0], arr[last]]` |
| BinarySearch.SnapOnEvens | components/DSAPlayground.tsx:298-301 | on the array of evens the snapped value of any number is a whole even element of the array; an even whole target in range is kept |
| BinarySearch.Search | components/DSAPlayground.tsx:302-306 | the loop terminates; a found index holds the target; on a sorted array holding the target it is found |
| Traversal.ReachableStep | components/DSAPlayground.tsx:99 | a neighbour of a reachable node is reachable |
| Traversal.ClosedHoldsReachable | components/DSAPlayground.tsx:93-100 | a set holding `start` and closed under edges holds every reachable node |
| Traversal.Enqueue | components/DSAPlayground.tsx:99 | every neighbour of `current` is seen or queued afterwards; the queue keeps only reachable nodes and loses none |
| Traversal.Bfs | components/DSAPlayground.tsx:89-102 | `seen` is exactly the set of nodes reachable from `start`, each entered once |
| Traversal.Visit | components/DSAPlayground.tsx:106-112 | a visit only adds reachable nodes, leaves every added node with all neighbours seen and enters each node once |
| Traversal.Dfs | components/DSAPlayground.tsx:103-115 | `seen` is exactly the set of nodes reachable from `start`, each entered once |
| Traversal.GraphTraversal.constructor | components/DSAPlayground.tsx:32 | nothing visited, not running |
| Traversal.GraphTraversal.NewGraph | components/DSAPlayground.tsx:126 | `New Graph` shows the new graph (possibly empty), clears `visited` and keeps the running flag |
| Traversal.GraphTraversal.RunBfs | components/DSAPlayground.tsx:89-102 | a call while running changes nothing; from a node, `visited` becomes the reachable set and running is cleared; from a start that is not a node (the empty graph), `visited` is `{start}` and running stays set |
| Traversal.GraphTraversal.RunDfs | components/DSAPlayground.tsx:103-115 | the same for `dfs` |
| Traversal.GraphTraversal.RunBfsReleasing | components/DSAPlayground.tsx:89-102 | the corrected `bfs`: the same results, but running is always cleared after a call that was not guarded |
| Traversal.GraphTraversal.RunDfsReleasing | components/DSAPlayground.tsx:103-115 | the corrected `dfs`, likewise |
| Traversal.LockedAfterEmptyGraph | components/DSAPlayground.tsx:89-102 | after BFS on the empty graph, BFS and DFS on a new one-node graph show nothing and running stays set |
| Traversal.RecoversAfterEmptyGraph | components/DSAPlayground.tsx:89-102 | with the corrected traversal, BFS on the next graph after the empty one clears running and shows its node |
| GraphHero.TargetsConcat | components/GraphHero.tsx:111 | the per-node target lists of an edge list split at any point are the concatenation of the two halves' lists |
| GraphHero.TargetsMembers | components/GraphHero.tsx:111 | `w` is listed under `x` exactly when an edge goes from `x` to `w` |
| GraphHero.BuildAdjacency | components/GraphHero.tsx:107-112 | every node id has an entry, and its list holds the `to` of every edge from it in edge order |
| GraphHero.SuccInUniverse | components/GraphHero.tsx:123 | every listed neighbour is a node the table mentions |
| GraphHero.Expand | components/GraphHero.tsx:123-127 | the inner loop keeps every parent already set, gives each new key the parent `cur` and queues it, and leaves the queue alone when nothing is new |
| GraphHero.ParentMap | components/GraphHero.tsx:115-131 | the queue loop computes `ParentMapSpec(adj, start)` |
| GraphHero.ExpandInv | components/GraphHero.tsx:123-127 | the inner loop keeps the parent map well formed, rooted and reachable |
| GraphHero.DrainKeepsInv | components/GraphHero.tsx:121-129 | the outer loop ends with a map closed under the table, and a parent once set is never overwritten (first path wins) |
| GraphHero.ParentMapCorrect | components/GraphHero.tsx:115-131 | `Start` maps to nothing; every other key's parent is a key that lists it; every parent chain reaches `Start`; the keys are exactly the nodes reachable from `Start` |
| GraphHero.Walk | components/GraphHero.tsx:137-142 | the walk starts at the hovered node |
| GraphHero.PathSet | components/GraphHero.tsx:134-144 | empty without a hovered node; otherwise the nodes of the walk from it toward `Start` |
| GraphHero.WalkEndsAtStart | components/GraphHero.tsx:137-142 | in a rooted map the walk ends at `Start`, so the loop terminates there |
| GraphHero.WalkFollowsParents | components/GraphHero.tsx:139-141 | each step of the walk goes from a node to its parent |
| GraphHero.PathSetHoldsAncestors | components/GraphHero.tsx:134-144 | `pathSet` holds the hovered node, `Start` and the parent of each of its other nodes |
| GraphHero.OnPathIsWalkStep | components/GraphHero.tsx:284 | an edge is drawn on the path exactly when its endpoints are consecutive on the walk, child then parent |
| GraphHero.IdsDistinct | components/GraphHero.tsx:18-27 | the node ids are pairwise different |
| GraphHero.TargetsSnoc | components/GraphHero.tsx:111 | appending an edge appends its target to its source's list only |
| GraphHero.ShippedAdjacency | components/GraphHero.tsx:29-39 | every shipped edge starts at a node, and the table built from the shipped data is the one listed |
| GraphHero.DrainStep | components/GraphHero.tsx:121-128 | one round of the outer loop |
| GraphHero.ShippedParents | components/GraphHero.tsx:115-131 | on the shipped graph `Playground`'s parent is `Projects` and `Contact`'s is `Playground`; the other parents are forced |
| GraphHero.ContactPath | components/GraphHero.tsx:134-144 | hovering `Contact` lights `Contact`, `Playground`, `Projects`, `Work`, `About`, `Start`; the edge `Writing` to `Playground` is not drawn |

## Left out

- Rendering: JSX, canvas drawing, SVG geometry, framer-motion, the directional keyboard navigation and its nearest-node choice, the `shorten` geometry.
- Timing and React machinery: `sleep`, `await`, the `setState` calls that only repaint, effects. Each algorithm runs as one sequential computation. A `bfs` or `dfs` started during another one is modelled only through the running flag, not as an interleaving.
- React may invoke a state updater twice, and `lastBatchRef` guards against that. The model does not invoke anything twice; the signature is an ordinary field.
- Randomness: the random graph, the random bar heights and the random target are inputs of the model.
- `RepoPriority.NameCompare`: `localeCompare` is locale-dependent. It is modelled as code-point lexicographic order with results -1, 0 and 1; its laws, not its exact collation, are what the heap relies on.
- `RepoPriority.Lower`: `toLowerCase` is modelled for ASCII letters only.
- Star counts are natural numbers.
- `ClassNames.NumberKept`: `cn`'s number arguments are integers, and `String(n)` is their plain decimal text only for magnitudes below 10^21; from 10^21 on `String` uses exponent notation (`cn(1e21)` is `"1e+21"`), which is not modelled, nor are fractional numbers, `NaN` and `Infinity`.
- `Text.IntText`: the decimal text it gives agrees with `String(n)` only for integers of magnitude below 10^21.
- The heap is generic over a comparator that meets the preorder laws. `ProjectsHeapStack.CompareIsPreorder` connects it to `compare`.
- `GraphHero.BuildAdjacency`: an edge starting at an unknown node makes the source throw, since it pushes onto a missing list. The model requires every edge to start at a node. The shipped data meets this (`GraphHero.ShippedAdjacency`).
- `GraphHero.PathSet`: requires the parent map to be rooted. The map that `parentMap` builds always is (`GraphHero.ParentMapCorrect`); on a map with a cycle the source would loop forever.
- Node ids of the site graph are an enumeration whose `Id` gives the id strings. The algorithms themselves are generic in the node type.
- `Hanoi.Play`: a peg is a sequence of numbers and `0` stands for the `undefined` that `pop()` returns on an empty peg. From the initial pegs this never happens (`Hanoi.HanoiSolves`).
- The `running` flags of the sort, N-Queens and search panels are not modelled: each operation is modelled as one run. The traversal's `runningRef` guard is modelled, and so is the Hanoi flag that a count which never ends the recursion leaves set (`Hanoi.StuckOnOtherCount`).
- `Hanoi.GenerateHanoiMoves`, `Hanoi.Play` and `NQueens.Solve` take the disk count and the board size as natural numbers. The number inputs store any `Number(e.target.value)` (components/DSAPlayground.tsx:164 and 263); `min` and `max` do not stop a typed `-1` or `2.5`. On such a count the Hanoi recursion never ends and overflows the stack, as `Hanoi.OtherCountNeverEnds` and `Hanoi.StuckOnOtherCount` show (see Findings). On such a board size the effect at line 233 (`Array(n).fill(-1)`, run whenever `n` changes) throws a `RangeError` as soon as the size is typed, before Play is clicked; that throw is not modelled. A typed value that is not a number (`NaN`) is not modelled either.
- `BinarySearch.MakeArray` takes a natural length. The Size field stores any `Number(e.target.value)` (line 311); the page's array is `MakeArray(ArrayLength(size))`, which is empty for a size that is not positive. The random target `reset` then picks from an empty array (`undefined`) is not modelled.
- `BinarySearch.SnapToValid`, `BinarySearch.RoundToEven` and `BinarySearch.SnapOnEvens` are stated for any number. The page only passes them whole non-negative numbers: the target field accepts digits only (line 319).
- `BinarySearch.Search`: `commitTarget` runs first, but its new target reaches the loop only on a later render. The loop is modelled on the target it is given. It is given as an integer: on a non-empty array the snapped target is a whole number (`BinarySearch.SnapToValid`).
- The intermediate `visited` snapshots, the highlighted rows and the solution counter shown while an algorithm runs are not modelled. The final results and the traversal order are.
- `lib/github.ts` and other I/O, and the debug log in `lib/cn.ts`, are not part of this model.

## Findings

| source | as written | input that shows it | evidently intended | confidence | as-written member | corrected member |
|---|---|---|---|---|---|---|
| components/ProjectsHeapStack.tsx:83-85 | a popped batch goes onto the stack only when its signature (popped URLs, `::`, size left in the heap) differs from the previous batch's | heap holding one repository `r`, empty stack: Pop (stack `[r]`), Stack pop (`r` back in the heap), Pop again: the signature repeats, the batch is not pushed, and `r` is in neither heap nor stack | every popped batch lands on the stack, so heap and stack together keep every repository | high, not executed | ProjectsHeapStack.LostOnRepeatPop | ProjectsHeapStack.HeapStackBrowser.PopManyPushAlways |
| components/DSAPlayground.tsx:138-150 | `play` sets `running`, then calls `generateHanoiMoves(disks, ...)`, which stops only at `n === 0`; `disks` is whatever `Number(e.target.value)` gave (line 164) | typing `-1` or `2.5` in the disks input, then Play: the recursion counts down past 0 until the stack overflows, `setRunning(false)` is never reached, and the panel stays disabled | the count stays a whole number from 1 to 8, as the input's `min` and `max` say, so `play` always ends and clears `running` | high, not executed | Hanoi.StuckOnOtherCount | Hanoi.ClampedPlayEnds |
| components/DSAPlayground.tsx:89-115 | `bfs` and `dfs` set `runningRef` and clear it only after the traversal; the node count is whatever `Number(e.target.value)` gave (line 121) | typing `0` (or clearing the Nodes field) and pressing New Graph gives an empty graph; BFS then reads `nodes[0].edges` (line 99) and throws, `runningRef` stays set, and every later BFS or DFS, even on a new non-empty graph, returns at once | the guard is released however the traversal ends (or the node count stays within the input's `min` 3 and `max` 15), so the panel stays usable | high, not executed | Traversal.LockedAfterEmptyGraph | Traversal.GraphTraversal.RunBfsReleasing |
