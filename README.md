# Trace engine of the algorithm visualizer

The visualizer shows a textbook algorithm one step at a time. A generator
runs the algorithm on a private working copy of its input and records an
ordered trace of typed steps (compare, swap, overwrite, highlight, sorted,
visit, found). The page then rebuilds what it shows at any trace position by
replaying a prefix of the trace over the original array: the array after
the value-carrying swaps so far, and the set of indices marked sorted. The
position is a clamped index moved by the step buttons, the reset button and
a playback timer.

This Dafny project models that engine:

- `steps.dfy` (module `Steps`): the step record, the seven kinds, and counting and
  listing the steps of one kind.
- `reconstruction.dfy` (module `Reconstruction`): the replay as a function
  (`Apply`, `Replay`, `StateAt`) and as the page's loop over a mutable array
  (`ApplyInPlace`, `Reconstruct`), with the facts the page relies on.
- `sorting.dfy` (module `Sorting`): orderings, the working copy, uniqueness
  of an ascending arrangement.
- `bubble_sort.dfy`, `selection_sort.dfy`, `heap_sort.dfy`: each generator
  as a method over an `array<int>` working copy, proved against a
  description of its whole trace and of what replaying that trace shows.
- `a_star.dfy` (module `AStar`): the grid A* generator with its open list, closed
  set and score arrays, and the shape of every trace it can produce.
- `playback.dfy` (module `Playback`): the navigation state machine and the
  regeneration of the trace when an algorithm is chosen.
- `routes.dfy` (module `Routes`): `buildUrl`, with the first-occurrence
  `String.prototype.replace` it relies on.

The generators take the caller's array as an `array<int>` with no
`modifies` clause, so Dafny checks that the caller's array is only read;
every generator copies it first, as the source does.

Two behaviours of the code shape what the traces can show:

- Selection sort's swap steps carry no values, and the replay only applies a
  swap that carries values. So replaying the trace of `[2, 1]` shows `[2, 1]`
  at every position (`SelectionSort.TwoOne`). The sorted order exists only in
  the generator's working copy (`SelectionSort.GenerateSelectionSortSteps`,
  `SelectionSort.SelectionWorkSorted`).
- The A* expansion cap is checked after the counter is incremented, so a
  trace cut off by the cap holds 101 expansions before its limit step
  (`AStar.SearchTrace`).

## Model

| member | source | states |
|---|---|---|
| Steps.ParseKind | client/src/lib/algorithms/types.ts:1-8 | a string reads back as a kind exactly when it is the literal of some kind, and then it is that kind's literal |
| Steps.KindNameRoundTrip | client/src/lib/algorithms/types.ts:1-8 | naming a kind and reading the name back gives the same kind, so the seven literals are pairwise distinct |
| Reconstruction.Write | client/src/pages/Visualizer.tsx:87-88 | assigning one element keeps the length, sets that element and keeps every other one |
| Reconstruction.WriteSwap | client/src/pages/Visualizer.tsx:86-89 | a value-carrying swap writes v0 at idx0 and then v1 at idx1, so v1 wins when the indices coincide, and touches no other index |
| Reconstruction.Apply | client/src/pages/Visualizer.tsx:84-93 | a step changes the array only if it is a swap over two indices with values; only a sorted step changes the set, adding exactly its indices |
| Reconstruction.Replay | client/src/pages/Visualizer.tsx:84-93 | replaying keeps the array's length and never removes a sorted index |
| Reconstruction.StateAt | client/src/pages/Visualizer.tsx:81-93 | the state shown at any position keeps the original array's length |
| Reconstruction.BeforeStart | client/src/pages/Visualizer.tsx:81-84 | position -1 shows the original array with nothing sorted |
| Reconstruction.StateAtStep | client/src/pages/Visualizer.tsx:84-93 | the state at k is step k applied to the state at k-1 |
| Reconstruction.SortedMonotone | client/src/pages/Visualizer.tsx:90-92 | the sorted set at k1 <= k2 is a subset of the set at k2 |
| Reconstruction.SortedIsMarked | client/src/pages/Visualizer.tsx:90-92 | the sorted set after a trace is the starting set plus the union of the indices of its sorted steps |
| Reconstruction.StillTrace | client/src/pages/Visualizer.tsx:86-89 | a trace without value-carrying swaps leaves the array as it was |
| Reconstruction.ExchangeApply | client/src/pages/Visualizer.tsx:86-89 | a swap whose values are the two named elements exchanged exchanges them and so permutes the array |
| Reconstruction.ExchangesPermute | client/src/pages/Visualizer.tsx:76-95 | when every swap of a trace is such an exchange, the array at every position is a permutation of the original |
| Reconstruction.MarkedStaysPut | client/src/pages/Visualizer.tsx:76-95 | when no moving swap touches a sorted index, an index keeps its value from the moment it is marked |
| Reconstruction.ApplyInPlace | client/src/pages/Visualizer.tsx:85-92 | one loop iteration on the mutable array and set leaves exactly the state `Apply` gives |
| Reconstruction.Reconstruct | client/src/pages/Visualizer.tsx:76-95 | the page's loop from a copy of the array and an empty set returns exactly the state at position k, from the original left untouched |
| Sorting.Copy | client/src/lib/algorithms/sorting/bubbleSort.ts:5 | the working copy is a fresh array with the input's contents |
| Sorting.Swapped | client/src/lib/algorithms/sorting/heapSort.ts:9-11 | exchanging two positions puts each one's value at the other and keeps the rest |
| BubbleSort.GenerateBubbleSortSteps | client/src/lib/algorithms/sorting/bubbleSort.ts:3-52 | without its swaps the trace is the fixed plan of the passes; a swap follows the compare of the same pair exactly when that pair is out of order in the array shown, at line 3 and with no auxiliary data; every swap exchanges its pair and touches no sorted index; only compare, swap and sorted occur; n(n-1)/2 compares and n+1 sorted steps, the last `sorted [0]`; the full replay is an ascending permutation of the input with every index marked |
| BubbleSort.BubblePass | client/src/lib/algorithms/sorting/bubbleSort.ts:8-41 | after outer pass i the last i+1 positions hold the largest elements in ascending order and are exactly the marked ones, the copy is a permutation of the input, and the trace so far is the plan of i+1 passes |
| BubbleSort.CompareAdjacent | client/src/lib/algorithms/sorting/bubbleSort.ts:10-32 | one inner iteration records the compare of [j, j+1], then a swap exactly when the pair is out of order, and leaves the largest of a[0..j+1] at j+1 |
| BubbleSort.CompareAdjacentOrder | client/src/lib/algorithms/sorting/bubbleSort.ts:18-23 | exchanging an out-of-order pair carries the running maximum forward and keeps the sorted suffix and the elements |
| BubbleSort.PlanCounts | client/src/lib/algorithms/sorting/bubbleSort.ts:8-49 | the plan for n elements holds n(n-1)/2 compares and n+1 sorted steps |
| BubbleSort.PassesMarks | client/src/lib/algorithms/sorting/bubbleSort.ts:35-40 | i outer passes record exactly i sorted steps |
| BubbleSort.FinalCounts | client/src/lib/algorithms/sorting/bubbleSort.ts:43-49 | with the closing `sorted [0]` the trace is the whole plan, with n(n-1)/2 compares and n+1 sorted steps |
| BubbleSort.FinalState | client/src/lib/algorithms/sorting/bubbleSort.ts:43-49 | after all passes the copy is ascending and a permutation of the input, and with the closing mark every index is marked |
| BubbleSort.Opening | client/src/lib/algorithms/sorting/bubbleSort.ts:8-31 | every trace of two or more elements opens with `compare [0,1]`, followed by `swap [0,1]` exactly when a[0] > a[1] |
| BubbleSort.SwapExact | client/src/lib/algorithms/sorting/bubbleSort.ts:18-31 | every swap of the trace directly follows the compare of its pair, which was out of order in the array shown, and is exactly the record of lines 25-31: that pair, the exchanged values, line 3 and no auxiliary data |
| BubbleSort.Example | client/src/lib/algorithms/sorting/bubbleSort.ts:11-31 | on `[5,3,8,1]` the trace opens with `compare [0,1]` and the swap record over `[0,1]` carrying `[3,5]` at line 3, and replays to `[1,3,5,8]` |
| SelectionSort.ScanMinIsMin | client/src/lib/algorithms/sorting/selectionSort.ts:19-36 | the inner loop settles on an element no larger than the current minimum or any later one; when it moves, it moves to the first later index holding a strictly smaller value |
| SelectionSort.ScanFindsFirstMin | client/src/lib/algorithms/sorting/selectionSort.ts:19-36 | the minIdx the inner loop leaves is the first index of the minimum of a[i..n) |
| SelectionSort.ScanIsLinked | client/src/lib/algorithms/sorting/selectionSort.ts:19-35 | the scan records compares of [minIdx, j] with minIdx < j, each followed by `highlight [j]` exactly when a[j] < a[minIdx], and every highlight follows its compare |
| SelectionSort.WorkSorted | client/src/lib/algorithms/sorting/selectionSort.ts:8-57 | the passes from i on, started on a copy whose prefix [0, i) is ascending and below the rest, leave it ascending and a permutation of what it was |
| SelectionSort.SelectionWorkSorted | client/src/lib/algorithms/sorting/selectionSort.ts:8-57 | the working copy ends ascending and a permutation of the input |
| SelectionSort.SelectionTraceShape | client/src/lib/algorithms/sorting/selectionSort.ts:8-56 | the trace has n(n-1)/2 compares; its sorted steps are `[0]`, `[1]`, ..., `[n-1]` in order; only compare, highlight, swap and sorted occur; each swap is over [i, minIdx] with i < minIdx and carries no values; the replay shows the input at every position |
| SelectionSort.TwoOne | client/src/lib/algorithms/sorting/selectionSort.ts:38-49 | the trace of `[2,1]` is exactly seven steps with one swap, over [0,1], and its full replay still shows `[2,1]` |
| SelectionSort.GenerateSelectionSortSteps | client/src/lib/algorithms/sorting/selectionSort.ts:3-60 | the generator's trace is exactly the selection trace of the input, and its working copy ends as the passes leave it: ascending and a permutation of the input |
| SelectionSort.SelectPass | client/src/lib/algorithms/sorting/selectionSort.ts:9-56 | one outer pass appends exactly the pass's steps and leaves the copy as the pass defines it |
| SelectionSort.ScanForMin | client/src/lib/algorithms/sorting/selectionSort.ts:19-36 | the inner loop appends exactly the scan's steps and returns the scan's minIdx |
| HeapSort.Largest | client/src/lib/algorithms/sorting/heapSort.ts:14-23 | largest is the root or a child inside heapSize, at least as large as both children inside heapSize, and strictly larger than the root when it moved |
| HeapSort.Exchange | client/src/lib/algorithms/sorting/heapSort.ts:9-11 | the swap closure exchanges the two elements of the working array |
| HeapSort.SiftOpening | client/src/lib/algorithms/sorting/heapSort.ts:18-42 | a sift-down records nothing exactly when the root is at least its children inside the heap; otherwise it opens with `compare [r, m]` (line 9) and `swap [r, m]` carrying the values after the exchange (line 13), m being the larger child and the left one on a tie |
| HeapSort.SiftSubtree | client/src/lib/algorithms/sorting/heapSort.ts:13-44 | when the subtrees of both children of the root are max-heaps inside heapSize, the sift-down leaves the subtree of the root a max-heap |
| HeapSort.Heapify | client/src/lib/algorithms/sorting/heapSort.ts:13-44 | the array it leaves and the steps it appends are exactly those of the sift-down `Sift`; when both child subtrees of the root are max-heaps, the subtree of the root is one afterwards; given every node from lo on other than the root in heap order, every node from lo on is afterwards; the prefix is permuted and positions from heapSize on are unchanged; no highlight or sorted step is added |
| HeapSort.BuildOne | client/src/lib/algorithms/sorting/heapSort.ts:48-54 | one round of the build loop appends `highlight [i]` and then exactly the steps of the sift-down at i over the whole array, and leaves the array that sift-down leaves |
| HeapSort.BuildHeap | client/src/lib/algorithms/sorting/heapSort.ts:47-55 | the array and the trace are exactly those of `Build`: for i from n/2-1 down to 0, `highlight [i]` followed by the steps of heapify(n, i); the whole array is then a max-heap |
| HeapSort.RootIsMax | client/src/lib/algorithms/sorting/heapSort.ts:58-66 | the root of a max-heap is at least every element of the heap |
| HeapSort.ExtractOrder | client/src/lib/algorithms/sorting/heapSort.ts:58-82 | exchanging the root with index i grows the ascending suffix of largest elements by one and leaves a heap except at the root |
| HeapSort.ExtractOne | client/src/lib/algorithms/sorting/heapSort.ts:59-82 | one extraction appends `compare [0,i]`, `swap [0,i]` carrying the exchanged values, `sorted [i]`, then exactly the steps of the sift-down at 0 inside size i, and leaves the array that sift-down leaves; a[i..n) stays the largest elements in ascending order and the top a heap |
| HeapSort.ExtractAll | client/src/lib/algorithms/sorting/heapSort.ts:58-83 | the array and the appended steps are exactly those of `Extract` from n-1 down to 1 |
| HeapSort.HeapSteps | client/src/lib/algorithms/sorting/heapSort.ts:85-90 | every heap sort trace ends with the closing `sorted [0]` |
| HeapSort.OneTwo | client/src/lib/algorithms/sorting/heapSort.ts:3-93 | on `[1, 2]` the trace is exactly `highlight [0]`, `compare [0,1]`, `swap [0,1]` with `[2,1]`, `compare [0,1]`, `swap [0,1]` with `[1,2]`, `sorted [1]`, `sorted [0]`, with lines 3, 9, 13, 7, 8, 8, 10 |
| HeapSort.RecordedShape | client/src/lib/algorithms/sorting/heapSort.ts:26-40 | only compare, swap, highlight and sorted occur; every compare is followed at once by a swap of the same pair and every swap follows a compare |
| HeapSort.RecordedReplay | client/src/lib/algorithms/sorting/heapSort.ts:33-40 | every swap of the trace exchanges its pair in the array shown and touches no sorted index, and the replay ends on the working copy |
| HeapSort.FinalState | client/src/lib/algorithms/sorting/heapSort.ts:85-90 | once extraction is over the copy is ascending and the closing `sorted [0]` marks every index |
| HeapSort.GenerateHeapSortSteps | client/src/lib/algorithms/sorting/heapSort.ts:3-93 | the trace is exactly `HeapSteps` of the input: the build phase, the extraction phase on the heap it leaves, then `sorted [0]`; it is the only step for n <= 1; highlights are `[n/2-1]` down to `[0]`; sorted steps are `[n-1]` down to `[1]` then `[0]`; compares and swaps pair up; the full replay is an ascending permutation of the input with every index marked |
| HeapSort.SortCopy | client/src/lib/algorithms/sorting/heapSort.ts:5-92 | the two phases and the closing mark on the working copy record exactly `HeapSteps` of the original, and that trace has the shape `HeapTrace` describes |
| AStar.Flat | client/src/lib/algorithms/pathfinding/aStar.ts:65 | the flat index y*w+x of a grid node lies in [0, w*h) |
| AStar.FlatInjective | client/src/lib/algorithms/pathfinding/aStar.ts:65 | distinct grid nodes have distinct flat indices |
| AStar.Heuristic | client/src/lib/algorithms/pathfinding/aStar.ts:14-16 | the Manhattan distance is zero exactly at the goal and bounded by the coordinates |
| AStar.HeuristicStep | client/src/lib/algorithms/pathfinding/aStar.ts:14-16 | one unit step changes the heuristic by exactly one |
| AStar.Neighbours | client/src/lib/algorithms/pathfinding/aStar.ts:85-90 | the neighbours listed are exactly the in-grid nodes one step away, without repeats |
| AStar.FirstLowest | client/src/lib/algorithms/pathfinding/aStar.ts:53-61 | the chosen position has the least f of the open list, and every earlier position a strictly larger f |
| AStar.LowestF | client/src/lib/algorithms/pathfinding/aStar.ts:53-61 | the scan loop returns exactly `FirstLowest` of the open list and the f array |
| AStar.RelaxNext | client/src/lib/algorithms/pathfinding/aStar.ts:92-121 | handling one neighbour leaves the closed set as it is; the open list gains that neighbour exactly when it is not closed and loses nothing; every other node keeps its g and f; steps are only appended |
| AStar.Relax | client/src/lib/algorithms/pathfinding/aStar.ts:92-121 | the loop body on the score arrays leaves exactly the scores, open list and steps `RelaxNext` gives |
| AStar.RelaxAll | client/src/lib/algorithms/pathfinding/aStar.ts:92-122 | handling the neighbours in order leaves the closed set as it is, adds exactly the neighbours not closed to the open list and only appends steps |
| AStar.RelaxKeeps | client/src/lib/algorithms/pathfinding/aStar.ts:92-121 | handling one neighbour keeps the open list off the closed set, without repeats and with f = g + h; it keeps every open node; it leaves the neighbour open or closed; it only appends steps, each a well-formed highlight or compare, with every highlight followed by the compare of the same node |
| AStar.ExpandNeighbours | client/src/lib/algorithms/pathfinding/aStar.ts:92-122 | the neighbour loop leaves exactly the state `RelaxAll` gives over the neighbours up, down, left, right; afterwards every in-grid neighbour is open or closed and the open list is still well formed |
| AStar.RelaxRound | client/src/lib/algorithms/pathfinding/aStar.ts:92-122 | one turn of the neighbour loop keeps the open list well formed and growing, covers one more neighbour and appends only additions and updates |
| AStar.Expansion | client/src/lib/algorithms/pathfinding/aStar.ts:81-122 | expanding entry ci moves its node to the closed set, keeps the open list on the grid and only appends steps |
| AStar.Expand | client/src/lib/algorithms/pathfinding/aStar.ts:81-122 | the method leaves exactly the state `Expansion` gives and keeps the search invariant |
| AStar.OpenNotEmpty | client/src/lib/algorithms/pathfinding/aStar.ts:136-143 | on a wall-free grid with the goal not closed, the open list is never empty, so the open-set-empty step is never emitted |
| AStar.AllReached | client/src/lib/algorithms/pathfinding/aStar.ts:85-93 | a set holding the start and closed under neighbour steps holds every grid node |
| AStar.Round | client/src/lib/algorithms/pathfinding/aStar.ts:53-124 | one round on a non-goal node appends its visit, then leaves exactly the state `Expansion` gives for the node `FirstLowest` chose; the closed nodes grow by that node and the search invariant holds with the count one higher |
| AStar.Initial | client/src/lib/algorithms/pathfinding/aStar.ts:37-48 | the search starts with only the start node open, nothing closed and no steps |
| AStar.Start | client/src/lib/algorithms/pathfinding/aStar.ts:37-48 | two fresh, distinct score arrays holding the scores of `Initial`: g = 0 and f = h at the start |
| AStar.Run | client/src/lib/algorithms/pathfinding/aStar.ts:51-134 | the main loop as a value only ever appends to the trace |
| AStar.RunOpening | client/src/lib/algorithms/pathfinding/aStar.ts:53-69 | each round opens with the visit of the first open node of least f |
| AStar.RunOnce | client/src/lib/algorithms/pathfinding/aStar.ts:52-133 | a round with an open node ends in one of three ways: found after the goal's visit, the limit step after the 101st expansion, or the next round on the expanded state |
| AStar.StartExpansion | client/src/lib/algorithms/pathfinding/aStar.ts:52-121 | on a grid of more than one node the trace opens with the start's visit, then the highlight of its first neighbour and that neighbour's compare with g = 1 and f = 1 + h |
| AStar.FirstRound | client/src/lib/algorithms/pathfinding/aStar.ts:52-121 | from a lone open node with g = 0 that is not the goal, the first round records its visit, its first neighbour's highlight and that neighbour's scores |
| AStar.Advance | client/src/lib/algorithms/pathfinding/aStar.ts:51-133 | one iteration either ends the loop in exactly the state `Run` gives from the state before it, with a complete trace, or keeps the search invariant with the count one higher and leaves a state from which `Run` gives the same result |
| AStar.MainLoop | client/src/lib/algorithms/pathfinding/aStar.ts:51-134 | the loop ends in exactly the state `Run` gives from `Initial`, with a node still open and a trace of the shape `SearchTrace` describes |
| AStar.GenerateAStarSteps | client/src/lib/algorithms/pathfinding/aStar.ts:18-146 | the trace is exactly `AStarSteps`, the main loop from `Initial` followed by the exhausted step when the open list ran dry; for every w, h >= 1 the trace opens with the visit of (0,0), ends in one found step, visits no node twice and at most 101 nodes, has every earlier step a visit, highlight or compare naming one grid node, every highlight followed by the compare of the same node, every compare carrying g and f = g + h; it ends either with the goal's visit and `found [w*h-1]` or with 101 visits and the empty found step |
| AStar.OneByOne | client/src/lib/algorithms/pathfinding/aStar.ts:71-79 | on a 1×1 grid the trace is exactly the visit of (0,0) followed by `found [0]` |
| AStar.OneNodeOneVisit | client/src/lib/algorithms/pathfinding/aStar.ts:63-69 | on a one-node grid at most one visit is recorded |
| AStar.TraceKinds | client/src/lib/algorithms/pathfinding/aStar.ts:63-121 | every step but the last is a visit, highlight or compare |
| AStar.OneFound | client/src/lib/algorithms/pathfinding/aStar.ts:71-143 | exactly one found step, and no swap, overwrite or sorted step |
| AStar.IndicesInGrid | client/src/lib/algorithms/pathfinding/aStar.ts:63-131 | every step but the last has one index in [0, w*h); the last has `[w*h-1]` or none |
| AStar.ReplayUntouched | client/src/lib/algorithms/pathfinding/aStar.ts:18-146 | replaying an A* trace over any array shows it unchanged with nothing sorted, at every position |
| Playback.CanStepForward | client/src/pages/Visualizer.tsx:168 | from a position in range, the next button is enabled exactly when the next position is still a step of the trace |
| Playback.CanStepBackward | client/src/pages/Visualizer.tsx:169 | from a position in range, the previous button is enabled exactly when the previous position is still in range |
| Playback.StepForward | client/src/pages/Visualizer.tsx:162 | the next button moves to i+1 when stepping forward is possible and to len-1 otherwise, stays in [-1, len-1], and changes the index exactly when it is enabled |
| Playback.StepBackward | client/src/pages/Visualizer.tsx:163 | the previous button moves to i-1 when stepping back is possible and to -1 otherwise, stays in range, and changes the index exactly when it is enabled |
| Playback.EmptyTraceStays | client/src/pages/Visualizer.tsx:162-169 | on an empty trace the index is -1, forward keeps it there and neither button is enabled |
| Playback.StepsUndo | client/src/pages/Visualizer.tsx:162-163 | an enabled step forward is undone by a step back and vice versa |
| Playback.ForwardAppliesNext | client/src/pages/Visualizer.tsx:76-95 | stepping forward shows the previous state with the next step applied |
| Playback.Reset | client/src/pages/Visualizer.tsx:158-161 | reset stops playback and puts the index at -1, where the previous button is disabled |
| Playback.ResetShowsOriginal | client/src/pages/Visualizer.tsx:158-161 | after a reset the page shows the original array with nothing sorted |
| Playback.PlayPause | client/src/pages/Visualizer.tsx:157 | play/pause flips playing and keeps the index |
| Playback.Tick | client/src/pages/Visualizer.tsx:61-67 | a timer tick advances the index by exactly one while before the last step, and otherwise stops playback in place |
| Playback.Frame | client/src/pages/Visualizer.tsx:57-73 | one period of the playback effect keeps the index in range, never starts playback and never moves a paused index |
| Playback.PlayRuns | client/src/pages/Visualizer.tsx:57-73 | after n periods of playback from i the index is min(i+n, len-1) and playback runs exactly while i+n <= len-1 |
| Playback.PausedStays | client/src/pages/Visualizer.tsx:57-73 | a paused player never moves |
| Playback.ResetVisualization | client/src/pages/Visualizer.tsx:39-54 | regeneration keeps the new array, sets the index to -1 and stops playback; the trace is the bubble or selection trace of the array, exactly the heap trace `HeapSteps` of it, exactly the 10×10 A* trace `AStarSteps(GridSide, GridSide)` with `GridSide` = 10 (line 50), or empty for any other id |
| Routes.FindFrom | shared/routes.ts:34 | the search from i returns the first position at or after i where the text occurs, or none when there is no such position |
| Routes.IndexOf | shared/routes.ts:34 | a position is found exactly when the placeholder occurs, and it is the first occurrence |
| Routes.Replace | shared/routes.ts:35 | without an occurrence the url is unchanged; with one, a value without `$` changes the length by exactly the length difference |
| Routes.ReplaceWith | shared/routes.ts:35 | a value without `$` is put in literally in place of the occurrence |
| Routes.ReplaceAt | shared/routes.ts:35 | with the first occurrence at i, the result is the text before i, the value, and the text after the occurrence |
| Routes.Expand | shared/routes.ts:35 | every character of the inserted text comes from the value, the text before the match, the match or the text after it |
| Routes.ExpandLiteral | shared/routes.ts:35 | a replacement value without `$` is inserted literally |
| Routes.SubstituteOne | shared/routes.ts:34-36 | an entry whose placeholder does not occur leaves the url unchanged; otherwise the length changes by the value's length less the placeholder's |
| Routes.BuildUrl | shared/routes.ts:30-40 | without parameters the path is returned; with them, the path after each entry has acted in turn |
| Routes.NoEntries | shared/routes.ts:30-32 | an empty parameter list leaves the path unchanged |
| Routes.SubstituteAppend | shared/routes.ts:33-37 | entries are processed in order, each acting on the url the earlier ones left |
| Routes.AbsentUnchanged | shared/routes.ts:34 | entries none of whose placeholders occur leave the url unchanged |
| Routes.FirstOnly | shared/routes.ts:35 | only the first occurrence is replaced: a later occurrence survives, shifted by the change in length |
| Routes.SpliceOccurs | shared/routes.ts:35 | cutting an occurrence out and putting a value in its place moves a later occurrence by the change in length |
| Routes.AlgorithmUrl | shared/routes.ts:21 | the algorithm route with id `bubble-sort` builds `/api/algorithms/bubble-sort` |

## Left out

- Step descriptions and `toFixed` formatting are not modelled; a step keeps its kind, indices, values, line number and auxiliary data.
- The `auxiliary` field is modelled as node coordinates, optionally with the new g and f, which is all the A* generator stores there.
- The random input array (`generateRandomArray`, `Math.random`) is a parameter of `Playback.ResetVisualization`.
- The interval timer and the speed are not modelled; `Playback.Frame` is one period of the effect and `Playback.Tick` one firing of the interval.
- Concurrency of React state updates is not modelled; each handler is a function of the state before it.
- JSX rendering, colours, the progress percentage, the fetch hook and the server side are not modelled.
- `Reconstruction.Write`: an index outside the array writes nothing, where JavaScript would extend the array; the generators never produce such an index.
- `Reconstruction.Apply`: a swap whose values list has fewer than two entries is not written, where JavaScript would write `undefined`; the generators always give two values when they give any.
- `Reconstruction.StateAt`: a position past the last step is not allowed, since the page would read an undefined step there.
- `AStar.GenerateAStarSteps`: requires w, h >= 1, since on an empty grid the source reads an undefined goal node.
- `AStar.Start`: the g and f scores are arrays of naturals that start at 0 instead of `Infinity`; only entries of nodes in the open list are read, and those are always set before they are read.
- The `h` and `parent` node fields are not modelled: `h` is recomputed as the heuristic and `parent` is never read.
- The open-set-empty step (`AStar.SearchExhausted`) is modelled but never emitted, as `AStar.OpenNotEmpty` proves.
- `AStar.GenerateAStarSteps`: the exact 1×1 trace is stated by the lemma `AStar.OneByOne`, not in the method's contract.
- `HeapSort.Heapify`: the method itself requires every node from lo on other than the root to be in heap order, which both call sites give; the subtree-only precondition is stated in its conditional ensures and proved for `HeapSort.Sift` by `HeapSort.SiftSubtree`.
- `AStar.Neighbours`: the up, down, left, right order is fixed by its definition; the contract states membership and the absence of repeats.
- Grid walls are not modelled, since the generator never sets one.
- Number-to-string conversion in `buildUrl` is not modelled: parameter values are strings, and the entries of the parameter object are a sequence of pairs in property order.
- `Routes.Replace`: the exact result is stated by `Routes.ReplaceAt` for values without `$`; for values with `$` the replacement patterns are defined by `Routes.Expand` but no further property is proved.
- The JavaScript number type is modelled by unbounded integers; all values in the model are small.
