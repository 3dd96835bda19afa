# Algorithms course exercises in Dafny

This project models the core of a collection of Java solutions to classic
algorithms exercises and proves properties of the model:

- **8puzzle**: an immutable n-by-n sliding-tile `Board` with cached blank
  index, Hamming and Manhattan distances, and the A* `Solver` that runs the
  initial board and its twin against each other in one priority queue
  (`board.dfy`, module `Boards`; `solver.dfy`, module `Solving`).
- **queues**: the doubly linked `Deque` (`deque.dfy`, module `Deques`) and the
  resizing-array `RandomizedQueue` with swap-with-last removal
  (`randomized_queue.dfy`, module `RandomizedQueues`).
- **percolation**: the `Percolation` grid of open and full sites with its
  1-based coordinates and the recursive flood fill of fullness
  (`percolation.dfy`, module `Percolations`).
- **kdtree**: the 2-d tree `KdTree`, insertion and membership
  (`kdtree.dfy`, module `KdTrees`).
- **collinear**: the natural order of `Point` and the case structure of
  `slopeTo` (`point.dfy`, module `Points`).

`wrappers.dfy` (module `Wrappers`) holds `Option`, the exceptions the code
throws, `Result` for a method that returns a value or throws, and `Status` for
a `void` method that returns or throws.

How the Java is represented:

- Java exceptions are values: `Err(e)` or `Failure(e)` stands for throwing
  `e`. Each contract says where the throws it models happen. The throws
  that are not modelled are listed under "Left out".
- A `null` argument that the source tests for is `Option.None`. Arguments
  that the model types as plain values cannot be null: a board's grid and
  its rows, and the argument of `Board.equals`.
- `Board` and `Point` are immutable, so they are datatypes with pure
  functions. Board's main constructor fills the tile array in nested loops,
  so it is a method over an `array`.
- `Deque`, `RandomizedQueue`, `Percolation` and `KdTree` are classes whose
  methods change their fields in place.
- Each of these classes carries ghost state naming what it holds: the deque's
  node sequence, the queue's array prefix, and the tree's value as a `KTree`.
  Each method's contract is stated against that ghost state.
- The 2-d tree's ordering, membership and counting are proved on the pure
  `KTree` value. The heap methods are proved to transform that value exactly
  as the pure `Insert` and `Search` do.
- The solver's priority queue is a set of indices into an arena of search
  nodes, with extract-min under `compareTo`. Its stack is a sequence.
- Java's narrowing casts `(char)` and `(short)` are modelled exactly, as
  `ToChar` and `ToShort`.

## Model

| member | source | states |
|---|---|---|
| Boards.ToChar | 8puzzle/Board.java:27 | the `(char)` cast lands in 0 .. 65535, is congruent to its argument modulo 2^16, and keeps an argument already in range |
| Boards.ToShort | 8puzzle/Board.java:14 | the `(short)` cast lands in -32768 .. 32767, is congruent modulo 2^16, keeps an in-range argument and never grows a non-negative one |
| Boards.ToPosition | 8puzzle/Board.java:220-223 | `y * size + x` is a cell of the flat array, and its quotient and remainder by `size` give back `y` and `x` |
| Boards.IsAtPosition | 8puzzle/Board.java:225-228 | a tile is "at its position" exactly when the goal layout puts that tile in that cell, and the blank never is |
| Boards.CalcManhattan | 8puzzle/Board.java:213-218 | a tile's Manhattan distance is 0 exactly when the tile is at its home cell (`isAtPosition`) |
| Boards.SameCell | 8puzzle/Board.java:217 | two cells with the same row and column are the same cell |
| Boards.LastBlank | 8puzzle/Board.java:29-30 | the blank index the constructor loop leaves: the last cell holding 0, or 0 when there is none |
| Boards.Swap | 8puzzle/Board.java:51-53 | the copy has the two cells exchanged and every other cell unchanged |
| Boards.Flatten | 8puzzle/Board.java:21-27 | the row-major flat array of the first `rows` rows has `rows * size` cells, each a `char` |
| Boards.NewBoard | 8puzzle/Board.java:12-37 | a `(short)` length below 2 throws `IllegalArgumentException`; a row shorter than the size throws `ArrayIndexOutOfBoundsException`; otherwise the tiles are the flattened grid and the cached blank, Hamming and Manhattan values agree with them |
| Boards.ReadGrid | 8puzzle/Board.java:22-36 | the row loop succeeds exactly when every row is long enough, and yields the flattened tiles with the blank index and both distances computed from scratch |
| Boards.ReadRow | 8puzzle/Board.java:23-35 | one row of the loop: it fails exactly on a short row, and otherwise extends the tiles read so far and their blank index and distances by that row |
| Boards.ReadCell | 8puzzle/Board.java:24-34 | one cell: the tile is stored at its flat position, and the blank index, Hamming and Manhattan values cover it |
| Boards.AppendCell | 8puzzle/Board.java:29-34 | appending a cell moves the blank index only for a blank, and adds that cell's misplacement and Manhattan distance to the totals |
| Boards.ReadBoardValid | 8puzzle/Board.java:12-37 | a board whose cached values are computed from scratch is valid |
| Boards.Derive | 8puzzle/Board.java:42-82 | the derived board's tiles are the parent's with two cells swapped, its incrementally updated Hamming and Manhattan values equal the from-scratch ones, and its blank index holds a blank (with several blanks, not necessarily the last one) |
| Boards.DeriveKeepsPuzzle | 8puzzle/Board.java:42-82 | on a puzzle board, `derive` gives a puzzle board whose blank index is the one the main constructor would compute |
| Boards.HammingUpdate | 8puzzle/Board.java:56-73 | overwriting one cell changes the Hamming count by that cell's new misplacement minus its old one |
| Boards.ManhattanUpdate | 8puzzle/Board.java:56-73 | overwriting one cell changes the Manhattan total by that cell's new distance minus its old one |
| Boards.SwapHamming | 8puzzle/Board.java:56-73 | after a swap, the Hamming count equals the old count plus the new contributions of the two cells minus their old ones |
| Boards.SwapManhattan | 8puzzle/Board.java:56-73 | after a swap, the Manhattan total equals the old total plus the new contributions of the two cells minus their old ones |
| Boards.SwapKeepsPermutation | 8puzzle/Board.java:51-53 | swapping two cells keeps the tiles a permutation of 0 .. n*n-1 |
| Boards.IsGoal | 8puzzle/Board.java:102-105 | on a valid board, `isGoal` holds exactly when no non-blank tile is misplaced |
| Boards.HammingZero | 8puzzle/Board.java:102-105 | the Hamming count is 0 exactly when no non-blank tile is misplaced |
| Boards.GoalIsSolvedLayout | 8puzzle/Board.java:102-105 | on a puzzle board, `isGoal` (Hamming 0) holds exactly when the tiles are 1 .. n*n-1 followed by the blank |
| Boards.HammingBound | 8puzzle/Board.java:29-33 | the Hamming count is at most the number of cells, and smaller when a blank is present |
| Boards.ContributionBound | 8puzzle/Board.java:213-218 | on a puzzle board one tile adds at most `2*(n-1)` to the Manhattan total |
| Boards.ManhattanBound | 8puzzle/Board.java:29-33 | with tiles below `n*n`, the Manhattan total is at most `2*(n-1)` per cell |
| Boards.PuzzleFits | 8puzzle/Board.java:29-33 | on a puzzle board at most 1000 wide, `0 <= hamming <= manhattan <= 1998000000`, so neither `int` sum can wrap |
| Boards.ManhattanDominatesHamming | 8puzzle/Board.java:213-228 | Manhattan is at least Hamming, and is 0 exactly when Hamming is |
| Boards.Twin | 8puzzle/Board.java:110-119 | the twin swaps cells `size` and `size + 1` when the blank is in row 0 and cells 0 and 1 otherwise; on a puzzle board the two cells are non-blank and the tiles change |
| Boards.TwinPair | 8puzzle/Board.java:110-119 | the pair the twin swaps lies on the board, holds no blank, and the swap yields a different puzzle board |
| Boards.BlankUnique | 8puzzle/Board.java:29-30 | on a puzzle board, no cell other than the blank index holds the blank |
| Boards.MoveTargets | 8puzzle/Board.java:125-139 | the blank has 2 to 4 distinct moves, in the order left, right, up, down |
| Boards.MoveTargetsAdjacent | 8puzzle/Board.java:125-139 | the moves are exactly the cells orthogonally adjacent to the blank |
| Boards.Neighbors | 8puzzle/Board.java:121-142 | one board per move, in order, each the parent with the blank swapped into that cell, each valid, and on a puzzle board each with the blank at that cell |
| Boards.NeighborAt | 8puzzle/Board.java:128-139 | a single neighbour: valid, the blank swapped with the target cell |
| Boards.NeighborsDistinct | 8puzzle/Board.java:121-142 | the neighbours of a puzzle board are pairwise different |
| Boards.ManhattanStep | 8puzzle/Board.java:121-142 | every neighbour's Manhattan distance differs from the parent's by exactly 1 |
| Boards.StepDistance | 8puzzle/Board.java:213-218 | moving a tile to an adjacent cell changes its Manhattan distance by exactly 1 |
| Boards.Equals | 8puzzle/Board.java:144-162 | on valid boards `equals` holds exactly when the boards are equal, and on puzzle boards exactly when size and tiles agree |
| Solving.Priority | 8puzzle/Solver.java:29 | on a valid board the priority is at least the step count, and equal to it exactly at a goal |
| Solving.CompareFits | 8puzzle/Solver.java:32-52 | for puzzle boards at most 1000 wide and `short` steps, the priority and each subtraction `compareTo` makes fit an `int`, so the sign matches the source |
| Solving.CompareTo | 8puzzle/Solver.java:32-52 | `compareTo` is negative, positive or zero exactly as the key (priority, non-twin first, Manhattan, Hamming) is lexicographically smaller, larger or equal |
| Solving.LexLess4 | 8puzzle/Solver.java:32-52 | the lexicographic order on four-component keys, case by case |
| Solving.LexAsymmetric | 8puzzle/Solver.java:32-52 | the lexicographic order is irreflexive and asymmetric |
| Solving.LexTransitive | 8puzzle/Solver.java:32-52 | the lexicographic order is transitive |
| Solving.LexTotal | 8puzzle/Solver.java:32-52 | two different keys are ordered one way or the other |
| Solving.CompareAntisymmetric | 8puzzle/Solver.java:32-52 | swapping the operands of `compareTo` flips the sign, and zero stays zero |
| Solving.CompareTransitive | 8puzzle/Solver.java:32-52 | `compareTo` is transitive, both for "at most" and for "strictly before" |
| Solving.CompareTotal | 8puzzle/Solver.java:32-52 | any two nodes are comparable |
| Solving.MinExists | 8puzzle/Solver.java:69 | a non-empty queue has a minimum under `compareTo`, so `delMin` is defined |
| Solving.NeighborSlides | 8puzzle/Solver.java:77 | each neighbour is one slide of the blank away from its board |
| Solving.NeighborsSlide | 8puzzle/Solver.java:77 | every board in `neighbors()` is one slide away |
| Solving.SlideKeepsPuzzle | 8puzzle/Solver.java:77-81 | a slide from a puzzle board gives a puzzle board |
| Solving.ArenaAt | 8puzzle/Solver.java:61-81 | node 0 is the initial board and node 1 its twin, both with 0 steps and no parent, tagged false and true; every later node is a child: a slide from its parent, not the grandparent's board, with the parent's tag and one more (`short`) step |
| Solving.ArenaParents | 8puzzle/Solver.java:78-81 | every parent link points to an earlier node |
| Solving.Path | 8puzzle/Solver.java:89-93 | following parent links from a node gives a sequence of boards ending with that node's board |
| Solving.PathShape | 8puzzle/Solver.java:89-93 | that sequence starts at its branch's root (the initial board or its twin), has one board per step plus one, and is a chain of slides none of which undoes the one before |
| Solving.Kept | 8puzzle/Solver.java:77-80 | the neighbours that are not skipped are at most as many as the neighbours |
| Solving.KeptMembers | 8puzzle/Solver.java:77-80 | a board is kept exactly when it is a neighbour and not the parent's board |
| Solving.KeptSize | 8puzzle/Solver.java:77-80 | at most one neighbour is skipped, and none when the parent's board is not among them |
| Solving.ChildNodes | 8puzzle/Solver.java:81 | each kept board becomes a node with one more step, the current node as parent and the same twin tag |
| Solving.Expand | 8puzzle/Solver.java:77-82 | one expansion appends the children of the dequeued node, keeps the arena well-formed, enqueues exactly the new nodes, and on a puzzle board adds at least one |
| Solving.AddChildren | 8puzzle/Solver.java:77-82 | the loop over the neighbours appends exactly the kept children and enqueues their indices |
| Solving.ExpandArena | 8puzzle/Solver.java:77-82 | appending the children of a node keeps the arena well-formed |
| Solving.ExpandGrows | 8puzzle/Solver.java:77-82 | expanding a puzzle board adds at least one node |
| Solving.Rebuild | 8puzzle/Solver.java:89-93 | pushing boards while following parent links produces exactly the path from the root to the goal |
| Solving.NextRound | 8puzzle/Solver.java:68-83 | appending a round to the record of the search keeps the earlier rounds |
| Solving.ExpandRound | 8puzzle/Solver.java:76-82 | expanding a non-goal minimum keeps the arena well-formed, records the round (children appended and queued in its place), and on a puzzle board leaves the queue non-empty |
| Solving.Search | 8puzzle/Solver.java:61-83 | the queue starts with the two roots; each round removes a minimum under `compareTo` that is not a goal and queues exactly its children; the loop stops out of fuel only after `fuel` such rounds, on an empty queue only for a board that is not a permutation, and otherwise at a goal that is a minimum of the queue |
| Solving.RootsMin | 8puzzle/Solver.java:32-66 | when the initial board is the goal, its root ranks strictly before the twin's root |
| Solving.GoalFoundFirst | 8puzzle/Solver.java:61-72 | a search from the goal board with fuel at least 1 expands nothing and stops at the initial board's root |
| Solving.FoundGoal | 8puzzle/Solver.java:69-93 | a goal node ends a sequence of slides from its branch's root whose length is its step count plus one |
| Solving.Solve | 8puzzle/Solver.java:55-94 | null throws `NullPointerException`; the outcome is that of the recorded best-first search: out of fuel gives `Ok(None)`, an empty queue `NoSuchElementException`, a twin goal `solvable == false`, `moves == -1` and no solution, and an original goal `solvable`, `moves` equal to the goal's steps and the path from the initial board to the goal by slides; a goal board with fuel at least 1 is solved with 0 moves and the solution `[initial]` |
| Deques.Deque.Contents | queues/Deque.java:4-8 | the items are the nodes' items, first to last |
| Deques.Deque.constructor | queues/Deque.java:10-13 | a new deque is empty and satisfies the link invariant |
| Deques.Deque.IsEmpty | queues/Deque.java:82-85 | `first == null` holds exactly when no item is held |
| Deques.Deque.Size | queues/Deque.java:87-90 | `size` is the number of items |
| Deques.Deque.AddFirst | queues/Deque.java:92-109 | null throws `NullPointerException` and changes nothing; otherwise the contents become the item followed by the old contents, and the links stay consistent |
| Deques.Deque.AddLast | queues/Deque.java:111-128 | null throws `NullPointerException` and changes nothing; otherwise the contents become the old contents followed by the item |
| Deques.Deque.RemoveFirst | queues/Deque.java:130-149 | empty throws `NoSuchElementException`; otherwise the old first item is returned and the contents become the rest |
| Deques.Deque.RemoveLast | queues/Deque.java:151-169 | empty throws `NoSuchElementException`; otherwise the old last item is returned and the contents drop it |
| Deques.Deque.Elements | queues/Deque.java:186-213 | iterating from `first` along `next` yields the contents, first to last |
| Deques.IterationOrder | queues/Deque.java:51-59 | adding 1, 2, 3 at the back and 0, -1, -2 at the front, iteration gives -2, -1, 0, 1, 2, 3 |
| RandomizedQueues.RandomizedQueue.constructor | queues/RandomizedQueue.java:14-17 | a new queue has capacity 2 and no items |
| RandomizedQueues.RandomizedQueue.IsEmpty | queues/RandomizedQueue.java:90-93 | `size == 0` exactly when no item is held |
| RandomizedQueues.RandomizedQueue.Size | queues/RandomizedQueue.java:95-98 | `size` is the number of items |
| RandomizedQueues.RandomizedQueue.Resize | queues/RandomizedQueue.java:159-166 | a fresh array of the new capacity holding the same items, every other slot null |
| RandomizedQueues.RandomizedQueue.Enqueue | queues/RandomizedQueue.java:103-117 | null throws `NullPointerException`; otherwise a full array doubles first and the item is appended at slot `last` |
| RandomizedQueues.RandomizedQueue.Dequeue | queues/RandomizedQueue.java:119-145 | empty throws `NoSuchElementException`; otherwise the chosen item is returned, the last item moves into its slot, exactly one occurrence leaves the multiset of items, and the array halves when a quarter full |
| RandomizedQueues.RandomizedQueue.TakeSlot | queues/RandomizedQueue.java:128-137 | the removal step: the last item moves into the chosen slot and the freed slot becomes null |
| RandomizedQueues.RandomizedQueue.Sample | queues/RandomizedQueue.java:147-157 | empty throws `NoSuchElementException`; otherwise the item in the chosen slot, one of those held, and nothing changes |
| RandomizedQueues.RandomizedQueue.IteratorCopy | queues/RandomizedQueue.java:76-85 | the iterator's array is a fresh copy of exactly the items held |
| RandomizedQueues.TakeSlots | queues/RandomizedQueue.java:128-137 | after the removal step, the slots in use still hold items and those above are null, and the items are the old ones with the chosen one swapped out |
| RandomizedQueues.SwapOut | queues/RandomizedQueue.java:132-137 | removal by swap-with-last leaves one item fewer and removes exactly one occurrence of the chosen item |
| RandomizedQueues.SwapRemove | queues/RandomizedQueue.java:132-137 | overwriting a slot with the last item and dropping the last slot removes exactly one occurrence of that slot's item |
| Percolations.ValidCoords | percolation/Percolation.java:113-116 | coordinates accepted by `isValidCoords` map to a cell in 0 .. n*n-1 |
| Percolations.CellInjective | percolation/Percolation.java:118-125 | different valid coordinates map to different cells |
| Percolations.SpreadTrans | percolation/Percolation.java:127-150 | two flood fills in a row leave behind what one fill would |
| Percolations.SpreadFromStart | percolation/Percolation.java:127-150 | marking a site full and filling from its neighbours is a flood fill from the state before |
| Percolations.FillReaches | percolation/Percolation.java:127-150 | after a flood fill from a site, every site reachable from it through open, not-yet-full sites is full |
| Percolations.ConfinedStart | percolation/Percolation.java:129-130 | marking the start site full fills only that site |
| Percolations.ConfinedExtend | percolation/Percolation.java:131-149 | a fill continued from a neighbour still fills only sites reachable from the start through open sites that were not full |
| Percolations.FillExact | percolation/Percolation.java:127-150 | a flood fill makes full exactly the sites reachable from its start through open sites that were not full before |
| Percolations.Percolation.constructor | percolation/Percolation.java:8-26 | all n*n sites start blocked and not full |
| Percolations.Percolation.Create | percolation/Percolation.java:8-26 | `N < 1` throws `IllegalArgumentException`; otherwise a new grid with every site blocked and not full |
| Percolations.Percolation.XyTo1D | percolation/Percolation.java:113-125 | `(y, x)` in 1 .. N squared maps to `N*(y-1) + x` in 1 .. N*N; anything else throws `IndexOutOfBoundsException` |
| Percolations.Percolation.IsOpen | percolation/Percolation.java:92-95 | the open flag of a valid site; invalid coordinates throw |
| Percolations.Percolation.IsFull | percolation/Percolation.java:100-103 | the full flag of a valid site, and a full site is open; invalid coordinates throw |
| Percolations.Percolation.PropagateFullness | percolation/Percolation.java:127-150 | the site becomes full, fullness only grows, every newly full site has all its open neighbours full, and every newly full site is reachable from the start through open sites that were not full |
| Percolations.Percolation.VisitAround | percolation/Percolation.java:131-149 | the four guarded calls leave every open neighbour full, spread, and stay confined to walks from the site |
| Percolations.Percolation.VisitNext | percolation/Percolation.java:132-134 | one guarded call: the neighbour ends full if open, and the fill stays spread and confined |
| Percolations.Percolation.Visit | percolation/Percolation.java:132-148 | the guarded recursive call: an open site ends full, fullness only grows, the fill spreads, and it reaches only sites connected to the call's site through open sites that were not full |
| Percolations.Percolation.TouchesFull | percolation/Percolation.java:41-82 | the `full` flag `open` computes: top row, or an open full neighbour |
| Percolations.Percolation.Open | percolation/Percolation.java:28-87 | invalid coordinates throw; opening an open site changes nothing; otherwise only that site's open flag changes, and it becomes full exactly when it is in the top row or next to an open full site, in which case fullness floods to exactly the open sites it reaches |
| KdTrees.GoesLeft | kdtree/KdTree.java:243 | the branch test holds exactly when the point's key (`x` at a HORIZONTAL node, `y` at a VERTICAL one) is smaller than the node's |
| KdTrees.ChildRectSide | kdtree/KdTree.java:37-60 | a child's rectangle is the part of the parent's on its side of the parent's split line |
| KdTrees.Search | kdtree/KdTree.java:260-277 | the search answers true only for a point the subtree holds |
| KdTrees.SearchFindsMembers | kdtree/KdTree.java:260-277 | in an ordered tree the search finds exactly the points held |
| KdTrees.Insert | kdtree/KdTree.java:233-258 | insertion adds the point and keeps every other one |
| KdTrees.InsertOrdered | kdtree/KdTree.java:243-255 | insertion keeps the 2-d tree order: smaller key on the left, at least as large on the right, alternating `x` and `y` |
| KdTrees.InsertPresent | kdtree/KdTree.java:237-239 | inserting a point already present changes nothing |
| KdTrees.InsertThenSearch | kdtree/KdTree.java:233-277 | after an insertion the point is found, and every point found before still is |
| KdTrees.InsertCount | kdtree/KdTree.java:154-162 | insertion grows the number of distinct points exactly when the point was not found |
| KdTrees.Node.Root | kdtree/KdTree.java:23-32 | the root holds the point and the unit square |
| KdTrees.Node.Child | kdtree/KdTree.java:37-60 | a leaf holds the point and the parent's rectangle cut at the parent's split coordinate on the side given by `position` |
| KdTrees.ContainsAt | kdtree/KdTree.java:260-277 | the recursive `contains` answers what the search on the subtree's value answers |
| KdTrees.InsertAt | kdtree/KdTree.java:233-258 | the recursive `insert` turns the subtree into the pure insertion's result and returns 0 exactly when the point was already there |
| KdTrees.InsertLeft | kdtree/KdTree.java:243-248 | the left branch: a new leaf or the insertion one level down |
| KdTrees.InsertRight | kdtree/KdTree.java:249-255 | the right branch: a new leaf or the insertion one level down |
| KdTrees.KdTree.constructor | kdtree/KdTree.java:140-142 | a new tree holds no points |
| KdTrees.KdTree.IsEmpty | kdtree/KdTree.java:144-147 | `size == 0` exactly when no point is held |
| KdTrees.KdTree.Size | kdtree/KdTree.java:149-152 | `size` is the number of distinct points |
| KdTrees.KdTree.Insert | kdtree/KdTree.java:154-162 | null throws `NullPointerException`; otherwise the point is added, and the size grows by one exactly when it is new |
| KdTrees.KdTree.InsertBelowRoot | kdtree/KdTree.java:159-161 | insertion below an existing root adds the point and grows the size only for a new point |
| KdTrees.KdTree.Contains | kdtree/KdTree.java:164-171 | null throws `NullPointerException`; otherwise true exactly when the point is held |
| Points.Wrap32 | collinear/Point.java:72 | `int` subtraction: the result fits 32 bits, is congruent modulo 2^32, and equals a difference that already fits |
| Points.CompareTo | collinear/Point.java:75-88 | -1, 0 or 1; 0 exactly for equal points, -1 exactly when below by `y` then `x`, 1 exactly when above |
| Points.CompareAntisymmetric | collinear/Point.java:75-88 | swapping the points negates the result |
| Points.CompareTransitive | collinear/Point.java:75-88 | "less than" is transitive |
| Points.SlopeTo | collinear/Point.java:55-73 | negative infinity exactly for equal points, positive zero for equal `y`, positive infinity for equal `x` (in that order), and otherwise the ratio of the wrapped differences, both non-zero |
| Points.SlopeSymmetric | collinear/Point.java:55-73 | the kind of slope does not depend on the order of the points |

## Left out

- Console, graphics and file I/O are left out: every `main` method, `toString`, `draw` and `drawTo`, and the uses of `StdOut`, `StdDraw`, `In` and `Stopwatch`.
- `MinPQ` and `Stack` are not part of this model. The queue is a set of arena indices with extract-min under `compareTo`. The stack is a sequence whose push prepends.
- Solving.Solve: the search loop removes at most `fuel` nodes from the queue, and running out of fuel returns `Ok(None)`. Among nodes that tie under `compareTo`, `MinPQ` picks one the model leaves open. The loop in the source need not terminate on a board that is not a permutation. The contract does not claim that the solution has the fewest moves.
- Solving.Search: an empty queue, where `delMin` throws `NoSuchElementException`, is proved possible only for a board that is not a permutation. That the search reaches a goal at all is not proved.
- `WeightedQuickUnionUF`, the `union` calls in `open` and `percolates()` are not part of this model, because the union-find library is not shown.
- Percolations.Percolation.Open: states that fullness floods through open sites. It does not state the invariant "full exactly when connected to the top row" across a sequence of `open` calls.
- `StdRandom.uniform` is left out: the random slot is the parameter `choice` of `Dequeue` and `Sample`.
- RandomizedQueues.RandomizedQueue.IteratorCopy: models the copy the iterator takes, not the `StdRandom.shuffle` of it nor the iterator's `next`.
- Deques.Deque.Elements: models one complete pass of `ListIterator`, not `remove` (which throws) nor `next` on an exhausted iterator.
- KdTree `range`, `nearest`, `draw` and the `Node` distance and intersection helpers are left out: they compute with `double`s. Coordinates are `real`, which is sound only because insertion and membership use `<` and `==` alone.
- Rectangles are computed by `Node.Child` but are not part of the node invariant, since nothing modelled reads them.
- `kdtree/PointSET.java`, `collinear/Fast.java`, `collinear/Brute.java`, `percolation/PercolationStats.java` and `queues/Subset.java` are not part of this model.
- Points.SlopeTo: the `double` quotient of a proper slope and `SlopeComparator` are not modelled. The result keeps the two wrapped `int` differences.
- Boards.NewBoard, Boards.Derive: the `int` sums `hamming` and `manhattan` are unbounded integers. Boards.PuzzleFits proves that they fit an `int` on puzzle boards at most 1000 wide. Wrap-around on wider boards, or on boards that are not permutations and hold large tiles, is not modelled.
- Solving.Priority, Solving.CompareTo: the priority and the three subtractions of `compareTo` are exact. Solving.CompareFits proves that they fit an `int` under the same bound, so the source's sign agrees with the model's there. Beyond it, wrap-around is not modelled.
- Boards.NewBoard: `new Board(null)` and a `null` row throw `NullPointerException` (Board.java lines 14 and 27). These throws are not modelled, because the grid is a sequence of sequences, which cannot be null.
- Boards.Equals: `equals(null)` returning false, the identity shortcut and the `getClass` test (Board.java lines 146-155) are not modelled, because the argument is a `Board` value.
- Java `int` overflow of `size` counters, of `items.length * 2` and of `size * size` is not modelled. Those values are unbounded integers. `(char)`, `(short)` and the `int` differences in `slopeTo` are modelled exactly.
