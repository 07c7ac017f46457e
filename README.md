# Snake AI: a verified model

This project is a Dafny model of the core of a program that plays snake on a
`width` x `height` grid. It covers six parts:

- tuple arithmetic (`common.py`);
- a growable bitset (`bitset.py`);
- the game itself (`snake.py`);
- three generic searches (`search.py`);
- grid helpers and the simple strategies (`ai.py`);
- the supercell strategy (`supercellerator.py`). It keeps a closed cycle of
  2x2 blocks around the snake, walks each block clockwise, and splices in a
  detour when a new goal appears.

Each source file is one Dafny module:

| module | file | form |
|---|---|---|
| `Common` | `common.dfy` | pure functions and lemmas |
| `Bits` | `bitset.dfy` | class `Bitset`, whose word list is a `seq<nat>` field |
| `Game` | `snake.dfy` | class `Snake`, with the fields that `advance` updates |
| `Search` | `search.dfy` | methods with loops over Dafny function values |
| `Ai` | `ai.dfy` | BFS and DFS loops as methods; direction choices as functions |
| `Supercellerator` | `supercellerator.dfy` | loops as methods; table and cycle algebra as functions; the strategy as a method on `Snake` |

Modelling conventions:

- Positions are 2-element integer sequences (`Common.Point`).
- Words of the bitset are unbounded naturals, as Python integers are.
- An exception the source raises becomes `Err` of a `Result`.
- `None` becomes `Option.None`.
- Every loop whose termination the source does not guarantee runs on an
  explicit `fuel` budget and reports `OutOfFuel`.
- Randomness becomes a nondeterministic choice (`:|`).
- The callbacks of the searches are pure function values. A callback that
  keeps state between calls takes that state as an argument and returns it
  updated. This applies to `list_moves` of `shortest_path` and its `checked`
  set.

## Model

| member | source | states |
|---|---|---|
| Common.Add | common.py:5-6 | the result is as long as the shorter tuple, and each coordinate is the sum of the two inputs' coordinates |
| Common.Sub | common.py:8-9 | the result is as long as the shorter tuple, and each coordinate is the difference of the inputs' coordinates |
| Common.GridDistance | common.py:14-15 | the distance is the sum of the absolute values of the componentwise difference |
| Common.InBounds | common.py:18-20 | true exactly when every zipped coordinate lies in `[0, dimension)` |
| Common.AddSubRoundTrip | common.py:5-9 | subtracting `b` from `a + b` gives `a` back |
| Common.SubAddRoundTrip | common.py:5-9 | adding `a - b` to `b` gives `a` back |
| Common.ShiftDiff | common.py:5-9 | on 2-tuples, stepping from `b` by `a - b` lands on `a` |
| Common.ShiftIsAdd | common.py:5-6 | the 2-tuple sum is `add_elements` |
| Common.DiffIsSub | common.py:8-9 | the 2-tuple difference is `subtract_elements` |
| Common.DistanceZeroIff | common.py:14-15 | the distance between equal-length tuples is zero exactly when they are equal |
| Common.DistanceSymmetric | common.py:14-15 | the distance does not depend on argument order |
| Common.DistanceTriangle | common.py:14-15 | the distance satisfies the triangle inequality |
| Common.DistanceOfStep | common.py:14-15 | moving by an offset changes the distance by the offset's size |
| Common.DistanceOfAxisStep | common.py:14-15 | a step along one axis moves a point by its length |
| Common.GridDistance2 | common.py:14-15 | the 2-D distance is `|dx| + |dy|` |
| Bits.OrBitBits | bitset.py:33 | or-ing in bit `k` sets bit `k` and keeps every other bit |
| Bits.MinusBitBits | bitset.py:40 | subtracting a set bit `k` clears bit `k` and keeps every other bit |
| Bits.BitPastEnd | bitset.py:21-26 | an index whose word is past the end reads as unset |
| Bits.PaddedEqualIffSameBits | bitset.py:8-16 | word lists are equal after zero padding exactly when they have the same bits set at every index |
| Bits.SetWordBits | bitset.py:28-33 | the words after `set` hold exactly the old bits plus `idx` |
| Bits.ClearWordBits | bitset.py:35-40 | subtracting the bit from its word clears `idx`, keeps every other bit and keeps the words in 64 bits |
| Bits.GetAsWritten | bitset.py:21-26 | `get` as written raises exactly when the index's word is one past the last word, and otherwise reads the bit |
| Bits.GetAsWrittenFailsOnEmpty | bitset.py:24 | on a fresh bitset `get(0)` raises, though bit 0 is unset |
| Bits.Bitset.constructor | bitset.py:4-6 | a new bitset has no words and no bit set |
| Bits.Bitset.Get | bitset.py:21-26 | the result is whether bit `idx` is set; indices past the last word read as unset |
| Bits.Bitset.Pad | bitset.py:31-32 | zero words are appended until word `n` exists; existing words are unchanged |
| Bits.Bitset.Set | bitset.py:28-33 | afterwards bit `idx` is set, every other bit is as before, the words stay in 64 bits, and the list grows only to hold the index's word |
| Bits.Bitset.Clear | bitset.py:35-40 | afterwards bit `idx` is unset and every other bit is as before; a bit already clear leaves the words unchanged; the length never changes |
| Bits.Bitset.Equals | bitset.py:8-16 | true exactly when the word widths agree and the word lists agree after zero padding |
| Game.ValidDirectionsAreUnitSteps | snake.py:14-18 | the four directions are exactly the unit steps of the grid |
| Game.Snake.constructor | snake.py:20-37 | a new game is playing, with three segments on the centre cell, zero counters, no AI data, and a goal that is free when present |
| Game.Snake.Copy | snake.py:39-47 | a fresh game with the same board, body, goal and counters, in play, with no AI data |
| Game.Snake.GenerateGoal | snake.py:85-94 | the goal is a free cell (on the board, off the body), and `None` exactly when no cell is free |
| Game.Snake.Advance | snake.py:96-124 | a finished game is unchanged; a tick in play counts a move; an unknown or unsafe direction ends the game with the body unchanged; a safe move shifts the body, or grows it and scores on the goal, then places a free goal or wins on a full board; a body on the board and a goal off the body are preserved |
| Game.Snake.Step | snake.py:111-124 | the safe-move part of `advance`: shift, or grow, score and re-place the goal, keeping the board and goal invariants |
| Search.LexLessIrreflexive | search.py:30-34 | the queue order on flattened tuples is irreflexive |
| Search.LexLessTransitive | search.py:30-34 | the queue order is transitive |
| Search.LexLessTotal | search.py:30-34 | the queue order is total |
| Search.LexLessAsymmetric | search.py:30-34 | the queue order is asymmetric |
| Search.PopMin | search.py:41 | the entry taken has no entry below it, and is the first such |
| Search.ReplayConcat | search.py:46-51 | replaying two move lists in turn is replaying their concatenation |
| Search.LazyReplay | search.py:46-51 | replaying the unapplied moves from a cached state gives the replay from the start, so `copy_interval` does not change the state |
| Search.TryMove | search.py:55-69 | a move that hits the goal replays to a state with heuristic 0 and was offered at each step; a queued child keeps the queue invariant |
| Search.OriginalAStarSearch | search.py:4-71 | a returned move list is nonempty, was offered move by move, and replays to a state with heuristic 0; a positive search limit bounds the expansions |
| Search.Reversed | search.py:94 | element `i` of the reversal is element `n-1-i` of the input |
| Search.CollapsePath | search.py:89-94 | the result is the states of the linked path, oldest first |
| Search.Discover | search.py:110-123 | a state is explored once; every queued entry stays a walk from the start over explored states; a found path is a walk from the start to a state with heuristic 0 |
| Search.AStarSearch | search.py:73-125 | a returned path has at least two states, is a walk of `list_adjacent` from the start, and ends in a state with heuristic 0; running out of the expansion budget returns `None`; when every state reachable from the start lies in a closed set no larger than the budget, the budget is never exhausted |
| Search.CollectCandidates | search.py:143-157 | the collected pairs are exactly those of the stack walk `ToCheck` from the start, in order, and each is a state with a legal full-length move list that replays to it |
| Search.ToCheckSound | search.py:143-157 | every pair the stack walk collects from entries still on their way is a legal full-length move list with the state it reaches |
| Search.ToCheckComplete | search.py:143-157 | every legal full-length move list extending an entry of the stack is collected, with the state it reaches |
| Search.ToCheckExact | search.py:127-157 | a pair is collected from the start exactly when it is a legal full-length move list with the state it reaches |
| Search.BestCandidate | search.py:159-167 | `None` exactly when no score is positive; otherwise the first candidate with the highest positive score |
| Search.ExploreStateSpace | search.py:127-167 | over the candidates the stack walk `ToCheck` collects from the start, all legal full-length move lists: the best path is that of the first highest-scoring candidate, and `None` exactly when no score is positive |
| Ai.Neighbours | ai.py:13 | the four cells one step away, in direction order |
| Ai.OnBoardMembers | ai.py:14-16 | the filter keeps exactly the on-board cells |
| Ai.NeighbourIff | ai.py:11-16 | a cell is a neighbour exactly when it is one step away |
| Ai.AdjacentCells | ai.py:11-16 | `adjacent` holds exactly the on-board cells one step away, at most four |
| Ai.ReplayStep | ai.py:38-39 | replaying moves never fails and ends at the moves' position |
| Ai.ListedMove | ai.py:30-36 | an offered move is a unit step to an on-board cell that is neither blocked nor checked |
| Ai.PathStep | ai.py:30-36 | each move of a path enters a cell that is on the board and not blocked |
| Ai.ShortestPath | ai.py:18-45 | a found path ends at `end`, and every step is a unit move onto an on-board cell that is not blocked (start and end never count as blocked) |
| Ai.IndexOf | ai.py:72 | the first position of a body cell |
| Ai.FloodDistance | ai.py:47-81 | an off-board target or an empty body is an error; the head as target gives 0; a result is zero exactly at the head, is at least the grid distance, is at most body length + width + height + 1, and is at least the turns until a body cell is vacated |
| Ai.BoardSize | ai.py:136 | the board has `width * height` cells |
| Ai.FillsBoard | ai.py:136 | explored board cells as many as the board are the whole board |
| Ai.Visit | ai.py:141-151 | one neighbour: its arrival time is recorded once, the buckets stay bounded by distance, and the running sum is kept |
| Ai.ExpandFrom | ai.py:139-151 | all new neighbours of one cell are recorded |
| Ai.ExpandLevel | ai.py:137-151 | the whole front at `steps` is expanded |
| Ai.NavigationFactor | ai.py:126-158 | an empty body or an unreachable board is an error; the score is the sum of the arrival times minus the triangle number; each arrival time is a lower bound; cells are counted once; every board cell is reached |
| Ai.ReachedFacts | ai.py:136-155 | the reached cells are distinct, timed, and cover the board once `explored` is as large as it |
| Ai.NeighbourSymmetric | ai.py:116-119 | block neighbourhood is symmetric |
| Ai.ComponentOfMember | ai.py:109-119 | a component is the component of each of its blocks |
| Ai.SearchSkip | ai.py:113-114 | popping a taken or non-free block keeps the DFS invariant |
| Ai.SearchAdd | ai.py:114-119 | taking a free block and pushing its neighbours keeps the DFS invariant |
| Ai.SearchDone | ai.py:112 | an empty fringe means the component is complete |
| Ai.Component | ai.py:109-119 | the DFS returns the connected component of free blocks of its start |
| Ai.OwnersMerge | ai.py:121-122 | after a merge every explored block maps to its component and `largest` is the largest size |
| Ai.ExploreBlock | ai.py:109-122 | an unexplored free block gets its component |
| Ai.ScanBlock | ai.py:104-122 | one block of the scan keeps every earlier free block owned |
| Ai.ScanColumn | ai.py:103-122 | one column of blocks keeps the scan invariant |
| Ai.OwnersFinal | ai.py:102-124 | after the scan every owned block is on the even grid and mapped to its component, every even free block has an owner, and `largest` is a component's size |
| Ai.EvenComponent | ai.py:109-119 | the component of a block on the even grid holds only blocks on the even grid, since neighbours are two cells apart |
| Ai.SupergridFactor | ai.py:84-124 | every owned block is an even free block mapped to its connected area of free 2x2 blocks, every even free block has one, and the result is the size of the largest (0 when none) |
| Ai.TowardsGoalCloser | ai.py:165-178 | an error exactly without a goal or with the goal at the head; otherwise a direction that brings the head one step closer, closing the x gap first |
| Ai.FirstSafeIsFirst | ai.py:187-189 | the backup is the first safe direction in order, `None` when none is safe |
| Ai.SmarterTowardsGoalChoice | ai.py:180-191 | fails exactly when the simple choice fails; keeps a safe simple choice; picks a safe direction when one exists; otherwise north |
| Ai.HamiltonianStaysOnBoard | ai.py:193-221 | an error exactly on an odd height; otherwise a direction keeping an on-board head on the board |
| Supercellerator.SupercellSplit | supercellerator.py:17-22 | a position is its block corner (even coordinates) plus its subcell (0 or 1 each); `supercell` is idempotent |
| Supercellerator.CornerPlusSubcell | supercellerator.py:17-22 | a corner plus a subcell splits back into them |
| Supercellerator.SubcellInTables | supercellerator.py:31-45 | every subcell has a row in both tables, so the lookups never fail |
| Supercellerator.ClockwiseInParts | supercellerator.py:37-38 | `clockwise_in` stays in the block and moves the subcell by the table |
| Supercellerator.ClockwiseInStep | supercellerator.py:37-38 | `clockwise_in` is a unit step inside the block |
| Supercellerator.ClockwiseInCycle | supercellerator.py:31-38 | four `clockwise_in` steps return to the start |
| Supercellerator.OutTableSteps | supercellerator.py:40-45 | each out-table entry is one step from its subcell and lies in a neighbouring block |
| Supercellerator.ClockwiseOutStep | supercellerator.py:46-47 | `clockwise_out` is a unit step into a neighbouring block |
| Supercellerator.CornerShift | supercellerator.py:17-19 | shifting a corner by an offset and taking the block is shifting by the offset's block |
| Supercellerator.ClockwiseStepMoves | supercellerator.py:64-70 | the move is a unit direction and enters `next` exactly when the out step or the current block is `next`; otherwise it stays in the block |
| Supercellerator.RotateFourTimes | supercellerator.py:72-73 | four rotations are the identity |
| Supercellerator.RotatePermutesDirections | supercellerator.py:72-73 | rotation maps block directions onto block directions |
| Supercellerator.Turns | supercellerator.py:107-110 | the rotation loop runs between one and four times |
| Supercellerator.TurnsReach | supercellerator.py:107-110 | rotating `dir_before` that many times reaches `dir_after`, and no fewer rotations do |
| Supercellerator.Offsets | supercellerator.py:111 | element `i` is the current block shifted by offset `i` |
| Supercellerator.ValidNeighbours | supercellerator.py:98-104 | in a valid cycle the blocks before and after any index are neighbours, so these assertions hold |
| Supercellerator.BetweenSteps | supercellerator.py:106-110 | at most three directions lie strictly between `dir_before` and `dir_after`, none equal to either |
| Supercellerator.ReachableCells | supercellerator.py:89-111 | every reachable block is a neighbour of the current one and neither the block before nor after it; at most three |
| Supercellerator.ShiftedCell | supercellerator.py:111 | a block shifted by a direction is a neighbour, and differs from another block unless the direction points at it |
| Supercellerator.RotationsStayDirections | supercellerator.py:107-110 | repeated rotation stays among block directions |
| Supercellerator.OnlyFullTurnIsIdentity | supercellerator.py:107-110 | one to three rotations never give back the direction |
| Supercellerator.ClockwiseReachable | supercellerator.py:89-111 | the loop computes the reachable blocks of the cycle at `idx` |
| Supercellerator.ChainAppend | supercellerator.py:85-87 | two chains meeting at neighbours form a chain |
| Supercellerator.ChainReversed | supercellerator.py:185 | a reversed chain is a chain |
| Supercellerator.Spliced | supercellerator.py:182-186 | the new cycle is the prefix, the additions out, the additions back, then the suffix |
| Supercellerator.AddToPath | supercellerator.py:172-188 | succeeds exactly when the index is in range, the additions start at that block and the second addition is reachable there; then gives the spliced cycle |
| Supercellerator.SplicedValid | supercellerator.py:172-188 | splicing a chain of on-board blocks into a valid cycle of two or more blocks gives a valid cycle |
| Supercellerator.SplicedChain | supercellerator.py:182-186 | the spliced cycle is a chain |
| Supercellerator.SplicedCells | supercellerator.py:182-186 | every block of the spliced cycle is an on-board corner |
| Supercellerator.SplicedEnds | supercellerator.py:182-186 | the spliced cycle keeps the first and last blocks |
| Supercellerator.SplicedSingletonNotValid | supercellerator.py:94-96 | on a one-block cycle the splice yields `A, B, A`, which is not a valid cycle |
| Supercellerator.SplicedFacts | supercellerator.py:199-200 | the splice grows the cycle by at least two, keeps its first block, contains the detour's end and stays valid |
| Supercellerator.Pick | supercellerator.py:230-234 | element `k` is the path entry at kept index `k` |
| Supercellerator.ScanStart | supercellerator.py:207 | the empty scan satisfies the scan invariant |
| Supercellerator.ScanStep | supercellerator.py:208-215 | one step of `find_discardable` keeps the scan invariant |
| Supercellerator.PopScan | supercellerator.py:209-212 | retreating to the block two back drops the top entry and the current index |
| Supercellerator.PushScan | supercellerator.py:213-215 | a kept block is pushed, and a block to keep clears the stack first |
| Supercellerator.ScanUpToOk | supercellerator.py:203-215 | the scan invariant holds after any prefix |
| Supercellerator.DiscardableFacts | supercellerator.py:203-215 | the dropped indices are distinct, in range and complementary to the kept ones; the first and last block are kept; every block to keep survives; a chain stays a chain |
| Supercellerator.FindDiscardable | supercellerator.py:203-215 | the loop yields the scan's dropped indices in order |
| Supercellerator.DropLastKept | supercellerator.py:209-211 | dropping a spur's tip keeps all blocks to keep and the block retreated to |
| Supercellerator.PushKept | supercellerator.py:215 | keeping one more index appends its block |
| Supercellerator.WithoutIndices | supercellerator.py:227-234 | the path itself when nothing is dropped, otherwise the entries at the kept indices in order |
| Supercellerator.FilterIndices | supercellerator.py:230-234 | filtering the dropped indices leaves the kept entries in order |
| Supercellerator.AllKept | supercellerator.py:227-228 | with nothing dropped the path is unchanged |
| Supercellerator.NothingDropped | supercellerator.py:227-228 | when the dropped set is empty the kept entries are the whole path |
| Supercellerator.Occupied | supercellerator.py:218-222 | the occupied blocks are exactly the blocks of the snake's cells and the goal's block |
| Supercellerator.OccupiedBlocks | supercellerator.py:218-222 | the loop collects `Occupied` |
| Supercellerator.OccupiedExample | supercellerator_test.py:63-65 | a snake on (0, 0) and (1, 0) occupies block (0, 0), plus block (4, 0) when the goal is there |
| Supercellerator.ReduceScanExample | supercellerator_test.py:63-65 | keeping only (0, 0), the spur (2, 0), (4, 0), (2, 0), (0, 0) loses indices 2, 3, 1 and 4, leaving (0, 0), (0, 2) |
| Supercellerator.KeepScanExample | supercellerator_test.py:63-64 | keeping (4, 0) as well, nothing is dropped, so the path is returned as it is |
| Supercellerator.ReducedSpur | supercellerator_test.py:63-65 | for a snake on (0, 0) and (1, 0), with the goal at (0, 0) the reduced path is (0, 0), (0, 2); with the goal at (4, 0) nothing is dropped, so `reduce_path` returns the path itself |
| Supercellerator.ReducePath | supercellerator.py:217-234 | the kept and dropped indices are those of the `find_discardable` scan with the occupied blocks and are complementary; the result is the path's entries at the kept indices, and the path itself when nothing is dropped; it keeps the first and last block, every block of the snake or the goal on the path, and a valid cycle's validity with at least two blocks |
| Supercellerator.ReducedFacts | supercellerator.py:217-234 | the kept entries hold every snake and goal block on the path and the path's ends, and keep a valid cycle valid |
| Supercellerator.KeepSurvives | supercellerator.py:224-225 | every block to keep that is on the path survives the reduction |
| Supercellerator.ReducedValid | supercellerator.py:230-234 | the reduced cycle of a valid cycle is valid and keeps its ends |
| Supercellerator.OutCellNeighbour | supercellerator.py:147-148 | the out cell of a position is a block corner next to its block |
| Supercellerator.ExitsCoverDirections | supercellerator.py:147-151 | the four positions of a block exit in all four directions |
| Supercellerator.InTimesBlock | supercellerator.py:151 | repeated `clockwise_in` stays in the block |
| Supercellerator.OutCoverage | supercellerator.py:147-151 | within four positions the walk meets `end`, so the head walk terminates |
| Supercellerator.WalkOutNeighbours | supercellerator.py:142-152 | every yielded block is a corner next to the head's block and is not `end` |
| Supercellerator.FilterOpenMembers | supercellerator.py:135-136 | the filter keeps exactly the open, unblocked, on-board blocks |
| Supercellerator.HeadWalk | supercellerator.py:142-152 | the loop yields the open out cells of the walk around the head's block until `end` |
| Supercellerator.HeadStep | supercellerator.py:147-151 | one walk step keeps the yielded-so-far invariant |
| Supercellerator.SuccessorFacts | supercellerator.py:134-162 | every successor is a legal search step: the next cycle index, a reachable unblocked block, or a free neighbouring block |
| Supercellerator.UniverseClosed | supercellerator.py:134-162 | the search states form a finite set closed under successors |
| Supercellerator.WalkShape | supercellerator.py:134-170 | a search path follows the cycle for some steps and then leaves it for good |
| Supercellerator.WalkCells | supercellerator.py:134-170 | the mapped path follows the cycle, then runs through distinct, on-board, off-cycle, neighbouring blocks, leaving at a reachable block |
| Supercellerator.BlockedSet | supercellerator.py:127-131 | `blocked` is the set of cycle blocks, and the flag tells whether the goal's block is one |
| Supercellerator.FindPathToGoal | supercellerator.py:113-170 | odd dimensions or a goal block already on the cycle are errors; a found path follows the cycle, detours through distinct free blocks and ends at the goal's block |
| Supercellerator.SearchDetour | supercellerator.py:164-170 | a successful A* search maps to a detour |
| Supercellerator.UniverseSize | supercellerator.py:164-170 | the search has no more states than `SearchFuel` counts, so the budget passed to A* is never exhausted |
| Supercellerator.LeavingIndex | supercellerator.py:194-197 | the loop stops at the first index where detour and cycle part; an error when they never part |
| Supercellerator.UpdatePath | supercellerator.py:190-201 | a goal block already on the cycle is an error; a new cycle is the old one with the found detour walked out and back from the entry before it leaves the cycle; it is at least two blocks longer, starts at the same block, is valid, and contains the goal's block |
| Supercellerator.SpliceDetour | supercellerator.py:194-200 | a success is the cycle with the detour spliced in from its last shared entry; it is at least two blocks longer, keeps the first block, holds the detour's end (the goal when that is a block corner), and is valid |
| Supercellerator.SpliceFacts | supercellerator.py:197-200 | a splice at the entry where the detour leaves the cycle grows the cycle by at least two, keeps its first block, holds the detour's end and a corner goal, and keeps a valid cycle valid |
| Supercellerator.SplicedExample | supercellerator_test.py:16-18 | the detour (0, 0), (2, 0), ..., (8, 0) spliced into the cycle (0, 0), (2, 0) gives the cycle of the test |
| Supercellerator.DetourPrefix | supercellerator.py:194-197 | a detour shares the cycle's first blocks and then leaves it |
| Supercellerator.DetourTail | supercellerator.py:199 | the detour from its last shared block is a chain of on-board blocks |
| Supercellerator.UngroupedSnoc | supercellerator.py:59-60 | a group appended at the end reads back its cells in body order |
| Supercellerator.GroupsReadBack | supercellerator.py:50-62 | reading the groups back gives the body |
| Supercellerator.GroupsAreRuns | supercellerator.py:50-62 | every cell lies in its group's block, consecutive groups differ in block, the first is the head's block, and groups are nonempty |
| Supercellerator.Supercellerate | supercellerator.py:50-62 | an empty body is an error, and otherwise the result is the grouping of the whole body |
| Supercellerator.SupercellerateExample | supercellerator.py:50-62 | two cells of one block and a cell of the next make two groups, running reversed inside the first |
| Supercellerator.RotatedValid | supercellerator.py:268 | rotating a valid cycle left keeps it valid, makes the second block first, and permutes the blocks |
| Supercellerator.SeedValid | supercellerator.py:244-250 | the seed cycle of four blocks is valid and starts at the head's block |
| Supercellerator.Retarget | supercellerator.py:253-262 | the retargeted cycle is valid, at least two blocks long, starts at the head's block and contains the goal's block |
| Supercellerator.StepAlong | supercellerator.py:264-270 | the move is a unit direction; the cycle turns exactly when the move leaves the head's block, stays valid and ready for the new head, and keeps its blocks |
| Supercellerator.PlanMove | supercellerator.py:236-270 | a missing cycle with a body of more than four cells, or a missing goal, is an error; a failed retarget or a missing goal leaves the starting cycle (the seed before the first move) stored; a move is a unit direction, and the stored cycle holds the goal's block and is ready for the head after the move; a starting cycle already holding the goal's block only turns, exactly when the move leaves the head's block |
| Supercellerator.AiSupercelleratorV1 | supercellerator.py:236-270 | `PlanMove` on the game: only the AI slot changes, and it holds what the plan stores |

## Left out

- Rendering, fonts, `pygame`, the main loop in `main.py`, and `Snake.render` are I/O and are not modelled.
- The getters and `set_ai_data` of `snake.py` (lines 49-83) are plain field reads and writes of `Snake`.
- `Bitset.__hash__` (bitset.py:18-19) is not modelled. It is only a hash of the word list, and Dafny values have no hash.
- `average_elements` and `sigmoid` (common.py:11-12, 22-23) work on floating point and are not modelled.
- The strategies `ai_run_right` and everything in `ai.py` from line 224 on are not modelled.
- Game.Snake.GenerateGoal: `random.choice` is a nondeterministic choice of a free cell; which cell is chosen is not modelled.
- Search.PopMin: queued tuples whose ranking, counter and move list all agree are compared further in Python, which can raise. The model takes the first such entry instead.
- Search.OriginalAStarSearch: the expansions are bounded by `fuel` when no search limit is given. The model does not prove that the search finds a path, or a shortest one.
- Search.AStarSearch: expands at most `fuel` states and then reports `outOfFuel`, a bound the source does not have; on an infinite state space the source may run forever. `SearchDetour` passes `SearchFuel`, which `UniverseSize` shows is never exhausted there. The model does not prove that the search finds a path, or a shortest one.
- Ai.ShortestPath: runs on a `fuel` budget. It states where the path leads and which cells it may enter, not that it is shortest.
- Ai.ShortestPath: the `checked` set is threaded through `list_moves` as a memo. The contract does not state that each cell is offered once.
- Ai.FloodDistance: states bounds on the result, not that it is the least arrival time of the flood fill.
- Ai.NavigationFactor: states that each arrival time is a lower bound, not that it is the least one.
- Supercellerator.FindPathToGoal: requires a cycle of blocks on the board. It also requires, when a head is given, at least two blocks with the head's block first. Otherwise the walk at lines 147-151 never meets `end` and the source loops forever, and the assertions at lines 103-104 can fail.
- Supercellerator.UpdatePath: requires a valid cycle. The source's `assert_path_valid` calls are disabled (`skip=True`, line 79), so the model states their checks as the predicate `PathValid` and proves them as pre- and postconditions instead.
- Supercellerator.UpdatePath: the validity of the result is stated only for cycles of two or more blocks. One block spliced gives `A, B, A`, which is invalid (see `SplicedSingletonNotValid`). The strategy never holds such a cycle: the seed has four blocks and every step keeps at least two.
- Supercellerator.PlanMove: requires `CycleReady`, meaning the stored cycle is valid and starts at the head's block. When no cycle is stored, `SeedFits` requires the seed's four blocks to fit on the board. Nothing in the source checks this: line 265 only asserts that the head is in the first block, and `assert_path_valid` returns at once (line 79). On a board 4 cells wide the head (2, 2) gives the seed (2, 2), (4, 2), (4, 4), (4, 2), which leaves the board; the model excludes that case. The contract re-establishes it for the head after every move, so it is the invariant the strategy keeps between calls.
- Supercellerator.FindPathToGoal: the source's `Forward` objects hash by identity. The model compares them by value, which gives the same searches because the source creates each `Forward(k)` from a single predecessor. A* ties beyond the counter cannot happen there, since every queued counter is distinct.
- `assert_path_valid` accepts an empty deque on an even board, against the description of a cycle of at least one block. The model follows the code: `PathValid` of an empty sequence holds.
- Bits.Bitset.Get, Bits.Bitset.Set, Bits.Bitset.Clear: take a natural index. In the source a negative index reaches a word through Python's negative list indexing (`set(-1)` or-s bit 63 into the last word, and raises on an empty list); that behaviour is not modelled.
- Bits.Bitset.Clear: follows the corrected `get` (see Findings), so clearing an index whose word is one past the end does nothing, where the source raises.

## Findings

| source | as written | input that shows it | evidently intended | confidence | as-written member | corrected member |
|---|---|---|---|---|---|---|
| bitset.py:24 | the guard `len(self.data) < superidx` lets `superidx == len(self.data)` through to `self.data[superidx]` | `Bitset().get(0)` raises `IndexError` | `len(self.data) <= superidx`, so that indices past the last word read as unset | not executed | Bits.GetAsWrittenFailsOnEmpty | Bits.Bitset.Get |
