# Crossword generator and tic-tac-toe player, modelled in Dafny

This project models two programs of a course repository of AI exercises.

- **The crossword generator** (`cs50ai/crossword/generate.py`) fills a crossword grid with dictionary words.
  - It treats each slot as a variable of a constraint-satisfaction problem, whose candidates are the dictionary words.
  - It enforces node consistency (word length) and arc consistency (the AC-3 algorithm over the crossing letters).
  - It then runs a backtracking search. The search picks the unassigned variable with the fewest candidates and then the most neighbours, and tries the words that rule out the fewest neighbour candidates first.
- **The tic-tac-toe player** (`cs50ai/tictactoe/tictactoe.py`) holds the rules of the game on a 3x3 board and a minimax search for the best move.

Files:

- `optional.dfy`: the `Option` datatype.
- `puzzle.dfy`: the puzzle geometry the solver consumes: variables, words, the overlap table and neighbours.
  - The crossword module that builds this geometry is not part of this model.
  - `Puzzle.WellFormed` states what the solver relies on.
- `csp.dfy`: the constraint notions the solver is proved against, as functions of the domain map and the assignment:
  - length filtering, supported words and arc consistency;
  - the AC-3 queue invariant;
  - consistency of an assignment and completeness;
  - the value-ordering count and a stable sort.
- `generate.dfy`: the solver as a class `CrosswordCreator`.
  - Its `domains` field refers to a `Domains` object whose map the methods update in place.
  - Assignments are `Assignment` objects.
  - Both are objects so that `backtrack`'s snapshots alias the way the source's dictionaries do:
    - after a failed check the search rebinds to the snapshots;
    - later tries then change those snapshots in place.
- `tictactoe.dfy`: the game.
  - The loop-based functions of the source are methods proved against specification functions: the player to move, the empty cells, the winner and the game values.
  - Boards are values.

Python dictionaries keep insertion order, but the ones here are filled by iterating sets (the puzzle's variables, the words, a variable's neighbours), and Python's set iteration order is arbitrary. The model writes every loop over a set, and every loop over a dictionary filled from one, as "pick any remaining element", so every proved property holds for every order.

## Model

| member | source | states |
|---|---|---|
| TicTacToe.InitialState | cs50ai/tictactoe/tictactoe.py:13-19 | every cell of the starting board is empty, and X is to move |
| TicTacToe.Player | cs50ai/tictactoe/tictactoe.py:22-36 | the counting loop returns X when an even number of cells is marked and O otherwise |
| TicTacToe.Actions | cs50ai/tictactoe/tictactoe.py:39-49 | the moves returned are exactly the empty cells |
| TicTacToe.Result | cs50ai/tictactoe/tictactoe.py:52-61 | a board results exactly when the move is an empty cell; any other move is the "Invalid move" error |
| TicTacToe.ResultCells | cs50ai/tictactoe/tictactoe.py:56-59 | a legal move marks its own cell with the mover's mark and leaves every other cell as it was |
| TicTacToe.ResultShrinks | cs50ai/tictactoe/tictactoe.py:56-59 | after a legal move the empty cells are the old ones minus the move |
| TicTacToe.ResultAlternates | cs50ai/tictactoe/tictactoe.py:52-59 | every legal move hands the turn to the other player |
| TicTacToe.Winner | cs50ai/tictactoe/tictactoe.py:64-87 | the row, column and diagonal loops report a winner exactly when some line holds three equal marks, and that winner is the player opposite to the one to move |
| TicTacToe.WinnerIsLastMover | cs50ai/tictactoe/tictactoe.py:64-87 | after any legal move that leaves a line on the board, the winner reported is the player who made that move |
| TicTacToe.FirstLineIsMovers | cs50ai/tictactoe/tictactoe.py:64-87 | a legal move that completes the first line makes every line the mover's, and the mover is the winner reported |
| TicTacToe.WinnerAfterFinishedGame | cs50ai/tictactoe/tictactoe.py:64-87 | on a board where O's line already stands, X's further move makes the source report X, though every line is O's |
| TicTacToe.TerminalMeans | cs50ai/tictactoe/tictactoe.py:90-97 | the game is over exactly when some line is complete or no cell is empty; otherwise a move is left and no winner is reported |
| TicTacToe.Utility | cs50ai/tictactoe/tictactoe.py:100-110 | 1 exactly when X is reported the winner, -1 exactly when O is, 0 exactly when no line is complete |
| TicTacToe.ScoreBounds | cs50ai/tictactoe/tictactoe.py:100-130 | every game value lies between -1 (O wins) and 1 (X wins) |
| TicTacToe.MaxOfIsMax | cs50ai/tictactoe/tictactoe.py:117-120 | the maximum over the moves is at least every move's value and is attained by some move |
| TicTacToe.MinOfIsMin | cs50ai/tictactoe/tictactoe.py:127-130 | the minimum over the moves is at most every move's value and is attained by some move |
| TicTacToe.MaxValue | cs50ai/tictactoe/tictactoe.py:113-120 | returns the utility on a finished board, and otherwise the largest min-value over X's moves (the value X can force) |
| TicTacToe.MinValue | cs50ai/tictactoe/tictactoe.py:123-130 | returns the utility on a finished board, and otherwise the smallest max-value over O's moves (the value O can force) |
| TicTacToe.ValueAfterX | cs50ai/tictactoe/tictactoe.py:144-145 | scores one move of X with the min-value of the resulting board, a value in [-1, 1] |
| TicTacToe.ValueAfterO | cs50ai/tictactoe/tictactoe.py:148-149 | scores one move of O with the max-value of the resulting board, a value in [-1, 1] |
| TicTacToe.FirstBest | cs50ai/tictactoe/tictactoe.py:146 | the head of the stably sorted (move, value) list has the extreme value, and no earlier entry has that value |
| TicTacToe.BestForX | cs50ai/tictactoe/tictactoe.py:143-146 | when X moves, the head of the list sorted best first is a legal move that achieves X's game value |
| TicTacToe.BestForO | cs50ai/tictactoe/tictactoe.py:147-150 | when O moves, the head of the list sorted best first is a legal move that achieves O's game value |
| TicTacToe.Minimax | cs50ai/tictactoe/tictactoe.py:133-152 | no move exactly on a finished board; otherwise a legal move achieving the game value for the player to move |
| Puzzle.Neighbors | cs50ai/crossword/generate.py:211-213 | every neighbour is another variable of the puzzle that crosses the given one |
| Puzzle.NeighborsSymmetric | cs50ai/crossword/generate.py:211-213 | in a well-formed puzzle `n` is a neighbour of `x` exactly when the pair `(x, n)` has an overlap, so the lookup `overlaps[v, n]` is defined |
| Generate.CrosswordCreator.constructor | cs50ai/crossword/generate.py:9-17 | every variable of the puzzle starts with the whole dictionary as its domain |
| Generate.CrosswordCreator.Solve | cs50ai/crossword/generate.py:93-99 | whatever `solve` returns assigns every variable a dictionary word, with crossing letters equal, right lengths and no word used twice |
| Generate.CrosswordCreator.EnforceNodeConsistency | cs50ai/crossword/generate.py:102-114 | the new domains are the old ones with the words of the wrong length removed |
| Csp.LengthFilteredSpec | cs50ai/crossword/generate.py:102-114 | filtering leaves every domain node-consistent, removes words only, and removes exactly the words whose length differs from the variable's |
| Csp.LengthFilteredIdempotent | cs50ai/crossword/generate.py:102-114 | a second length filter changes nothing |
| Generate.CrosswordCreator.Revise | cs50ai/crossword/generate.py:117-143 | `x`'s domain becomes exactly its words that some word of `y`'s domain agrees with at the overlap; nothing else changes; the answer is true exactly when a word went |
| Csp.SupportedSpec | cs50ai/crossword/generate.py:131-141 | the revised domain is a subset of the old one, keeps exactly the words with support, and a second revision changes nothing |
| Csp.ReverseArcKept | cs50ai/crossword/generate.py:178-180 | revising `x` against `y` keeps the arc `(y, x)` consistent, which is why the requeue skips `y` |
| Csp.ArcStep | cs50ai/crossword/generate.py:171-180 | one round of the queue loop keeps every constrained arc either queued or consistent |
| Csp.PairsShrink | cs50ai/crossword/generate.py:171-180 | a revision that removes a word removes a (variable, word) pair, the measure under which the queue loop ends |
| Generate.CrosswordCreator.AllArcs | cs50ai/crossword/generate.py:160-167 | the default queue holds exactly the arcs whose overlap is not `None` |
| Generate.CrosswordCreator.RequeueNeighbors | cs50ai/crossword/generate.py:178-180 | the queue keeps its old arcs in front, and what is appended is exactly the arcs `(n, x)` for the neighbours `n` of `x` other than `y`, each once, and nothing else |
| Generate.CrosswordCreator.ArcsFrom | cs50ai/crossword/generate.py:178-180 | the loop over the neighbours yields exactly the arcs `(n, x)` for `n` other than `y`, each once |
| Generate.CrosswordCreator.PopAndRevise | cs50ai/crossword/generate.py:171-180 | pops the last arc `(x, y)`; the new domains are the old ones with `x`'s domain reduced to its words supported by `y`'s; `emptied` holds exactly when that revision removed words and left `x`'s domain empty; the rest of the queue stays in front, followed, when words went and `x`'s domain is not empty, by exactly the arcs `(n, x)` for the other neighbours `n`, and by nothing otherwise |
| Generate.RoundStore | cs50ai/crossword/generate.py:171-180 | one pass keeps the domains covering, node-consistent and only shrinking, loses no solution, when it reports an emptied domain leaves empty a domain that was not empty at the start, otherwise empties no domain that was not empty at the start, and removes a (variable, word) pair or shortens the queue |
| Generate.RoundQueue | cs50ai/crossword/generate.py:171-180 | after a pass that did not empty a domain, every constrained arc is still queued or consistent |
| Generate.QueueAfter | cs50ai/crossword/generate.py:171-180 | the queue after a pass holds the unpopped arcs, and any other arc in it is an arc into `x` from a neighbour, all of which are there after a requeue |
| Csp.ReviseKeepsSolutions | cs50ai/crossword/generate.py:131-141 | a revision removes no word that a solution of the puzzle (an assignment agreeing on every arc, with words from the domains) gives its variable |
| Generate.CrosswordCreator.AC3 | cs50ai/crossword/generate.py:146-182 | domains only lose words, and never a word some solution uses; false means a domain that was not empty before became empty; true means no domain became empty, and every arc is consistent when the queue was all arcs (no list or an empty list) or held every inconsistent arc |
| Csp.CompleteCovers | cs50ai/crossword/generate.py:185-194 | for an assignment of puzzle variables, the length test holds exactly when every variable is assigned |
| Generate.CrosswordCreator.Consistent | cs50ai/crossword/generate.py:197-221 | true exactly when every assigned word has its variable's length, assigned crossing words agree at the crossing, and no word is used twice |
| Generate.CrosswordCreator.CheckVariable | cs50ai/crossword/generate.py:205-215 | one pass of the outer loop leaves the flag true exactly when it was true and the variable's word fits its length and agrees with every assigned neighbour |
| Csp.Clash | cs50ai/crossword/generate.py:211-215 | the letter test rejects the assignment exactly for an assigned neighbour whose word disagrees at the crossing |
| Csp.UniqueWords | cs50ai/crossword/generate.py:217-219 | comparing the number of entries with the number of distinct words is exactly the test that no word repeats |
| Csp.DistinctWords | cs50ai/crossword/generate.py:217-219 | an assignment is injective exactly when its set of values is as large as the assignment |
| Generate.CrosswordCreator.Occurrences | cs50ai/crossword/generate.py:242-244 | the innermost loop counts one when the word is in the neighbour's domain and zero otherwise |
| Generate.CrosswordCreator.RuledOutCount | cs50ai/crossword/generate.py:238-244 | the count for a word is the number of unassigned neighbours whose domain holds that same word |
| Generate.CrosswordCreator.RuledOutCounts | cs50ai/crossword/generate.py:237-246 | the dictionary `temp` maps every word of the domain to its count; the words are listed in the order they were counted, each once |
| Csp.ListsSetOnce | cs50ai/crossword/generate.py:246-249 | a list holding every word of a set once is a permutation of that set |
| Csp.SortBy | cs50ai/crossword/generate.py:249 | the stable sort returns a permutation of its input in non-decreasing order of the key |
| Generate.CrosswordCreator.OrderDomainValues | cs50ai/crossword/generate.py:224-249 | the result is a permutation of the variable's domain, in non-decreasing order of the count |
| Generate.CrosswordCreator.SelectUnassignedVariable | cs50ai/crossword/generate.py:252-282 | an unassigned variable with the fewest candidates left and, among those, the most neighbours |
| Csp.MostNeighborsExists | cs50ai/crossword/generate.py:280-282 | a non-empty set of variables has one with the most neighbours, so the sorted list has a head |
| Generate.FewestThenMost | cs50ai/crossword/generate.py:270-282 | the variables left after the minimum filter are the unassigned ones of smallest domain, so a highest-degree one among them answers the selection |
| Generate.CrosswordCreator.Backtrack | cs50ai/crossword/generate.py:285-325 | a complete assignment is returned unchanged; any result is complete, holds dictionary words of the right lengths, keeps the given entries and passed `consistent`; domains stay covering and node-consistent |
| Generate.CrosswordCreator.Choose | cs50ai/crossword/generate.py:303-304 | the chosen variable is unassigned and every word tried for it is a candidate of its domain |
| Generate.CrosswordCreator.Search | cs50ai/crossword/generate.py:304-325 | the loop over the words returns only complete, consistent assignments that keep the given entries |
| Generate.CrosswordCreator.Attempt | cs50ai/crossword/generate.py:305-325 | one try leaves `x` assigned `w` in the working assignment; `consistent` answers for that assignment, and `ac3` runs only when it passed; when both passed the next pass goes on with the same assignment, and otherwise with the snapshot assignment together with the snapshot domains and no result; a result found is complete, consistent and keeps the given entries |
| Generate.CrosswordCreator.Place | cs50ai/crossword/generate.py:305-308 | the assignment gains the word for the variable, and the check answers exactly whether the assignment is consistent |
| Generate.CrosswordCreator.NeighborArcs | cs50ai/crossword/generate.py:309-311 | the arcs handed to `ac3` are exactly `(n, var)` for the neighbours `n` of `var` |
| Generate.CrosswordCreator.Infer | cs50ai/crossword/generate.py:309-314 | inference only removes words, never a word some solution uses; it answers false exactly when it emptied a domain that was not empty before, and true when it emptied none |
| Generate.CrosswordCreator.Descend | cs50ai/crossword/generate.py:309-319 | inference and then the recursive call only add to the assignment; a failed inference finds nothing; the recursive result, when it is a non-empty dictionary, is complete, consistent and keeps the given entries |

## Left out

- The `pagerank` program, and the generator's drawing, printing, image saving and command line (`letter_grid`, `print`, `save`, `main`): these are input and output.
- The `crossword` module: `Crossword`, `Variable` and the reading of structure and word files are not part of this model. Their result is a value of which `Puzzle.WellFormed` is taken to hold. `Puzzle.Neighbors` follows how `generate.py` uses `neighbors`.
- `deepcopy` is a fresh object holding the same map: domains and assignments hold values.
- The infinite sentinels are replaced:
  - `max_value` and `min_value` start from -2 and 2, outside every utility;
  - `select_unassigned_variable` starts `mdl` as `None`.
- The order of a loop over a set, or over a dictionary filled from a set, is an arbitrary choice: dictionaries keep insertion order, but the insertions follow a set's iteration order. `sorted(..., reverse=True)` in `select_unassigned_variable` is stable, but the model picks any variable of highest degree, not the first one in dictionary order.
- Generate.CrosswordCreator.Backtrack: no claim that a solution is found whenever one exists.
  - A failed recursive search restores neither the assignment nor the domains, and the snapshots are changed in place after the first fall-back.
  - The model keeps this behaviour and proves only what survives it: every result is a solution.
  - Nothing is stated about the domains being restored.
- Generate.CrosswordCreator.Consistent: requires every assigned word to be long enough to be read at its overlaps, because the source would raise `IndexError` otherwise. The search only assigns words of the right length, so it always meets this.
- Generate.CrosswordCreator.AC3: requires node-consistent domains rather than only words long enough for `revise`'s indexing. Every call in the source comes after `enforce_node_consistency`.
- Generate.CrosswordCreator.AC3: the given list of arcs is a value. In the source `q = arcs` aliases the caller's list and pops from it, which no caller observes.
- Generate.CrosswordCreator.Solve: `solve` ignores `ac3`'s answer, and the model does too. `backtrack` then runs on whatever domains remain.
- TicTacToe.Winner: the source names the player opposite to the one to move, not the mark on the line. After any legal move that leaves a line, the reported winner is the player who moved (`TicTacToe.WinnerIsLastMover`). When the move completes the first line, every line is that player's, so the two agree (`TicTacToe.FirstLineIsMovers`). When a line already stood before the move, they can differ (`TicTacToe.WinnerAfterFinishedGame`). The model reports what the source reports.
- TicTacToe boards are always 3x3. `player` reads `len(board[1])` for every row, which is the same on such boards.
