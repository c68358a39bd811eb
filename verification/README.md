# Crossword generator and tic-tac-toe player, modelled in Dafny

This project models two programs from an introductory AI course.

- **The crossword generator** (`projects/2020/x/crossword/generate.py`, class
  `CrosswordCreator`) fills the slots of a crossword grid with words from a
  word list. It treats the fill as a constraint satisfaction problem:
  - node consistency prunes each slot's domain to words of the slot's length;
  - an AC-3 style arc revision loop prunes further;
  - a backtracking search finishes the fill, using the minimum-remaining-values
    and degree heuristics and a least-constraining-value ordering;
  - the letter grid writes an assignment into the cells.
- **The tic-tac-toe player** (`projects/2020/x/tictactoe/tictactoe.py`)
  provides the board state machine, win and end-of-game detection, the
  utility, and an exhaustive minimax search.

Modules:

- `Wrappers`: `Option`.
- `Sets`: two facts about finite sets.
- `Puzzle`: slots (`Variable`), the puzzle (`Crossword`: grid size, slots,
  overlap map, word list), domains, assignments, and what a consistent
  assignment and a solution are.
- `Consistency`: initial domains, node consistency, `revise`, `ac3`.
- `Search`: the consistency test, the heuristics, backtracking and `solve`.
- `Letters`: `letter_grid`.
- `TicTacToe`: the whole of `tictactoe.py`.

The `Crossword` class builds slots and overlaps from files. Its source is not
part of this model. A puzzle is taken as given, and `Puzzle.WellFormed` states
what its construction guarantees:

- overlap entries join two distinct slots;
- overlap indices lie inside both slots;
- the overlap map is symmetric;
- slots lie inside the grid;
- two slots through one cell have an overlap entry naming that cell.

The operations need only narrow consequences of `WellFormed`, and small lemmas
derive each one from it: `SymmetricNeighbors`, `OverlapsInRange` and
`Letters.SharedCellsOverlap`.

Python iterates over sets and dictionaries in an order the program does not
control. The methods model each such loop with a nondeterministic choice
(`:|`), so every contract holds whatever order the iteration takes. Sorting
ties are handled the same way.

Where the code and its documentation disagree, the model follows the code:

- `revise` (generate.py:109-127) never looks at the overlap. It drops a word
  from x's domain only when that word is the sole member of y's domain, while
  the docstring asks for every word of x without a matching word of y.
  `Consistency.Revise` models the code. It also models the intended data
  effect of removing from a set while iterating over it, which Python rejects
  at run time.
- `ac3` re-queues with a two-argument `arcs.add(z, x)`, which Python rejects.
  The model enqueues the arc `(z, x)`.
- `ac3` only checks a domain for emptiness right after revising it, so a
  domain that was empty from the start still yields True.
- `solve` ignores the result of `ac3` and always runs the search.
- `consistent` forbids equal words only for pairs of slots with an overlap
  entry, not for every pair of assigned slots.
- The model represents a tic-tac-toe board as its nine squares in reading
  order: square (i, j) of the source's list of rows is entry `3 * i + j`.
  `TicTacToe.At` reads a square by row and column.

## Model

| member | source | states |
|---|---|---|
| Puzzle.ConsistentDownward | projects/2020/x/crossword/generate.py:183-209 | removing slots from a consistent assignment leaves it consistent |
| Puzzle.NeighborsSymmetric | projects/2020/x/crossword/generate.py:143 | in a well-formed puzzle, y neighbours x exactly when x neighbours y |
| Consistency.InitialDomains | projects/2020/x/crossword/generate.py:8-16 | every slot of the puzzle, and nothing else, gets the whole word list as its domain |
| Consistency.EnforceNodeConsistency | projects/2020/x/crossword/generate.py:96-107 | keeps exactly the words of each domain whose length is the slot's length; the result is node consistent; on node-consistent input it changes nothing, so running it twice changes nothing |
| Consistency.Revise | projects/2020/x/crossword/generate.py:109-127 | no domain but x's changes; x's domain loses exactly the word that is the sole member of y's domain; the flag is true exactly when x's domain shrank |
| Consistency.ReviseKeepsSolutions | projects/2020/x/crossword/generate.py:109-127 | a revision never removes the word a complete consistent assignment within the domains gives x |
| Consistency.InitialArcs | projects/2020/x/crossword/generate.py:138-146 | the initial worklist is exactly the arcs (x, y) with y a neighbour of x |
| Consistency.AC3 | projects/2020/x/crossword/generate.py:129-162 | domains only shrink; False means a revision emptied a domain that was not empty before; on True every revised domain is non-empty and no neighbour arc can be revised further; the number of re-queueing revisions plus the final total domain size is at most the initial total domain size; no solution within the input domains is lost |
| Consistency.Propagate | projects/2020/x/crossword/generate.py:148-162 | the worklist loop of `ac3`: it stops with False only right after a revision emptied a domain, otherwise with an empty worklist; either way it yields the outcome `AC3` states, and the re-queue count stays bounded by the shrinkage |
| Consistency.RevisionRestoresStable | projects/2020/x/crossword/generate.py:153-160 | after a shrinking revision of (x, y), re-queueing every (z, x) with z other than y leaves every arc outside the worklist stable |
| Consistency.EntriesShrink | projects/2020/x/crossword/generate.py:153-160 | a revision that changes x's domain strictly lowers the total domain size, which bounds the re-queueing |
| Search.CompleteMeansAllAssigned | projects/2020/x/crossword/generate.py:166-174 | for an assignment over the puzzle's slots, equal size means every slot is assigned |
| Search.Consistent | projects/2020/x/crossword/generate.py:176-209 | the answer is true exactly when every assigned word has its slot's length and, for every overlap entry that names a cell and has both ends assigned, the words differ and agree on the shared cell |
| Search.SelectUnassignedVariable | projects/2020/x/crossword/generate.py:242-267 | None exactly when every slot is assigned; otherwise an unassigned slot with a domain no larger than any other unassigned slot's and, among those, at least as many neighbours |
| Search.CountRuledOut | projects/2020/x/crossword/generate.py:222-234 | the count for a value is the sum over x's neighbours of the neighbour words that disagree at the shared cell, plus one for each unassigned neighbour whose domain holds the value |
| Search.RuleOutRemove | projects/2020/x/crossword/generate.py:224-234 | the summed count does not depend on the order the neighbours are visited in |
| Search.OrderDomainValues | projects/2020/x/crossword/generate.py:212-240 | the list holds exactly the words of x's domain, each once, in non-decreasing order of the rule-out count |
| Search.Backtrack | projects/2020/x/crossword/generate.py:269-292 | a result is complete, keeps the input assignment, takes every new word from its slot's domain, and is consistent when the input is; None means no solution within the domains extends the input |
| Search.TryValues | projects/2020/x/crossword/generate.py:285-292 | trying the remaining values of x in order yields what `Backtrack` promises, given that every solution extending the assignment gives x one of them |
| Search.TryValue | projects/2020/x/crossword/generate.py:286-291 | one pass of the loop body: success yields what `Backtrack` promises; failure rules the tried value out for x in every solution |
| Search.Solve | projects/2020/x/crossword/generate.py:88-94 | a result assigns every slot a word of the word list consistently; None means no such assignment exists |
| Letters.PaintWord | projects/2020/x/crossword/generate.py:28-31 | the cells of slot v get the word's characters in order and every other cell is unchanged |
| Letters.LetterGrid | projects/2020/x/crossword/generate.py:18-32 | a height by width grid whose filled cells are exactly those some assigned word covers, each holding a character a covering word puts there; when the words agree on shared cells, cell k of every slot holds character k of its word |
| Letters.ConsistentAgrees | projects/2020/x/crossword/generate.py:183-209 | in a puzzle whose shared cells all have overlap entries, a consistent assignment puts one character in every shared cell, so its grid shows every word |
| TicTacToe.InitialState | projects/2020/x/tictactoe/tictactoe.py:13-19 | every square of the starting board is empty |
| TicTacToe.InitialPlayer | projects/2020/x/tictactoe/tictactoe.py:13-31 | X moves first on the empty board, which has nine empty squares |
| TicTacToe.MoveAlternates | projects/2020/x/tictactoe/tictactoe.py:22-31 | on a board where X has as many marks as O or one more, a move gives the turn to the other mark and keeps that balance |
| TicTacToe.Actions | projects/2020/x/tictactoe/tictactoe.py:34-43 | a pair is a legal move exactly when it names a square of the board that is empty |
| TicTacToe.ActionCount | projects/2020/x/tictactoe/tictactoe.py:34-43 | there are as many legal moves as empty squares |
| TicTacToe.ActionList | projects/2020/x/tictactoe/tictactoe.py:38-43 | the scan lists every legal move once and nothing else |
| TicTacToe.Move | projects/2020/x/tictactoe/tictactoe.py:53-55 | the chosen square gets the mark of the player to move, every other square is unchanged, the empty count drops by one and the mover's count rises by one |
| TicTacToe.Result | projects/2020/x/tictactoe/tictactoe.py:46-55 | a move on a square that is not empty or not on the board is refused; any other move gives the board `Move` describes |
| TicTacToe.WinnerFromLines | projects/2020/x/tictactoe/tictactoe.py:68-78 | the row, column and diagonal checks find the mark exactly when it fills a row or column not yet examined, or a diagonal |
| TicTacToe.WinnerIsLine | projects/2020/x/tictactoe/tictactoe.py:58-79 | the winner is the mark that moved last exactly when that mark fills some line, and there is no winner otherwise |
| TicTacToe.TerminalIff | projects/2020/x/tictactoe/tictactoe.py:82-92 | the game is over exactly when there is no legal move or the last mover fills a line |
| TicTacToe.Utility | projects/2020/x/tictactoe/tictactoe.py:95-104 | the utility lies in [-1, 1]; it is 1 exactly when X has won and -1 exactly when O has |
| TicTacToe.MaxValue | projects/2020/x/tictactoe/tictactoe.py:125-131 | the value lies in [-1, 1], so the sentinel -2 is never returned; a finished board gets its utility; otherwise the value bounds the value of every move for O and some move attains it |
| TicTacToe.MinValue | projects/2020/x/tictactoe/tictactoe.py:134-140 | the value lies in [-1, 1], so the sentinel 2 is never returned; a finished board gets its utility; otherwise the value is at most the value of every move for X and some move attains it |
| TicTacToe.MaxOver | projects/2020/x/tictactoe/tictactoe.py:129-131 | the running maximum is at least its start and every move's value, and it is the start or one move's value |
| TicTacToe.MinOver | projects/2020/x/tictactoe/tictactoe.py:138-140 | the running minimum is at most its start and every move's value, and it is the start or one move's value |
| TicTacToe.First | projects/2020/x/tictactoe/tictactoe.py:116-122 | the key picked is one of those given, and it sorts before every other key: descending order for X, ascending for O |
| TicTacToe.Minimax | projects/2020/x/tictactoe/tictactoe.py:107-122 | no move exactly when the game is over; otherwise a legal move whose (value, row, column) key sorts before that of every other legal move |
| TicTacToe.MinimaxOptimal | projects/2020/x/tictactoe/tictactoe.py:107-140 | the chosen move attains the board's minimax value: for X the maximum over moves of `min_value`, for O the minimum over moves of `max_value` |

## Left out

- `print`, `save` and `main` of the crossword generator (generate.py:34-86, 295-321): terminal output, image rendering and command-line handling.
- The `Crossword` class, which reads the grid and word list from files and derives slots, overlaps and neighbours. It is not part of this model; a puzzle is an input, and the well-formedness its construction guarantees is stated as `Puzzle.WellFormed`.
- Python exceptions:
  - the run-time error of removing from a set while iterating over it in `revise`;
  - the type error of the two-argument `arcs.add`;
  - the exception `result` raises on an illegal move, which `TicTacToe.Result` returns as None instead;
  - an index error on a cell outside the grid in `letter_grid`, or at an overlap index outside a word in `consistent`, which the preconditions `InGrid` and `OverlapsInRange` exclude.
- Iteration order of sets and dictionaries, and the order Python's stable sorts give to ties: the methods choose nondeterministically, and the contracts hold for every choice.
- Search.Backtrack: the source mutates the caller's dictionary and deletes each trial entry again, so on failure the caller's dictionary holds its input contents. The model passes assignments by value, so this restoring step has no counterpart.
- Search.OrderDomainValues: a neighbour word too short for the overlap index would raise an index error in the source. The model counts it as a disagreement. Node consistency rules such words out before the search.
- Letters.LetterGrid: requires every assigned word to stay inside the grid, where the source raises an index error.
- Search.Solve: requires the symmetric neighbour relation and in-range overlap indices, which the `Crossword` class guarantees.
- The heredity and PageRank projects of the same repository: floating-point probability and sampling code outside the modelled core.
