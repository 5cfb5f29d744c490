# Tic-tac-toe game state and minimax agent, in Dafny

This project models the logic of a browser tic-tac-toe game: the `GameBoard`
that records X's and O's moves and whose turn it is, and the `Agent` that
picks the computer's move by exhaustive minimax.

- `board.dfy`, module `Board`: cells are numbered 1..9 row by row. A
  `Position` is the pair of move lists (X's, O's). `Evaluate` is terminal
  detection: the eight winning triples are checked in a fixed order, X before
  O within each triple, and then the board is checked for nine marks (draw).
  The class `GameBoard` keeps the fields `X`, `O` and `playerOne` and has the
  operations `CellFree`, `Move`, `GameOver` and `Reset`. Its invariant `Valid()`
  says:
  - every mark is a cell in 1..9;
  - neither list repeats a cell, and no cell is in both lists;
  - X has played as many moves as O, or one more;
  - `playerOne` holds exactly when the two lists are the same length.
- `search.dfy`, module `Search`: the minimax search written as pure
  functions. `Minimax` scores a leaf as `10 - depth` for an X win,
  `depth - 10` for an O win and `0` for a draw. Otherwise `SearchFrom` scans
  the free cells in ascending order and keeps a child only when its score is
  strictly better (`>` when maximizing, `<` when minimizing). The
  `-Infinity`/`Infinity` starting values are the `NegInf`/`PosInf` cases of
  `Score`, and `Less` is JavaScript's `<` on them. The lemmas here say what
  the search computes.
- `agent.dfy`, module `Agent`: the search as the source runs it. It pushes the
  trial mark onto `board.X` or `board.O`, recurses, pops the mark, and updates
  `maxEval`/`minEval` in a loop over cells 1..9. The method is proved equal to
  `Search.Minimax` on the position it starts from. It is also proved to hand
  the board back exactly as it found it. The source's `Agent` class has no
  fields, so its two operations are methods of a module.

The search terminates because every ply marks a free cell. The measure is the
set of free cells, which shrinks strictly at each ply. This needs no
precondition: the source's search also ends on boards that break the
invariant.

## Model

| member | source | states |
|---|---|---|
| `Board.GameBoard.constructor` | script.js:2-7 | a new board has empty move lists, X to move, and satisfies the board invariant |
| `Board.GameBoard.CellFree` | script.js:9-11 | a cell is free exactly when no entry of X's or O's list equals it |
| `Board.GameBoard.Move` | script.js:13-23 | on a free cell: appends the cell to the mover's list (X's if `playerOne`, otherwise O's), leaves the other list alone, flips the turn and answers the verdict of the new position; on a taken cell: nothing changes and the answer is `Ignored` (the source's `0`); the board invariant is preserved |
| `Board.GameBoard.GameOver` | script.js:25-36 | the pattern loop with early returns computes exactly `Evaluate` of the current lists, and the board is not modified |
| `Board.GameBoard.Reset` | script.js:38-46 | both lists become empty, X is to move, the invariant holds and every cell 1..9 is free |
| `Board.EvaluateCharacterized` | script.js:25-36 | X wins iff some triple is complete for X with no earlier triple complete for either player; O wins iff some triple is complete for O but not X, with no earlier complete triple; draw iff neither player has a line and the lists hold nine marks; open iff neither has a line and they do not |
| `Board.LineWins` | script.js:31-34 | for each of the eight triples, a player holding it while the opponent holds no line is reported the winner |
| `Board.PlaceKeepsWellFormed` | script.js:14-19 | marking a free cell keeps every mark in 1..9, no repeats and the lists disjoint; it removes exactly that cell from the free set |
| `Board.PlaceShrinks` | script.js:63-65 | marking a free cell strictly shrinks the set of free cells, the measure on which the search terminates |
| `Board.FreeCellCount` | script.js:35 | on a well-formed position the number of free cells is 9 minus the marks in both lists, so nine marks means a full grid |
| `Search.SearchFromFirstBest` | script.js:62-69 | the scan from cell `i` either keeps its running best, or ends on a free cell `k >= i` and reports that cell's child score, which strictly beats the running best; no free child from `i` on beats the result; every free cell before `k` scores strictly worse |
| `Search.MinimaxChoosesFirstBest` | script.js:60-82 | on a well-formed position that is not over, the search returns a free cell whose child score it reports; no free cell's child is strictly better for the mover (the maximum when maximizing, the minimum when minimizing); every lower free cell is strictly worse, so ties go to the lowest cell |
| `Search.ScoreFinite` | script.js:61-81 | on a well-formed position the returned score is never the `-Infinity`/`Infinity` sentinel |
| `Search.LeafScores` | script.js:53-58 | a finished game yields no move; below ply 10 an X win scores positive, an O win negative and a draw zero, and a win or loss has magnitude `10 - depth` |
| `Search.ScoreBounds` | script.js:52-65 | on a well-formed position where the ply plus the free cells is at most 10, the score is finite and lies in `depth - 10 .. 10 - depth`; at ply 0 that is -10..10 |
| `Search.BestMoveIsFreeCell` | script.js:85-87 | on a well-formed board the computer's move exists exactly when the game is not over, and it is a free cell |
| `Search.TopRowThreatIsOpen` | script.js:25-36 | the position X = [1, 2], O = [4, 5] is well-formed and not over |
| `Search.TopRowCompletionScores` | script.js:55 | from that position, X marking 3 wins at ply 1 and scores 9 |
| `Search.BestMoveCompletesTopRow` | script.js:85-87 | with X on 1 and 2, O on 4 and 5 and X to move, the computer plays 3 |
| `Agent.Minimax` | script.js:52-83 | the in-place search returns exactly `Search.Minimax` of the entry position, and `X`, `O` and `playerOne` are as they were on entry |
| `Agent.GetBestMove` | script.js:85-87 | returns the move of the search at ply 0 with the board's mover maximizing, and leaves the board unchanged |

## Left out

- The `cells` array of page elements and every `className`/`textContent` write
  (script.js:3, 16-18, 39-42): rendering only.
- The page's event handler (script.js:90-159): click wiring, status text, score
  tallies, the player-versus-agent switch and the `gameActive` flag.
- Board.GameBoard.Move: requires a cell in 1..9. In the source, any other
  number makes `this.cells[cell - 1]` undefined, and the class-name write at
  script.js:17 throws after the push. With the page elements left out, that
  failure is not modelled.
- JavaScript's floating-point `Infinity` is not modelled. The sentinels are the
  `NegInf`/`PosInf` cases of an integer score, ordered as `<` orders them.
- The move reply distinguishes `Ignored` (the source's `0`) from `Moved(Open)`
  (the source's `null`). A JavaScript caller sees both as falsy.
- That the agent playing both sides from the empty board always draws is not
  proved: it needs the whole game tree, about 9! nodes, to be unfolded.

## Notes on the model

- The board keeps move lists, not sets, as script.js:4-5 does. A draw is
  decided by the lists' lengths (`X.length + O.length === 9`, script.js:35).
- The invariant `Valid()` also needs "X is at most one move ahead" so that
  `playerOne <==> |X| == |O|` survives a move.
