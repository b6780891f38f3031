# Tic-tac-toe engine, modelled in Dafny

This project models the tic-tac-toe engine in `tictactoe/tictactoe.py`.
The engine works on a 3 × 3 board of cells, each holding `X`, `O` or nothing.

- **Board queries.** `player` says whose turn it is, `actions` lists the free
  squares, `winner` reports a complete line, `terminal` says whether the game
  is over, and `utility` scores a finished game (1, -1 or 0).
- **Transition.** `result` plays one move.
- **Search.** `minimax` chooses the optimal move. It is built on the mutually
  recursive evaluators `max_value` and `min_value`. Each evaluator stops
  scanning as soon as it reaches the best value its player can hope for.

Everything is in one module, `TicTacToe`, in `tictactoe.dfy`.

- **Boards and moves.**
  - A board is a value of the subset type `Board`: three rows of three
    `Cell`s. `result` returns a new board and never touches its input.
  - A move is a pair of integers. Any pair may be asked for, and the errors
    the source raises become `None`.
- **Counting loops.** The loops of `player`, `actions` and `winner` are
  methods. Each is proved equal to a plain definition: `Count`/`NextMark`,
  `EmptyCells` and `WinnerOf` (the winner scan in the source's order).
- **Evaluators.** The evaluators and `minimax` are methods whose loops take
  the moves in an arbitrary order, because the source iterates over a Python
  set. They are proved against ghost definitions of the game value:
  - `MaxValueOf`/`MinValueOf` give the value of a position.
  - `MaxOver`/`MinOver` fold the best value over a set of moves.
- **Tie-breaking.** `Minimax` also returns, as a ghost value, the order in
  which it tried the moves. This is how the model states the source's rule:
  the move kept is the first one in that order to reach the optimal value.

## Model

| member | source | states |
|---|---|---|
| `TicTacToe.InitialState` | tictactoe/tictactoe.py:15-21 | every square of the starting board is empty |
| `TicTacToe.InitialStateFacts` | tictactoe/tictactoe.py:15-40 | on the starting board both mark counts are 0, X is to move, and the legal moves are all nine squares |
| `TicTacToe.Player` | tictactoe/tictactoe.py:24-42 | it fails (None) exactly on a grid that is not 3 × 3; otherwise it returns X exactly when X has placed no more marks than O, and O exactly when X has placed more |
| `TicTacToe.Actions` | tictactoe/tictactoe.py:45-58 | the set built by the nested loops holds exactly the on-board pairs whose square is empty |
| `TicTacToe.Result` | tictactoe/tictactoe.py:61-71 | it fails exactly when the move is off the board or on an occupied square; otherwise the new board equals the old one except at the move, which holds the mark of the player to move; the legal moves lose exactly that move, so their number drops by one |
| `TicTacToe.ResultCounts` | tictactoe/tictactoe.py:68-69 | a legal move adds one mark of the player to move and leaves the other mark count unchanged |
| `TicTacToe.ResultAlternates` | tictactoe/tictactoe.py:40-69 | from a position reachable by alternating play, a legal move keeps the counts consistent with alternating play and hands the turn to the other player |
| `TicTacToe.Winner` | tictactoe/tictactoe.py:74-86 | the loop with early returns computes the scan row 0, column 0, row 1, …, then the diagonal test exactly as it is grouped in the source |
| `TicTacToe.WinnerSound` | tictactoe/tictactoe.py:78-86 | a reported winner has a complete line of its own mark |
| `TicTacToe.WinnerNone` | tictactoe/tictactoe.py:78-86 | no winner is reported exactly when neither mark has a complete line |
| `TicTacToe.WinnerOnly` | tictactoe/tictactoe.py:79-85 | when only one mark has a complete line, that mark is reported, whatever the order of the checks |
| `TicTacToe.TerminalIff` | tictactoe/tictactoe.py:89-93 | the game is over exactly when every square is taken or one of the marks has a complete line |
| `TicTacToe.Utility` | tictactoe/tictactoe.py:96-108 | there is no score exactly when the game is not over; a score lies in -1 … 1 |
| `TicTacToe.UtilityMeaning` | tictactoe/tictactoe.py:100-108 | the score is 1 exactly when the game is over and X is the winner, and -1 exactly when it is over and O is; a score of 1 or -1 comes with a complete line of that mark; the score is 0 exactly on a full board with no complete line |
| `TicTacToe.MaxValueOf` | tictactoe/tictactoe.py:141-152 | the value of a position for X always lies in -1 … 1 |
| `TicTacToe.MinValueOf` | tictactoe/tictactoe.py:155-166 | the value of a position for O always lies in -1 … 1 |
| `TicTacToe.MaxOver` | tictactoe/tictactoe.py:145-148 | the maximiser's fold is -2 over no moves, lies in -1 … 1 otherwise, and is at least the value of every move folded in |
| `TicTacToe.MinOver` | tictactoe/tictactoe.py:159-162 | the minimiser's fold is 2 over no moves, lies in -1 … 1 otherwise, and is at most the value of every move folded in |
| `TicTacToe.MaxOverAttained` | tictactoe/tictactoe.py:145-148 | the maximiser's fold over a non-empty set of moves is the value of one of those moves |
| `TicTacToe.MinOverAttained` | tictactoe/tictactoe.py:159-162 | the minimiser's fold over a non-empty set of moves is the value of one of those moves |
| `TicTacToe.MaxOverMonotone` | tictactoe/tictactoe.py:147-148 | folding in more moves never lowers the maximiser's value |
| `TicTacToe.MinOverMonotone` | tictactoe/tictactoe.py:161-162 | folding in more moves never raises the minimiser's value |
| `TicTacToe.MaxOverAdd` | tictactoe/tictactoe.py:147-148 | folding in one more move is one more `max`, in whatever order the set yields the moves |
| `TicTacToe.MinOverAdd` | tictactoe/tictactoe.py:161-162 | folding in one more move is one more `min`, in whatever order the set yields the moves |
| `TicTacToe.MaxOverTop` | tictactoe/tictactoe.py:149-150 | once the moves tried reach 1, the fold over all moves is 1, so the maximiser's early exit is sound |
| `TicTacToe.MinOverBottom` | tictactoe/tictactoe.py:163-164 | once the moves tried reach -1, the fold over all moves is -1, so the minimiser's early exit is sound |
| `TicTacToe.MaxValue` | tictactoe/tictactoe.py:141-152 | the loop with early exit returns the value of the position for X, in any iteration order |
| `TicTacToe.MinValue` | tictactoe/tictactoe.py:155-166 | the loop with early exit returns the value of the position for O, in any iteration order |
| `TicTacToe.MaxScanStep` | tictactoe/tictactoe.py:120-125 | each iteration of X's scan keeps the running best value and the first move that reached it, replacing it only with a strictly better move |
| `TicTacToe.MinScanStep` | tictactoe/tictactoe.py:131-136 | each iteration of O's scan keeps the running best value and the first move that reached it, replacing it only with a strictly lower one |
| `TicTacToe.MaximisingMove` | tictactoe/tictactoe.py:118-127 | there is no move exactly when no square is free, and the move is legal; after X's scan of all legal moves, the running value is the fold over all moves and the move kept is the first in the order tried to reach it |
| `TicTacToe.MinimisingMove` | tictactoe/tictactoe.py:129-138 | there is no move exactly when no square is free, and the move is legal; after O's scan of all legal moves, the running value is the fold over all moves and the move kept is the first in the order tried to reach it |
| `TicTacToe.MaxScanDone` | tictactoe/tictactoe.py:118-127 | at the end of X's scan, the move kept is legal and no other legal move gives X more; no earlier move in the order tried gives as much; before the end of the game its value is the value of the position |
| `TicTacToe.MinScanDone` | tictactoe/tictactoe.py:129-138 | at the end of O's scan, the move kept is legal and no other legal move gives O less; no earlier move in the order tried gives as little; before the end of the game its value is the value of the position |
| `TicTacToe.Minimax` | tictactoe/tictactoe.py:111-138 | there is no move exactly when no square is free; the move is legal, optimal for the player to move and the first optimal one in the order the moves were tried, which lists every legal move once; on a position that is not over, its value is the value of the position |
| `TicTacToe.DiagonalWinScenario` | tictactoe/tictactoe.py:84-85 | on [[X,O,X],[O,X,O],[O,_,X]] the winner is X, the game is over and the score is 1 |
| `TicTacToe.DrawScenario` | tictactoe/tictactoe.py:89-108 | on [[X,O,X],[X,O,O],[O,X,X]] there is no winner, the game is over and the score is 0 |
| `TicTacToe.OccupiedMoveScenario` | tictactoe/tictactoe.py:65-66 | playing on an occupied square, or on a square off the board, fails |

## Left out

- `valid_board` comes from `helpers`, which is not part of this model.
  - Its shape test (three rows of three) is the predicate `IsBoard`.
  - Its test that each cell is `X`, `O` or `None` is already given by the
    type `Cell`.
  - Only `Player` takes an arbitrary grid, as the source checks only there.
    Every other operation takes a `Board`, so grids of another shape are not
    modelled for them.
- Python exceptions (`ValueError` in `player` and `result`) are modelled as
  `None` results. `utility` returns Python's `None` on an unfinished game,
  which is also `None` here.
- The order in which a Python set is iterated is left arbitrary. Each loop
  picks its next move with `:|`, and the properties are proved for every
  order. Which of several equally good moves `minimax` returns is therefore
  not fixed.
- The `math.inf` seeds of the folds are modelled as -2 and 2. These are
  integers outside the range of scores. Floating-point numbers are not
  modelled.
- `copy.deepcopy` in `result` is not modelled as such. Boards are values, so
  the input board is never changed.
- `minimax` does not refuse a board that already has a winner but still has
  free squares. The model keeps this: the move is `None` only on a full
  board. The engine's design says a finished game yields no move; the code
  keeps that promise only for full boards, and the model follows the code.
- The diagonal test is modelled with the source's grouping, where the
  emptiness guard covers only the main diagonal. An empty anti-diagonal then
  "matches" and reports the empty cell, which reads as no winner.
  `WinnerNone` and `WinnerSound` show that this grouping gives the same
  answers as the plain definition by complete lines.
- The whole tree search is not evaluated on concrete boards. The game value
  of the empty board (a draw), and the best reply in a particular mid-game
  position, are left out, because that evaluation would unfold the game tree
  inside the verifier.
