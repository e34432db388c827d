# Tic-tac-toe game logic in Dafny

This project models the game logic of a 3x3 tic-tac-toe page (`ttt.js`). It covers three parts:

- **Win detection.** There are eight winning lines. `checkWin(board, player)` asks whether a symbol owns all three cells of some line. `checkWinner` scans for any line filled by one symbol, then for a full board.
- **The computer opponent.** It uses an exhaustive minimax search, `minimax(newBoard, player)`. "O" maximises: an "O" line scores +10. "X" minimises: an "X" line scores -10. A full board without a line scores 0. The search writes each candidate into the shared board array, recurses, and then writes `""` back. It keeps the first candidate with the best score, because it compares scores strictly.
- **The match.** The state is the board array, the symbol whose turn it is, a running flag and the game mode. `handleMove`, `AIMove`, `checkWinner`, `restartGame` and `changeMode` update that state in place.

How the Dafny is laid out:

- `cells.dfy` (module `Cells`): cells, players and boards, and the ascending list of empty cells.
- `outcome.dfy` (module `Outcome`): the winning lines, `CheckWin`, and the after-placement line test `LineWon`.
- `search.dfy` (module `MoveSearch`): two forms of the search.
  - `Search` is a pure function: the value-level definition of what the search returns.
  - `Minimax` and its two loops (`ScoreCandidates`, `SelectBest`) form the imperative search over the board array. It is proved to return `Search` of the board it was given and to leave the board exactly as it found it.
  - Lemmas about `Search` prove the minimax properties: the score is the best over all empty cells, ties go to the lowest-numbered cell, the terminal scores are fixed, an immediate win is scored as a win, and the search blocks a threat when the loss can be avoided.
- `match.dfy` (module `Match`): class `Game`. It has the fields `board`, `currentPlayer`, `running` and `aiMode`. Its invariant is that a running match is never on a finished board.

The search is a function of the board and the symbol to move, so repeated calls with equal inputs give equal results.

A textbook minimax player would let either symbol maximise, take an immediate win by completing its line, and refuse to search a finished board. The code behaves differently in the points below, and this model follows the code:

- **Which symbol maximises.** The code hard-codes "O" as the maximiser and "X" as the minimiser. The search is not parameterised by the maximising symbol.
- **Terminal check order.** The "X" line test runs before the "O" line test. On a board where both symbols have a line, the score is -10.
- **Completing an immediate win.** When "O" can complete a line, the search scores the position +10. The chosen cell is the first cell that scores +10, and that need not be the completing cell. `MoveSearch.FirstWinningCellNeedNotComplete` gives a board where "O" completes a line at cell 1 or 6, yet the search picks cell 0.
- **Bad input.** The search does not reject a terminal board; it returns a bare score. In the model, `Game.AIMove` is only called on a running match, and `Game.Valid` guarantees that a running match is not on a terminal board.

## Model

| member | source | states |
|---|---|---|
| Cells.Other | ttt.js:66 | the turn passes to the symbol different from the current one |
| Cells.EmptySpots | ttt.js:73 | every listed candidate cell is empty |
| Cells.EmptySpotsExact | ttt.js:73 | the candidate list holds every empty cell, in strictly ascending order, and it is empty iff no cell is `""` |
| Cells.CountEmptyFill | ttt.js:84 | writing a symbol into an empty cell lowers the number of empty cells by one, so the recursion terminates |
| Outcome.AnyOwnedIff | ttt.js:118 | `some` over a list of lines is true iff one of the lines has all three cells equal to the symbol |
| Outcome.CheckWinIff | ttt.js:117-119 | `checkWin` is true iff some line of `winPatterns` is owned by the symbol |
| Outcome.CheckWinUnrolled | ttt.js:117-119 | `checkWin` is true iff one of the eight rows, columns or diagonals of `winPatterns` is owned by the symbol |
| Outcome.FilledLine | ttt.js:11-15 | a board with one winning line filled by a symbol and every other cell empty is a win for that symbol and not for the other |
| Outcome.NoMarkNoWin | ttt.js:117-119 | a symbol absent from the board has no line |
| Outcome.LineWonIff | ttt.js:50-57 | the scan in `checkWinner` (first cell non-empty and equal to the other two) finds a line iff `checkWin` holds for "X" or for "O" |
| Outcome.WinMonotone | ttt.js:117-119 | adding cells of a symbol never removes that symbol's win |
| Outcome.PlacementKeepsOtherLines | ttt.js:84 | placing one symbol cannot create a line for the other symbol |
| MoveSearch.BestScore | ttt.js:96-113 | the selected score is one of the candidates' scores and is at least as good for the mover as every candidate: the maximum for "O", the minimum for "X" |
| MoveSearch.FirstWithScore | ttt.js:99-112 | the selected position holds the best score and no earlier candidate has that score |
| MoveSearch.ChildScore | ttt.js:84-92 | the score of a candidate is the search's score after the mover's placement, with the other symbol to move; it is -10, 0 or 10 |
| MoveSearch.Search | ttt.js:72-115 | every score the search returns is -10, 0 or 10 |
| MoveSearch.TerminalScores | ttt.js:75-77 | an "X" line gives a bare -10 (tested first), otherwise an "O" line a bare +10, otherwise a full board a bare 0 |
| MoveSearch.SearchIsMinimax | ttt.js:81-114 | on a non-terminal board the result carries a cell that was empty; its score is that cell's child score, at least as good as every empty cell's child score (maximum for "O", minimum for "X"); every lower-numbered empty cell scores differently, so ties go to the lowest cell |
| MoveSearch.CandidatesExact | ttt.js:79-94 | the candidate list holds every empty cell exactly once, in strictly ascending cell order, each entry carrying an empty cell and that cell's child score |
| MoveSearch.CandidateAt | ttt.js:73-94 | every empty cell has a candidate carrying that cell and its child score, at the position where exactly the lower-numbered empty cells come before it |
| MoveSearch.ImmediateWin | ttt.js:72-115 | if the mover can complete a line in one move, the search scores the position as a win for the mover (+10 for "O", -10 for "X") |
| MoveSearch.NonBlockingLoses | ttt.js:72-115 | when the opponent threatens a line at one cell, any other move that does not win at once scores as a win for the opponent |
| MoveSearch.BlocksWhenItCan | ttt.js:72-115 | when the opponent threatens a line, the mover has no immediate win, and the search's score is not a loss, the chosen cell is the blocking cell |
| MoveSearch.FirstWinningCellNeedNotComplete | ttt.js:96-114 | on a concrete board "O" completes a line at cell 1 or 6, but the search returns cell 0 with score +10, because it is the first +10 cell and scores are not weighted by depth |
| MoveSearch.FirstBestIsUnique | ttt.js:99-112 | a candidate that is best and strictly better than every earlier candidate is the selected one |
| MoveSearch.SelectBest | ttt.js:96-113 | the scan with a sentinel of -11 ("O") or 11 ("X") and a strict comparison returns the first candidate with the best score |
| MoveSearch.ScoredPrefixGrows | ttt.js:79-94 | appending the child search's score for the next empty cell extends the scored prefix of the candidate list by one |
| MoveSearch.ScoreCandidates | ttt.js:79-94 | each empty cell is filled, scored by the recursive search with the other symbol to move, and emptied again; the board is unchanged afterwards and every candidate's score is the search's score of its child board |
| MoveSearch.Minimax | ttt.js:72-115 | the board array holds exactly its entry contents on every return, and the result equals `Search` of the entry board |
| Match.Game.constructor | ttt.js:6-9 | the match starts on an empty board with "X" to move, running, in player-versus-player mode |
| Match.Game.RoundWon | ttt.js:48-57 | the line scan returns true iff some winning line has a non-empty first cell equal to its other two cells |
| Match.Game.CheckWinner | ttt.js:47-69 | the board is untouched; a line or a full board stops the match and keeps the current symbol; otherwise the turn flips and the running flag is kept |
| Match.Game.HandleMove | ttt.js:24-37 | a taken cell or a stopped match changes nothing; otherwise the only board change is the current symbol at the clicked cell, followed by the end-of-turn transition; the computer's move is due iff the mode is computer, the match still runs and "O" is to move |
| Match.Game.AIMove | ttt.js:39-45 | "O" is written into the empty cell chosen by the search for "O", and then the end-of-turn transition runs |
| Match.Game.RestartGame | ttt.js:121-128 | a fresh empty board, "X" to move, running; the mode is kept |
| Match.Game.ChangeMode | ttt.js:130-133 | the mode is set and the match restarts |

## Left out

- Page access is not modelled: the `document` queries, click and change handlers, cell texts and status messages. These are presentation only.
- The index of the clicked cell comes from an HTML attribute. Here it is an `Index` in 0..8.
- `setTimeout(AIMove, 500)` is not modelled. `Game.HandleMove` returns whether the computer's move is due, and `Game.AIMove` is a separate operation.
- The click race is not modelled. During the delay, a person can click again and move for "O". `Game.AIMove` requires a running match, so a delayed move onto a finished board is outside the model.
- The game mode is a boolean (`aiMode`), not the strings from the mode menu.
- The `-Infinity` and `Infinity` start values are the integers -11 and 11. Every score is -10, 0 or 10, so the first candidate always replaces them, as the infinities would.
- `checkWin` and `minimax` accept any string as a player. The model accepts only "X" and "O", the only values the page passes.
- The claim that the search scores the empty board 0 is not proved. It would need the value of the whole game tree, about 550,000 nodes of the game tree, and the verifier does not evaluate that.
- MoveSearch.BlocksWhenItCan: holds only when the loss is avoidable (the score is not a loss). With two threats, every move loses, and the search returns the lowest empty cell, which need not be the blocking cell `c`.
