/** The match: the board array, the symbol whose turn it is, whether the
    match is still running, and whether the computer plays "O". Placement
    by a person (`HandleMove`) or by the computer (`AIMove`) is followed by
    the end-of-turn check (`CheckWinner`); `RestartGame` starts over. */
module Match {
  import opened Cells
  import opened Outcome
  import opened MoveSearch

  /** The end-of-turn transition on board `b`: a filled line or a full
      board stops the match and keeps the current symbol; otherwise the
      turn passes to the other symbol and the running flag is kept. */
  ghost predicate Settled(b: Board, cur: Player, run: bool, cur': Player, run': bool)
  {
    if LineWon(b) || Empty !in b then !run' && cur' == cur
    else run' == run && cur' == Other(cur)
  }

  class Game {
    var board: array<Cell>
    var currentPlayer: Player
    var running: bool
    /** The player-versus-computer mode. */
    var aiMode: bool

    /** Nine cells, and a running match is never on a finished board. */
    ghost predicate Valid()
      reads this, board
    {
      board.Length == 9 && (running ==> !IsTerminal(board[..]))
    }

    /** The initial state: an empty board, "X" to move, running, in the
        player-versus-player mode. */
    constructor ()
      ensures Valid() && fresh(board)
      ensures board[..] == EmptyBoard && currentPlayer == X && running && !aiMode
    {
      board := new Cell[9](_ => Empty);
      currentPlayer := X;
      running := true;
      aiMode := false;
      new;
      assert board[..] == EmptyBoard;
      EmptyBoardOpen();
    }

    /** The line scan of the end-of-turn check: stops at the first winning
        line whose first cell is non-empty and equal to the other two. */
    method RoundWon() returns (roundWon: bool)
      requires board.Length == 9
      ensures roundWon <==> LineWon(board[..])
    {
      roundWon := false;
      var i := 0;
      while i < |WinPatterns|
        invariant 0 <= i <= |WinPatterns|
        invariant !roundWon
        invariant forall k | 0 <= k < i :: !Uniform(board[..], WinPatterns[k])
      {
        var (a, b, c) := WinPatterns[i];
        if board[a] != Empty && board[a] == board[b] && board[a] == board[c] {
          assert Uniform(board[..], WinPatterns[i]);
          roundWon := true;
          return;
        }
        i := i + 1;
      }
    }

    /** End of a turn: stop the match on a win or a full board, otherwise
        pass the turn. The board is not touched. */
    method CheckWinner()
      requires board.Length == 9
      modifies this`currentPlayer, this`running
      ensures Valid()
      ensures Settled(board[..], old(currentPlayer), old(running), currentPlayer, running)
    {
      var roundWon := RoundWon();
      if roundWon {
        running := false;
      } else if Empty !in board[..] {
        running := false;
      } else {
        currentPlayer := Other(currentPlayer);
        LineWonIff(board[..]);
      }
    }

    /** A click on cell `index`: ignored when the cell is taken or the
        match is over; otherwise the current symbol is placed there and the
        turn ends. The result says whether the computer's move is then due
        (computer mode, match still running, "O" to move). */
    method HandleMove(index: Index) returns (scheduleAI: bool)
      requires Valid()
      modifies this`currentPlayer, this`running, board
      ensures Valid()
      ensures old(board[index]) != Empty || !old(running) ==>
        board[..] == old(board[..]) && currentPlayer == old(currentPlayer) &&
        running == old(running) && !scheduleAI
      ensures old(board[index]) == Empty && old(running) ==>
        board[..] == old(board[..])[index := old(currentPlayer)] &&
        Settled(board[..], old(currentPlayer), old(running), currentPlayer, running) &&
        scheduleAI == (aiMode && running && currentPlayer == O)
    {
      if board[index] != Empty || !running {
        return false;
      }
      board[index] := currentPlayer;
      CheckWinner();
      scheduleAI := aiMode && running && currentPlayer == O;
    }

    /** The computer's move: "O" is placed on the cell the search chooses
        for "O", and the turn ends. */
    method AIMove()
      requires Valid() && running
      modifies this`currentPlayer, this`running, board
      ensures Valid()
      ensures var m := Search(old(board[..]), O);
        m.Choice? && old(board[..])[m.index] == Empty &&
        board[..] == old(board[..])[m.index := O] &&
        Settled(board[..], old(currentPlayer), old(running), currentPlayer, running)
    {
      SearchIsMinimax(board[..], O);
      var best := Minimax(board, O);
      board[best.index] := O;
      CheckWinner();
    }

    /** A new match on a fresh empty board with "X" to move; the mode is
        kept. */
    method RestartGame()
      modifies this
      ensures Valid() && fresh(board)
      ensures board[..] == EmptyBoard && currentPlayer == X && running
      ensures aiMode == old(aiMode)
    {
      board := new Cell[9](_ => Empty);
      currentPlayer := X;
      running := true;
      assert board[..] == EmptyBoard;
      EmptyBoardOpen();
    }

    /** Switching mode restarts the match. */
    method ChangeMode(ai: bool)
      modifies this
      ensures Valid() && fresh(board)
      ensures board[..] == EmptyBoard && currentPlayer == X && running
      ensures aiMode == ai
    {
      aiMode := ai;
      RestartGame();
    }
  }

  /** The empty board is not finished: nobody has a line and every cell is
      free. */
  lemma EmptyBoardOpen()
    ensures !IsTerminal(EmptyBoard)
  {
    NoMarkNoWin(EmptyBoard, X);
    NoMarkNoWin(EmptyBoard, O);
    assert EmptyBoard[0] in EmptyBoard;
  }
}
