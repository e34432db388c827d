/** Exhaustive minimax search. "O" maximises (a win is worth +10) and "X"
    minimises (a win is worth -10); a full board without a winner is worth 0.

    `Search` is the value-level definition of what the search returns;
    `Minimax` is the search as the game runs it, placing candidates into the
    shared board array and taking them back, proved to return `Search` of
    the board it was given and to leave that board as it found it. */
module MoveSearch {
  import opened Cells
  import opened Outcome

  /** A search result. A terminal board yields only a score; otherwise the
      chosen cell and its score. */
  datatype Move = Terminal(score: int) | Choice(index: Index, score: int)

  /** The score of a win for `p`. */
  function WinScore(p: Player): int
  {
    if p == O then 10 else -10
  }

  /** Score `s` is at least as good as `t` for `p`: higher for "O", lower
      for "X". */
  predicate Prefers(p: Player, s: int, t: int)
  {
    if p == O then t <= s else s <= t
  }

  /** A score the search can return. */
  predicate IsScore(s: int)
  {
    s == -10 || s == 0 || s == 10
  }

  /** The best score among the candidates for `p`: the maximum for "O",
      the minimum for "X". */
  function BestScore(p: Player, ms: seq<Move>): (v: int)
    requires |ms| > 0
    ensures exists k | 0 <= k < |ms| :: ms[k].score == v
    ensures forall k | 0 <= k < |ms| :: Prefers(p, v, ms[k].score)
  {
    if |ms| == 1 then ms[0].score
    else
      var v := BestScore(p, ms[..|ms| - 1]);
      var s := ms[|ms| - 1].score;
      assert forall k | 0 <= k < |ms| - 1 :: ms[..|ms| - 1][k] == ms[k];
      if Prefers(p, v, s) then v else s
  }

  /** The position of the first candidate scoring `v`. */
  function FirstWithScore(ms: seq<Move>, v: int): (k: nat)
    requires exists j | 0 <= j < |ms| :: ms[j].score == v
    ensures k < |ms| && ms[k].score == v
    ensures forall j | 0 <= j < k :: ms[j].score != v
  {
    if ms[0].score == v then 0
    else
      var j :| 0 <= j < |ms| && ms[j].score == v;
      assert ms[1..][j - 1].score == v;
      1 + FirstWithScore(ms[1..], v)
  }

  /** The score of answering `p`'s move into empty cell `i`: the search
      from the resulting board with the other symbol to move. */
  function ChildScore(b: Board, p: Player, i: Index): (s: int)
    requires b[i] == Empty
    ensures IsScore(s)
    decreases CountEmpty(b), 0
  {
    CountEmptyFill(b, i, p);
    Search(b[i := p], Other(p)).score
  }

  /** One candidate per empty cell, in ascending cell order. */
  function Candidates(b: Board, p: Player): seq<Move>
    decreases CountEmpty(b), 1
  {
    var spots := EmptySpots(b);
    seq(|spots|, k requires 0 <= k < |spots| => Choice(spots[k], ChildScore(b, p, spots[k])))
  }

  /** The result of the search from board `b` with `p` to move. The
      "X"-win test comes first, then the "O"-win test, then the full-board
      test; otherwise the first candidate with the best score is chosen. */
  function Search(b: Board, p: Player): (m: Move)
    ensures IsScore(m.score)
    decreases CountEmpty(b), 2
  {
    if CheckWin(b, X) then Terminal(-10)
    else if CheckWin(b, O) then Terminal(10)
    else if EmptySpots(b) == [] then Terminal(0)
    else
      var ms := Candidates(b, p);
      ms[FirstWithScore(ms, BestScore(p, ms))]
  }

  /** Terminal scoring: an "X" line gives -10 (checked first), an "O" line
      +10, a full board without a line 0; no index in any of them. */
  lemma TerminalScores(b: Board, p: Player)
    ensures CheckWin(b, X) ==> Search(b, p) == Terminal(-10)
    ensures !CheckWin(b, X) && CheckWin(b, O) ==> Search(b, p) == Terminal(10)
    ensures !CheckWin(b, X) && !CheckWin(b, O) && Empty !in b ==> Search(b, p) == Terminal(0)
  {
  }

  /** On a board that is not terminal the search picks an empty cell; its
      score is the best of all empty cells' scores for `p` (maximum for
      "O", minimum for "X"), and every lower-numbered empty cell scores
      differently, so the first best cell in ascending order wins ties. */
  lemma {:induction false} SearchIsMinimax(b: Board, p: Player)
    requires !IsTerminal(b)
    ensures Search(b, p).Choice?
    ensures b[Search(b, p).index] == Empty
    ensures Search(b, p).score == ChildScore(b, p, Search(b, p).index)
    ensures forall i: Index | b[i] == Empty :: Prefers(p, Search(b, p).score, ChildScore(b, p, i))
    ensures forall i: Index | i < Search(b, p).index && b[i] == Empty ::
      ChildScore(b, p, i) != Search(b, p).score
  {
    var spots := EmptySpots(b);
    EmptySpotsExact(b);
    var ms := Candidates(b, p);
    var v := BestScore(p, ms);
    var k := FirstWithScore(ms, v);
    assert Search(b, p) == ms[k];
    forall i: Index | b[i] == Empty
      ensures Prefers(p, v, ChildScore(b, p, i))
      ensures i < spots[k] ==> ChildScore(b, p, i) != v
    {
      var j := CandidateAt(b, p, i);
      if i < spots[k] {
        assert j < k;
      }
    }
  }

  /** Every empty cell has a candidate, at the position of that cell in
      the ascending list of empty cells. */
  lemma CandidateAt(b: Board, p: Player, i: Index) returns (j: nat)
    requires b[i] == Empty
    ensures j < |Candidates(b, p)| && EmptySpots(b)[j] == i
    ensures Candidates(b, p)[j] == Choice(i, ChildScore(b, p, i))
    ensures forall l | 0 <= l < |EmptySpots(b)| :: l < j <==> EmptySpots(b)[l] < i
  {
    EmptySpotsExact(b);
    var spots := EmptySpots(b);
    assert i in spots;
    j :| 0 <= j < |spots| && spots[j] == i;
  }

  /** The candidate list holds one entry per empty cell, each carrying its
      cell and that cell's child score, in strictly ascending cell order. */
  lemma CandidatesExact(b: Board, p: Player)
    ensures forall k | 0 <= k < |Candidates(b, p)| ::
      Candidates(b, p)[k].Choice? && b[Candidates(b, p)[k].index] == Empty &&
      Candidates(b, p)[k].score == ChildScore(b, p, Candidates(b, p)[k].index)
    ensures forall k, l | 0 <= k < l < |Candidates(b, p)| ::
      Candidates(b, p)[k].index < Candidates(b, p)[l].index
    ensures forall i: Index | b[i] == Empty ::
      exists k | 0 <= k < |Candidates(b, p)| :: Candidates(b, p)[k].index == i
  {
    EmptySpotsExact(b);
    forall i: Index | b[i] == Empty
      ensures exists k | 0 <= k < |Candidates(b, p)| :: Candidates(b, p)[k].index == i
    {
      var j := CandidateAt(b, p, i);
    }
  }

  /** When `p` can complete a line in one move, the search's score is a
      win for `p`. The chosen cell is only the first one reaching that
      score, which need not be a completing cell (see
      `FirstWinningCellNeedNotComplete`), since scores are not weighted
      by depth. */
  lemma ImmediateWin(b: Board, p: Player, i: Index)
    requires !IsTerminal(b) && b[i] == Empty
    requires CheckWin(b[i := p], p)
    ensures Search(b, p).score == WinScore(p)
  {
    var c := b[i := p];
    if p == O && CheckWin(c, X) {
      PlacementKeepsOtherLines(b, i, p);
    }
    TerminalScores(c, Other(p));
    assert Search(c, Other(p)).score == WinScore(p);
    assert ChildScore(b, p, i) == WinScore(p);
    SearchIsMinimax(b, p);
  }

  /** If the opponent `q` threatens to complete a line at cell `c`, every
      other move by `p` that does not itself win lets `q` win. */
  lemma NonBlockingLoses(b: Board, p: Player, c: Index, i: Index)
    requires !IsTerminal(b) && b[c] == Empty && b[i] == Empty && i != c
    requires CheckWin(b[c := Other(p)], Other(p))
    requires !CheckWin(b[i := p], p)
    ensures ChildScore(b, p, i) == WinScore(Other(p))
  {
    var q := Other(p);
    var b' := b[i := p];
    if CheckWin(b', q) {
      PlacementKeepsOtherLines(b, i, p);
    }
    assert b'[c] == Empty;
    assert !IsTerminal(b') by {
      if p == X { assert !CheckWin(b', O); } else { assert !CheckWin(b', X); }
    }
    WinMonotone(b[c := q], b'[c := q], q);
    ImmediateWin(b', q, c);
  }

  /** If the opponent threatens a line at `c`, `p` has no winning move of
      its own, and losing is avoidable (the search's score is not a loss),
      the search blocks at `c`. */
  lemma BlocksWhenItCan(b: Board, p: Player, c: Index)
    requires !IsTerminal(b) && b[c] == Empty
    requires CheckWin(b[c := Other(p)], Other(p))
    requires forall i: Index | b[i] == Empty :: !CheckWin(b[i := p], p)
    requires Search(b, p).score != WinScore(Other(p))
    ensures Search(b, p).Choice? && Search(b, p).index == c
  {
    SearchIsMinimax(b, p);
    var i := Search(b, p).index;
    if i != c {
      NonBlockingLoses(b, p, c, i);
    }
  }

  /** Board `b` holds the nine given cells, row by row. */
  predicate Looks(b: Board, c0: Cell, c1: Cell, c2: Cell, c3: Cell, c4: Cell,
                  c5: Cell, c6: Cell, c7: Cell, c8: Cell)
  {
    b[0] == c0 && b[1] == c1 && b[2] == c2 && b[3] == c3 && b[4] == c4 &&
    b[5] == c5 && b[6] == c6 && b[7] == c7 && b[8] == c8
  }

  /** The example board: "O" completes a line at 1 (column 1-4-7) and at 6
      (diagonal 2-4-6); cell 0 completes nothing. */
  lemma ExampleBoardFacts(b: Board)
    requires Looks(b, Empty, Empty, O, X, O, X, Empty, O, X)
    ensures !CheckWin(b, X) && !CheckWin(b, O)
    ensures CheckWin(b[6 := O], O) && CheckWin(b[1 := O], O) && !CheckWin(b[0 := O], O)
  {
    CheckWinUnrolled(b, X);
    CheckWinUnrolled(b, O);
    CheckWinUnrolled(b[6 := O], O);
    CheckWinUnrolled(b[1 := O], O);
    CheckWinUnrolled(b[0 := O], O);
  }

  /** After "O" at 0 and "X" at 1, "O" still wins at 6. */
  lemma ExampleReplyAt1(b: Board)
    requires Looks(b, O, X, O, X, O, X, Empty, O, X)
    ensures Search(b, O).score == 10
  {
    CheckWinUnrolled(b, X);
    CheckWinUnrolled(b, O);
    CheckWinUnrolled(b[6 := O], O);
    assert b[6] in b;
    ImmediateWin(b, O, 6);
  }

  /** After "O" at 0 and "X" at 6, "O" still wins at 1. */
  lemma ExampleReplyAt6(b: Board)
    requires Looks(b, O, Empty, O, X, O, X, X, O, X)
    ensures Search(b, O).score == 10
  {
    CheckWinUnrolled(b, X);
    CheckWinUnrolled(b, O);
    CheckWinUnrolled(b[1 := O], O);
    assert b[1] in b;
    ImmediateWin(b, O, 1);
  }

  /** After "O" at 0, every reply by "X" leaves "O" a win: +10. */
  lemma ExampleAfterO0(b: Board)
    requires Looks(b, O, Empty, O, X, O, X, Empty, O, X)
    ensures Search(b, X).score == 10
  {
    assert !IsTerminal(b) by {
      CheckWinUnrolled(b, X);
      CheckWinUnrolled(b, O);
      assert b[1] in b;
    }
    assert ChildScore(b, X, 1) == 10 by {
      ExampleReplyAt1(b[1 := X]);
    }
    assert ChildScore(b, X, 6) == 10 by {
      ExampleReplyAt6(b[6 := X]);
    }
    SearchIsMinimax(b, X);
    var i := Search(b, X).index;
    assert i == 1 || i == 6 by {
      assert b[i] == Empty;
    }
  }

  /** On the example board "O" can complete a line at 1 and at 6, yet the
      search picks cell 0, the first cell whose score is +10. */
  lemma FirstWinningCellNeedNotComplete(b: Board)
    requires Looks(b, Empty, Empty, O, X, O, X, Empty, O, X)
    ensures CheckWin(b[6 := O], O) && CheckWin(b[1 := O], O) && !CheckWin(b[0 := O], O)
    ensures Search(b, O) == Choice(0, 10)
  {
    ExampleBoardFacts(b);
    assert !IsTerminal(b) by {
      assert b[0] in b;
    }
    assert ChildScore(b, O, 0) == 10 by {
      ExampleAfterO0(b[0 := O]);
    }
    assert Search(b, O).score == 10 by {
      ImmediateWin(b, O, 6);
    }
    SearchIsMinimax(b, O);
    var m := Search(b, O);
  }

  /** On a board that is not terminal, `Search` is the selection among
      the candidate list. */
  lemma SearchSelects(b: Board, p: Player, moves: seq<Move>)
    requires !IsTerminal(b)
    requires |moves| == |EmptySpots(b)|
    requires forall k {:trigger moves[k]} | 0 <= k < |moves| ::
      moves[k] == Choice(EmptySpots(b)[k], Search(b[EmptySpots(b)[k] := p], Other(p)).score)
    ensures |moves| > 0 && forall k | 0 <= k < |moves| :: IsScore(moves[k].score)
    ensures Search(b, p) == moves[FirstWithScore(moves, BestScore(p, moves))]
  {
    EmptySpotsExact(b);
    assert moves == Candidates(b, p);
  }

  /** A candidate that is best for `p` and strictly better than every
      candidate before it is the one `Search` selects. */
  lemma FirstBestIsUnique(p: Player, ms: seq<Move>, k: nat)
    requires k < |ms|
    requires forall j | 0 <= j < |ms| :: Prefers(p, ms[k].score, ms[j].score)
    requires forall j | 0 <= j < k :: ms[j].score != ms[k].score
    ensures k == FirstWithScore(ms, BestScore(p, ms))
  {
    var v := BestScore(p, ms);
    var w :| 0 <= w < |ms| && ms[w].score == v;
    assert Prefers(p, v, ms[k].score);
    assert v == ms[k].score;
    var f := FirstWithScore(ms, v);
    assert !(f < k) && !(k < f);
  }

  /** Selection of the best candidate: a scan in candidate order that
      replaces the running best only on a strictly better score, starting
      from a sentinel worse than every score (-11 for "O", 11 for "X"). */
  method SelectBest(moves: seq<Move>, player: Player) returns (bestMove: nat)
    requires |moves| > 0
    requires forall k | 0 <= k < |moves| :: IsScore(moves[k].score)
    ensures bestMove == FirstWithScore(moves, BestScore(player, moves))
  {
    bestMove := 0;
    if player == O {
      var bestScore := -11;
      for k := 0 to |moves|
        invariant k == 0 ==> bestScore == -11 && bestMove == 0
        invariant 0 < k ==> bestMove < k && moves[bestMove].score == bestScore
        invariant forall j | 0 <= j < k :: moves[j].score <= bestScore
        invariant forall j | 0 <= j < bestMove :: moves[j].score < bestScore
      {
        if moves[k].score > bestScore {
          bestScore := moves[k].score;
          bestMove := k;
        }
      }
    } else {
      var bestScore := 11;
      for k := 0 to |moves|
        invariant k == 0 ==> bestScore == 11 && bestMove == 0
        invariant 0 < k ==> bestMove < k && moves[bestMove].score == bestScore
        invariant forall j | 0 <= j < k :: bestScore <= moves[j].score
        invariant forall j | 0 <= j < bestMove :: bestScore < moves[j].score
      {
        if moves[k].score < bestScore {
          bestScore := moves[k].score;
          bestMove := k;
        }
      }
    }
    FirstBestIsUnique(player, moves, bestMove);
  }

  /** The search as it runs on the shared board array: the terminal
      tests, then the scored candidates, then the selection of the best. */
  method Minimax(board: array<Cell>, player: Player) returns (m: Move)
    requires board.Length == 9
    modifies board
    ensures board[..] == old(board[..])
    ensures m == Search(old(board[..]), player)
    decreases CountEmpty(board[..]), 1
  {
    var emptySpots := EmptySpots(board[..]);

    if CheckWin(board[..], X) { return Terminal(-10); }
    if CheckWin(board[..], O) { return Terminal(10); }
    if |emptySpots| == 0 { return Terminal(0); }

    var moves := ScoreCandidates(board, player, emptySpots);
    EmptySpotsExact(board[..]);
    SearchSelects(board[..], player, moves);
    var bestMove := SelectBest(moves, player);
    m := moves[bestMove];
  }

  /** The first `j` candidates of `spots` have been scored: each carries
      its cell and the search's score after `p` plays there. */
  ghost predicate ScoredPrefix(b: Board, p: Player, spots: seq<Index>, moves: seq<Move>, j: nat)
  {
    j <= |spots| && |moves| == j &&
    forall k {:trigger moves[k]} | 0 <= k < j ::
      moves[k] == Choice(spots[k], Search(b[spots[k] := p], Other(p)).score)
  }

  lemma {:induction false} ScoredPrefixGrows(b: Board, p: Player, spots: seq<Index>, moves: seq<Move>, j: nat, child: Move)
    requires ScoredPrefix(b, p, spots, moves, j) && j < |spots|
    requires child == Search(b[spots[j] := p], Other(p))
    ensures ScoredPrefix(b, p, spots, moves + [Choice(spots[j], child.score)], j + 1)
  {
    var moves' := moves + [Choice(spots[j], child.score)];
    forall k | 0 <= k < j + 1
      ensures moves'[k] == Choice(spots[k], Search(b[spots[k] := p], Other(p)).score)
    {
      if k < j {
        assert moves'[k] == moves[k];
      }
    }
  }

  /** The candidate loop of the search: each empty cell in ascending order
      is filled with `player`, scored by the search with the other symbol
      to move, and emptied again before the next one. */
  method ScoreCandidates(board: array<Cell>, player: Player, emptySpots: seq<Index>)
    returns (moves: seq<Move>)
    requires board.Length == 9
    requires emptySpots == EmptySpots(board[..])
    modifies board
    ensures board[..] == old(board[..])
    ensures |moves| == |emptySpots|
    ensures forall k {:trigger moves[k]} | 0 <= k < |moves| ::
      moves[k] == Choice(emptySpots[k], Search(old(board[..])[emptySpots[k] := player], Other(player)).score)
    decreases CountEmpty(board[..]), 0
  {
    ghost var b: Board := board[..];
    moves := [];
    for j := 0 to |emptySpots|
      invariant board[..] == b
      invariant ScoredPrefix(b, player, emptySpots, moves, j)
    {
      var i := emptySpots[j];
      ghost var c := b[i := player];
      board[i] := player;
      assert board[..] == c;
      CountEmptyFill(b, i, player);
      var child := Minimax(board, Other(player));
      board[i] := Empty;
      assert board[..] == b;
      ScoredPrefixGrows(b, player, emptySpots, moves, j, child);
      moves := moves + [Choice(i, child.score)];
    }
  }
}
