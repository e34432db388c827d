/** Win and draw detection: the eight winning lines, the per-player win test
    used by the search, and the "one symbol fills a line" test used after
    every placement in a match. */
module Outcome {
  import opened Cells

  /** A winning line: three board indices. */
  type Line = (Index, Index, Index)

  /** The three rows, the three columns and the two diagonals. */
  const WinPatterns: seq<Line> := [
    (0, 1, 2), (3, 4, 5), (6, 7, 8),
    (0, 3, 6), (1, 4, 7), (2, 5, 8),
    (0, 4, 8), (2, 4, 6)
  ]

  /** Every cell of line `l` holds `p`. */
  predicate Owns(b: Board, l: Line, p: Cell)
  {
    b[l.0] == p && b[l.1] == p && b[l.2] == p
  }

  /** Some line of `lines` is owned by `p`, tried in order. */
  function AnyOwned(b: Board, p: Cell, lines: seq<Line>): bool
  {
    if lines == [] then false
    else Owns(b, lines[0], p) || AnyOwned(b, p, lines[1..])
  }

  /** Whether `p` owns every cell of some winning line. */
  function CheckWin(b: Board, p: Player): bool
  {
    AnyOwned(b, p, WinPatterns)
  }

  /** `some` over the lines holds iff one of the lines is owned. */
  lemma {:induction false} AnyOwnedIff(b: Board, p: Cell, lines: seq<Line>)
    ensures AnyOwned(b, p, lines) <==> exists k | 0 <= k < |lines| :: Owns(b, lines[k], p)
  {
    if lines != [] {
      AnyOwnedIff(b, p, lines[1..]);
      if AnyOwned(b, p, lines[1..]) {
        var k :| 0 <= k < |lines| - 1 && Owns(b, lines[1..][k], p);
        assert Owns(b, lines[k + 1], p);
      }
      if exists k | 0 <= k < |lines| :: Owns(b, lines[k], p) {
        var k :| 0 <= k < |lines| && Owns(b, lines[k], p);
        if k > 0 {
          assert Owns(b, lines[1..][k - 1], p);
        }
      }
    }
  }

  /** `checkWin` holds iff one of the winning lines is owned by `p`. */
  lemma CheckWinIff(b: Board, p: Player)
    ensures CheckWin(b, p) <==> exists k | 0 <= k < |WinPatterns| :: Owns(b, WinPatterns[k], p)
  {
    AnyOwnedIff(b, p, WinPatterns);
  }

  /** One line's test after a placement: its first cell is non-empty and
      the other two equal it. */
  predicate Uniform(b: Board, l: Line)
  {
    b[l.0] != Empty && b[l.0] == b[l.1] && b[l.0] == b[l.2]
  }

  /** Some winning line is filled by a single symbol. */
  predicate LineWon(b: Board)
  {
    exists k | 0 <= k < |WinPatterns| :: Uniform(b, WinPatterns[k])
  }

  /** A board on which the search stops: a win for either symbol or no
      empty cell left. */
  predicate IsTerminal(b: Board)
  {
    CheckWin(b, X) || CheckWin(b, O) || Empty !in b
  }

  /** The board with exactly the cells of `l` set to `p`. */
  function LineBoard(l: Line, p: Player): Board
  {
    seq(9, j => if j == l.0 || j == l.1 || j == l.2 then p else Empty)
  }

  /** The win test is the eight-way disjunction over the winning lines. */
  lemma CheckWinUnrolled(b: Board, p: Player)
    ensures CheckWin(b, p) <==>
      Owns(b, (0, 1, 2), p) || Owns(b, (3, 4, 5), p) || Owns(b, (6, 7, 8), p) ||
      Owns(b, (0, 3, 6), p) || Owns(b, (1, 4, 7), p) || Owns(b, (2, 5, 8), p) ||
      Owns(b, (0, 4, 8), p) || Owns(b, (2, 4, 6), p)
  {
    CheckWinIff(b, p);
    if CheckWin(b, p) {
      var k :| 0 <= k < |WinPatterns| && Owns(b, WinPatterns[k], p);
      if k == 0 {} else if k == 1 {} else if k == 2 {} else if k == 3 {}
      else if k == 4 {} else if k == 5 {} else if k == 6 {} else {}
    } else {
      assert !Owns(b, WinPatterns[0], p) && !Owns(b, WinPatterns[1], p);
      assert !Owns(b, WinPatterns[2], p) && !Owns(b, WinPatterns[3], p);
      assert !Owns(b, WinPatterns[4], p) && !Owns(b, WinPatterns[5], p);
      assert !Owns(b, WinPatterns[6], p) && !Owns(b, WinPatterns[7], p);
    }
  }

  /** A symbol that appears nowhere on the board has no line. */
  lemma NoMarkNoWin(b: Board, q: Player)
    requires q !in b
    ensures !CheckWin(b, q)
  {
    CheckWinIff(b, q);
    forall k | 0 <= k < |WinPatterns|
      ensures !Owns(b, WinPatterns[k], q)
    {
      assert b[WinPatterns[k].0] in b;
    }
  }

  /** A line filled with one symbol (everything else empty) is a win for
      that symbol and not for the other one. */
  lemma FilledLine(k: nat, p: Player)
    requires k < |WinPatterns|
    ensures CheckWin(LineBoard(WinPatterns[k], p), p)
    ensures !CheckWin(LineBoard(WinPatterns[k], p), Other(p))
  {
    var b := LineBoard(WinPatterns[k], p);
    CheckWinIff(b, p);
    assert Owns(b, WinPatterns[k], p);
    NoMarkNoWin(b, Other(p));
  }

  /** The after-placement test agrees with the per-player win test: some
      line is filled by one symbol exactly when "X" or "O" has won. */
  lemma LineWonIff(b: Board)
    ensures LineWon(b) <==> CheckWin(b, X) || CheckWin(b, O)
  {
    CheckWinIff(b, X);
    CheckWinIff(b, O);
    if LineWon(b) {
      var k :| 0 <= k < |WinPatterns| && Uniform(b, WinPatterns[k]);
      var p: Player := b[WinPatterns[k].0];
      assert Owns(b, WinPatterns[k], p);
    }
    if CheckWin(b, X) {
      var k :| 0 <= k < |WinPatterns| && Owns(b, WinPatterns[k], X);
      assert Uniform(b, WinPatterns[k]);
    }
    if CheckWin(b, O) {
      var k :| 0 <= k < |WinPatterns| && Owns(b, WinPatterns[k], O);
      assert Uniform(b, WinPatterns[k]);
    }
  }

  /** Adding cells of `q` never takes a win away from `q`. */
  lemma WinMonotone(s: Board, t: Board, q: Player)
    requires forall j | 0 <= j < 9 :: s[j] == q ==> t[j] == q
    requires CheckWin(s, q)
    ensures CheckWin(t, q)
  {
    CheckWinIff(s, q);
    CheckWinIff(t, q);
    var k :| 0 <= k < |WinPatterns| && Owns(s, WinPatterns[k], q);
    assert Owns(t, WinPatterns[k], q);
  }

  /** Placing one symbol cannot give the other symbol a line. */
  lemma PlacementKeepsOtherLines(b: Board, i: Index, p: Player)
    requires CheckWin(b[i := p], Other(p))
    ensures CheckWin(b, Other(p))
  {
    WinMonotone(b[i := p], b, Other(p));
  }
}
