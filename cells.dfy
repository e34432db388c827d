/** Cells, players and the 3x3 board, with the enumeration of empty cells
    that the move search iterates over. */
module Cells {

  /** A cell holds "", "X" or "O". */
  datatype Cell = Empty | X | O

  /** The two symbols that can be placed. */
  type Player = c: Cell | c != Empty witness X

  /** A board index, 0..8, row-major. */
  type Index = i: nat | i < 9

  /** A board: exactly nine cells. */
  type Board = s: seq<Cell> | |s| == 9
    witness [Empty, Empty, Empty, Empty, Empty, Empty, Empty, Empty, Empty]

  /** The board a match starts from. */
  const EmptyBoard: Board := [Empty, Empty, Empty, Empty, Empty, Empty, Empty, Empty, Empty]

  /** The symbol that moves next: "X" becomes "O" and "O" becomes "X". */
  function Other(p: Player): (q: Player)
    ensures q != p
  {
    if p == X then O else X
  }

  /** Number of empty cells; it drops by one with every placement, which is
      why the recursive search terminates. */
  function CountEmpty(s: seq<Cell>): (n: nat)
    ensures n <= |s|
  {
    if s == [] then 0 else (if s[0] == Empty then 1 else 0) + CountEmpty(s[1..])
  }

  lemma {:induction false} CountEmptyFill(s: seq<Cell>, i: nat, c: Cell)
    requires i < |s| && s[i] == Empty && c != Empty
    ensures CountEmpty(s[i := c]) == CountEmpty(s) - 1
  {
    if i == 0 {
      assert s[i := c][1..] == s[1..];
    } else {
      assert s[i := c][1..] == s[1..][i - 1 := c];
      CountEmptyFill(s[1..], i - 1, c);
    }
  }

  /** The empty cells among the first `n` cells, in ascending order. */
  function EmptySpotsIn(b: Board, n: nat): (s: seq<Index>)
    requires n <= 9
    ensures forall k | 0 <= k < |s| :: s[k] < n && b[s[k]] == Empty
  {
    if n == 0 then []
    else if b[n - 1] == Empty then EmptySpotsIn(b, n - 1) + [(n - 1) as Index]
    else EmptySpotsIn(b, n - 1)
  }

  /** The indices of the empty cells, ascending: the candidate moves. */
  function EmptySpots(b: Board): (s: seq<Index>)
    ensures forall k | 0 <= k < |s| :: b[s[k]] == Empty
  {
    EmptySpotsIn(b, |b|)
  }

  lemma {:induction false} EmptySpotsInComplete(b: Board, n: nat)
    requires n <= 9
    ensures forall i | 0 <= i < n && b[i] == Empty :: i in EmptySpotsIn(b, n)
  {
    if n > 0 {
      EmptySpotsInComplete(b, n - 1);
      var rest := EmptySpotsIn(b, n - 1);
      if b[n - 1] == Empty {
        var s := rest + [(n - 1) as Index];
        assert EmptySpotsIn(b, n) == s;
        forall i | 0 <= i < n && b[i] == Empty
          ensures i in s
        {
          if i == n - 1 {
            assert s[|rest|] == i;
          } else {
            var k :| 0 <= k < |rest| && rest[k] == i;
            assert s[k] == i;
          }
        }
      } else {
        assert EmptySpotsIn(b, n) == rest;
      }
    }
  }

  lemma {:induction false} EmptySpotsInAscending(b: Board, n: nat)
    requires n <= 9
    ensures forall k, l | 0 <= k < l < |EmptySpotsIn(b, n)| ::
      EmptySpotsIn(b, n)[k] < EmptySpotsIn(b, n)[l]
  {
    if n > 0 {
      EmptySpotsInAscending(b, n - 1);
      var rest := EmptySpotsIn(b, n - 1);
      if b[n - 1] == Empty {
        var s := rest + [(n - 1) as Index];
        assert EmptySpotsIn(b, n) == s;
        forall k, l | 0 <= k < l < |s|
          ensures s[k] < s[l]
        {
          assert s[k] == rest[k];
          if l < |rest| {
            assert s[l] == rest[l];
          }
        }
      }
    }
  }

  /** The candidate list holds every empty cell, each once, in strictly
      ascending order, and it is empty exactly when no cell is empty. */
  lemma EmptySpotsExact(b: Board)
    ensures forall i | 0 <= i < 9 && b[i] == Empty :: i in EmptySpots(b)
    ensures forall k, l | 0 <= k < l < |EmptySpots(b)| :: EmptySpots(b)[k] < EmptySpots(b)[l]
    ensures EmptySpots(b) == [] <==> Empty !in b
  {
    EmptySpotsInComplete(b, 9);
    EmptySpotsInAscending(b, 9);
    assert EmptySpots(b) == EmptySpotsIn(b, 9);
    if EmptySpots(b) != [] {
      assert b[EmptySpots(b)[0]] == Empty;
    }
    if Empty in b {
      var i :| 0 <= i < 9 && b[i] == Empty;
      assert i in EmptySpots(b);
    }
  }
}
