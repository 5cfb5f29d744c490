/**
 The computer player: minimax search that marks a cell on the board itself,
 recurses, and takes the mark back before trying the next cell. The agent
 holds no state of its own, so its two operations are methods over a board.
 */
module Agent {
  import opened Wrappers
  import opened Board
  import Search

  /**
   Searches `board` in place; the result is the pure search's result on the
   position the board held on entry, and the board is handed back unchanged.
   */
  method Minimax(board: GameBoard, depth: nat, isMaximizing: bool) returns (r: Search.Eval)
    modifies board
    ensures r == Search.Minimax(old(board.State()), depth, isMaximizing)
    ensures board.X == old(board.X) && board.O == old(board.O) && board.playerOne == old(board.playerOne)
    decreases FreeCells(board.State())
  {
    var winner := board.GameOver();
    if winner == WinX {
      return Search.Eval(Search.Fin(10 - depth), None);
    }
    if winner == WinO {
      return Search.Eval(Search.Fin(depth - 10), None);
    }
    if winner == Draw {
      return Search.Eval(Search.Fin(0), None);
    }

    ghost var start := board.State();
    if isMaximizing {
      var maxEval := Search.Eval(Search.NegInf, None);
      for i := 1 to 10
        invariant board.X == start.x && board.O == start.o && board.playerOne == old(board.playerOne)
        invariant Search.SearchFrom(start, depth, true, i, maxEval) == Search.Minimax(start, depth, true)
      {
        if board.CellFree(i) {
          PlaceShrinks(start, i, true);
          board.X := board.X + [i];
          var val := Minimax(board, depth + 1, false);
          board.X := board.X[..|board.X| - 1];
          if Search.Less(maxEval.score, val.score) {
            maxEval := Search.Eval(val.score, Some(i));
          }
        }
      }
      return maxEval;
    } else {
      var minEval := Search.Eval(Search.PosInf, None);
      for i := 1 to 10
        invariant board.X == start.x && board.O == start.o && board.playerOne == old(board.playerOne)
        invariant Search.SearchFrom(start, depth, false, i, minEval) == Search.Minimax(start, depth, false)
      {
        if board.CellFree(i) {
          PlaceShrinks(start, i, false);
          board.O := board.O + [i];
          var val := Minimax(board, depth + 1, true);
          board.O := board.O[..|board.O| - 1];
          if Search.Less(val.score, minEval.score) {
            minEval := Search.Eval(val.score, Some(i));
          }
        }
      }
      return minEval;
    }
  }

  /**
   The move the computer plays: the search's move at ply 0 with the board's
   mover maximizing; the board is left as it was.
   */
  method GetBestMove(board: GameBoard) returns (move: Option<int>)
    modifies board
    ensures move == Search.BestMove(old(board.State()), old(board.playerOne))
    ensures board.X == old(board.X) && board.O == old(board.O) && board.playerOne == old(board.playerOne)
  {
    var r := Minimax(board, 0, board.playerOne);
    move := r.move;
  }
}
