/**
 The minimax search as pure functions over positions: the specification the
 imperative search in module Agent is proved equal to, and the lemmas that
 say what the search computes.
 */
module Search {
  import opened Wrappers
  import opened Board

  /** A score: a finite integer, or one of the sentinels `-Infinity` and `Infinity`. */
  datatype Score = NegInf | Fin(n: int) | PosInf

  /** The strict order `<` on scores, the sentinels at either end. */
  predicate Less(a: Score, b: Score) {
    match a
    case NegInf => !b.NegInf?
    case Fin(m) => b.PosInf? || (b.Fin? && m < b.n)
    case PosInf => false
  }

  /** A search result: a score and, below a non-terminal position, the chosen cell. */
  datatype Eval = Eval(score: Score, move: Option<int>)

  /** `s` beats `best` for the player to move: `>` when maximizing, `<` when minimizing. */
  predicate Improves(maximizing: bool, s: Score, best: Score) {
    if maximizing then Less(best, s) else Less(s, best)
  }

  /** The sentinel a search starts from: `-Infinity` when maximizing, `Infinity` otherwise. */
  function Sentinel(maximizing: bool): Score {
    if maximizing then NegInf else PosInf
  }

  /**
   Minimax value of `p` at ply `depth`: the leaf score of a terminal position,
   otherwise the best child over the free cells. X is the maximizing mark.
   */
  function Minimax(p: Position, depth: nat, maximizing: bool): Eval
    decreases FreeCells(p), 1
  {
    match Evaluate(p)
    case WinX => Eval(Fin(10 - depth), None)
    case WinO => Eval(Fin(depth - 10), None)
    case Draw => Eval(Fin(0), None)
    case Open => SearchFrom(p, depth, maximizing, 1, Eval(Sentinel(maximizing), None))
  }

  /** The child's result when the mover marks free cell `c`. */
  function Child(p: Position, depth: nat, maximizing: bool, c: int): Eval
    requires IsCell(c) && IsFree(p, c)
    decreases FreeCells(p), 0, 0
  {
    PlaceShrinks(p, c, maximizing);
    Minimax(Place(p, c, maximizing), depth + 1, !maximizing)
  }

  /** The scan over cells `i`..9 in ascending order, keeping a strictly better child. */
  function SearchFrom(p: Position, depth: nat, maximizing: bool, i: int, best: Eval): Eval
    requires 1 <= i <= 10
    decreases FreeCells(p), 0, 10 - i
  {
    if i == 10 then best
    else if IsFree(p, i) then
      var val := Child(p, depth, maximizing, i);
      SearchFrom(p, depth, maximizing, i + 1,
                 if Improves(maximizing, val.score, best.score) then Eval(val.score, Some(i)) else best)
    else SearchFrom(p, depth, maximizing, i + 1, best)
  }

  /** What `getBestMove` answers: the move of the search at ply 0, the board's mover maximizing. */
  function BestMove(p: Position, playerOne: bool): Option<int> {
    Minimax(p, 0, playerOne).move
  }

  /** The score the child at cell `c` reports. */
  function ChildScore(p: Position, depth: nat, maximizing: bool, c: int): Score
    requires IsCell(c) && IsFree(p, c)
  {
    Child(p, depth, maximizing, c).score
  }

  /**
   The scan from cell `i` either keeps `best` or ends on a free cell `k >= i`
   whose child it reports and whose score strictly beats `best`; no free
   child from `i` on beats the result; and every free cell scanned before `k`
   is strictly worse, so ties go to the lowest cell.
   */
  lemma {:induction false} SearchFromFirstBest(p: Position, depth: nat, maximizing: bool, i: int, best: Eval)
    requires 1 <= i <= 10
    ensures var r := SearchFrom(p, depth, maximizing, i, best);
      && (r == best || (&& r.move.Some? && i <= r.move.value <= 9 && IsFree(p, r.move.value)
                        && r.score == ChildScore(p, depth, maximizing, r.move.value)
                        && Improves(maximizing, r.score, best.score)))
      && !Improves(maximizing, best.score, r.score)
      && (forall c :: i <= c <= 9 && IsFree(p, c) ==> !Improves(maximizing, ChildScore(p, depth, maximizing, c), r.score))
      && (r != best ==> forall c :: i <= c < r.move.value && IsFree(p, c) ==>
                          Improves(maximizing, r.score, ChildScore(p, depth, maximizing, c)))
    decreases 10 - i
  {
    if i < 10 {
      var next := best;
      if IsFree(p, i) {
        var val := Child(p, depth, maximizing, i);
        if Improves(maximizing, val.score, best.score) {
          next := Eval(val.score, Some(i));
        }
      }
      SearchFromFirstBest(p, depth, maximizing, i + 1, next);
    }
  }

  /** The scan from cell 1 and the sentinel, restated over the free cells. */
  lemma SearchFromSentinel(p: Position, depth: nat, maximizing: bool)
    ensures var init := Eval(Sentinel(maximizing), None);
      var r := SearchFrom(p, depth, maximizing, 1, init);
      && (r == init || (&& r.move.Some? && r.move.value in FreeCells(p)
                        && r.score == ChildScore(p, depth, maximizing, r.move.value)))
      && (forall c :: c in FreeCells(p) ==> !Improves(maximizing, ChildScore(p, depth, maximizing, c), r.score))
      && (r != init ==> forall c :: c in FreeCells(p) && c < r.move.value ==>
                          Improves(maximizing, r.score, ChildScore(p, depth, maximizing, c)))
  {
    var init := Eval(Sentinel(maximizing), None);
    SearchFromFirstBest(p, depth, maximizing, 1, init);
  }

  /**
   On a well-formed position that is not terminal, the search returns a free
   cell, reports that cell's child score, no free child scores strictly
   better, and every lower free cell scores strictly worse.
   */
  lemma {:induction false} MinimaxChoosesFirstBest(p: Position, depth: nat, maximizing: bool)
    requires WellFormed(p) && Evaluate(p) == Open
    ensures var r := Minimax(p, depth, maximizing);
      && r.move.Some? && r.move.value in FreeCells(p)
      && r.score == ChildScore(p, depth, maximizing, r.move.value)
      && (forall c :: c in FreeCells(p) ==> !Improves(maximizing, ChildScore(p, depth, maximizing, c), r.score))
      && (forall c :: c in FreeCells(p) && c < r.move.value ==>
            Improves(maximizing, r.score, ChildScore(p, depth, maximizing, c)))
    decreases FreeCells(p), 0
  {
    var init := Eval(Sentinel(maximizing), None);
    var r := Minimax(p, depth, maximizing);
    assert r == SearchFrom(p, depth, maximizing, 1, init);
    SearchFromSentinel(p, depth, maximizing);
    OpenHasFreeCell(p);
    var c :| c in FreeCells(p);
    PlaceKeepsWellFormed(p, c, maximizing);
    ScoreFinite(Place(p, c, maximizing), depth + 1, !maximizing);
    assert Improves(maximizing, ChildScore(p, depth, maximizing, c), init.score);
  }

  /** On a well-formed position the score is never a sentinel. */
  lemma {:induction false} ScoreFinite(p: Position, depth: nat, maximizing: bool)
    requires WellFormed(p)
    ensures Minimax(p, depth, maximizing).score.Fin?
    decreases FreeCells(p), 1
  {
    if Evaluate(p) == Open {
      MinimaxChoosesFirstBest(p, depth, maximizing);
      var k := Minimax(p, depth, maximizing).move.value;
      PlaceKeepsWellFormed(p, k, maximizing);
      ScoreFinite(Place(p, k, maximizing), depth + 1, !maximizing);
    }
  }

  /** A well-formed position that is not terminal has a free cell. */
  lemma OpenHasFreeCell(p: Position)
    requires WellFormed(p) && Evaluate(p) == Open
    ensures FreeCells(p) != {}
  {
    EvaluateCharacterized(p);
    FreeCellCount(p);
  }
  /**
   Leaf scores: a terminal position carries no move; an X win scores
   positive, an O win negative and a draw zero (at ply below 10), and a win's
   magnitude is 10 minus the ply, so quicker wins and slower losses score better.
   */
  lemma LeafScores(p: Position, depth: nat, maximizing: bool)
    requires Evaluate(p) != Open && depth < 10
    ensures var r := Minimax(p, depth, maximizing);
      && r.move == None && r.score.Fin?
      && (r.score.n > 0 <==> Evaluate(p) == WinX)
      && (r.score.n < 0 <==> Evaluate(p) == WinO)
      && (r.score.n == 0 <==> Evaluate(p) == Draw)
      && (Evaluate(p) != Draw ==> r.score.n == 10 - depth || r.score.n == depth - 10)
  {
  }

  /**
   On a well-formed position whose ply plus free cells is at most 10, the
   score is finite and lies between `depth - 10` and `10 - depth`; at ply 0
   that is the range -10..10.
   */
  lemma {:induction false} ScoreBounds(p: Position, depth: nat, maximizing: bool)
    requires WellFormed(p) && depth + |FreeCells(p)| <= 10
    ensures var s := Minimax(p, depth, maximizing).score;
      s.Fin? && depth - 10 <= s.n <= 10 - depth
    decreases FreeCells(p)
  {
    if Evaluate(p) == Open {
      MinimaxChoosesFirstBest(p, depth, maximizing);
      var k := Minimax(p, depth, maximizing).move.value;
      PlaceKeepsWellFormed(p, k, maximizing);
      ScoreBounds(Place(p, k, maximizing), depth + 1, !maximizing);
    }
  }

  /**
   `getBestMove` on a well-formed board answers a move exactly when the
   game is not over, and the move is a free cell of the grid.
   */
  lemma BestMoveIsFreeCell(p: Position, playerOne: bool)
    requires WellFormed(p)
    ensures BestMove(p, playerOne).Some? <==> Evaluate(p) == Open
    ensures BestMove(p, playerOne).Some? ==> BestMove(p, playerOne).value in FreeCells(p)
  {
    if Evaluate(p) == Open {
      MinimaxChoosesFirstBest(p, 0, playerOne);
    }
  }

  /** The position X = [1, 2], O = [4, 5] has no line yet and the game goes on. */
  lemma TopRowThreatIsOpen()
    ensures WellFormed(Position([1, 2], [4, 5]))
    ensures Evaluate(Position([1, 2], [4, 5])) == Open
  {
    var p := Position([1, 2], [4, 5]);
    assert !HasLine(p.x) by {
      forall k | 0 <= k < |WinPatterns| ensures !Complete(p.x, WinPatterns[k]) {
        assert WinPatterns[k][2] !in p.x;
      }
    }
    assert !HasLine(p.o) by {
      forall k | 0 <= k < |WinPatterns| ensures !Complete(p.o, WinPatterns[k]) {
        assert WinPatterns[k][0] !in p.o || WinPatterns[k][2] !in p.o;
      }
    }
    EvaluateCharacterized(p);
  }

  /** Marking 3 there wins for X at ply 1, scoring 9. */
  lemma TopRowCompletionScores()
    ensures IsFree(Position([1, 2], [4, 5]), 3)
    ensures ChildScore(Position([1, 2], [4, 5]), 0, true, 3) == Fin(9)
  {
    var win := Place(Position([1, 2], [4, 5]), 3, true);
    assert Complete(win.x, WinPatterns[0]);
    assert Evaluate(win) == WinX;
  }

  /** With X on 1 and 2, O on 4 and 5 and X to move, X completes the top row at 3. */
  lemma BestMoveCompletesTopRow()
    ensures BestMove(Position([1, 2], [4, 5]), true) == Some(3)
  {
    var p := Position([1, 2], [4, 5]);
    TopRowThreatIsOpen();
    TopRowCompletionScores();
    MinimaxChoosesFirstBest(p, 0, true);
    var r := Minimax(p, 0, true);
    var k := r.move.value;
    PlaceKeepsWellFormed(p, k, true);
    FreeCellCount(Place(p, k, true));
    ScoreBounds(Place(p, k, true), 1, false);
    assert r.score == Fin(9);
    assert k in FreeCells(p);
  }
}
