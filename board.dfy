/** Optional values: the `move` field of a search result is `undefined` on a leaf. */
module Wrappers {
  datatype Option<T> = None | Some(value: T)
}

/**
 The game state of a 3x3 tic-tac-toe board. Cells are numbered 1..9 row by row;
 the state is the list of cells X has marked, the list O has marked (in the
 order they were played) and whose turn it is.
 */
module Board {

  /** A cell index of the 3x3 grid. */
  predicate IsCell(c: int) {
    1 <= c <= 9
  }

  /** The marks on the board, without the turn flag: what terminal detection and search look at. */
  datatype Position = Position(x: seq<int>, o: seq<int>)

  /** What `gameOver` reports: 'X', 'O', 'Draw', or null (the game goes on). */
  datatype Verdict = WinX | WinO | Draw | Open

  /** What `move` returns: 0 when the cell was taken, otherwise the verdict after the move. */
  datatype MoveReply = Ignored | Moved(verdict: Verdict)

  /** The three rows, the three columns and the two diagonals, in the order they are checked. */
  const WinPatterns: seq<seq<int>> :=
    [[1, 2, 3], [4, 5, 6], [7, 8, 9],
     [1, 4, 7], [2, 5, 8], [3, 6, 9],
     [1, 5, 9], [3, 5, 7]]

  /** Every cell of `pattern` is in the move list `s`. */
  predicate Complete(s: seq<int>, pattern: seq<int>) {
    forall k :: 0 <= k < |pattern| ==> pattern[k] in s
  }

  /** Some winning triple lies wholly within the move list `s`. */
  predicate HasLine(s: seq<int>) {
    exists k :: 0 <= k < |WinPatterns| && Complete(s, WinPatterns[k])
  }

  /** No pattern before index `k` is complete for either player. */
  predicate NoLineBefore(p: Position, k: int) {
    forall j :: 0 <= j < k && j < |WinPatterns| ==>
      !Complete(p.x, WinPatterns[j]) && !Complete(p.o, WinPatterns[j])
  }

  /** The verdict found by checking the patterns from index `k` on (X before O in each). */
  function ScanFrom(p: Position, k: nat): Verdict
    requires k <= |WinPatterns|
    decreases |WinPatterns| - k
  {
    if k == |WinPatterns| then
      if |p.x| + |p.o| == 9 then Draw else Open
    else if Complete(p.x, WinPatterns[k]) then WinX
    else if Complete(p.o, WinPatterns[k]) then WinO
    else ScanFrom(p, k + 1)
  }

  /** Terminal detection on a position. */
  function Evaluate(p: Position): Verdict {
    ScanFrom(p, 0)
  }

  predicate IsFree(p: Position, c: int) {
    c !in p.x && c !in p.o
  }

  /** All nine cells of the grid. */
  const Cells: set<int> := {1, 2, 3, 4, 5, 6, 7, 8, 9}

  /** The cells of the grid that neither player has marked. */
  function FreeCells(p: Position): set<int> {
    set c | c in Cells && IsFree(p, c)
  }

  /** `p` with `c` appended to X's list (when `forX`) or to O's list. */
  function Place(p: Position, c: int, forX: bool): Position {
    if forX then Position(p.x + [c], p.o) else Position(p.x, p.o + [c])
  }

  predicate Distinct(s: seq<int>) {
    forall i, j :: 0 <= i < j < |s| ==> s[i] != s[j]
  }

  predicate AllCells(s: seq<int>) {
    forall i :: 0 <= i < |s| ==> IsCell(s[i])
  }

  /** Every mark is a cell, nobody marks a cell twice and no cell carries both marks. */
  predicate WellFormed(p: Position) {
    && AllCells(p.x) && AllCells(p.o)
    && Distinct(p.x) && Distinct(p.o)
    && forall c :: c in p.x ==> c !in p.o
  }

  function Elems(s: seq<int>): set<int> {
    set c | c in s
  }

  lemma {:induction false} DistinctElems(s: seq<int>)
    requires Distinct(s)
    ensures |Elems(s)| == |s|
  {
    if s != [] {
      var t := s[..|s| - 1];
      var last := s[|s| - 1];
      assert s == t + [last];
      assert Distinct(t);
      DistinctElems(t);
      assert last !in t;
      assert Elems(s) == Elems(t) + {last};
    }
  }

  /**
   On a well-formed position the free cells number 9 minus the marks played,
   so a search that marks one free cell per ply is at most nine plies deep.
   */
  lemma FreeCellCount(p: Position)
    requires WellFormed(p)
    ensures |FreeCells(p)| == 9 - |p.x| - |p.o|
  {
    var ex, eo := Elems(p.x), Elems(p.o);
    DistinctElems(p.x);
    DistinctElems(p.o);
    MarksAreCells(p.x);
    MarksAreCells(p.o);
    var used := ex + eo;
    assert |used| == |ex| + |eo| by {
      assert ex !! eo;
      DisjointUnionCard(ex, eo);
    }
    FreeCellsAreUnused(p);
    CellCount();
    DifferenceCard(Cells, used);
  }

  lemma CellCount()
    ensures |Cells| == 9
  {
  }

  lemma FreeCellsAreUnused(p: Position)
    ensures FreeCells(p) == Cells - (Elems(p.x) + Elems(p.o))
  {
  }

  lemma MarksAreCells(s: seq<int>)
    requires AllCells(s)
    ensures Elems(s) <= Cells
  {
    forall c | c in Elems(s) ensures c in Cells {
      var i :| 0 <= i < |s| && s[i] == c;
      assert IsCell(s[i]);
    }
  }

  lemma DisjointUnionCard(a: set<int>, b: set<int>)
    requires a !! b
    ensures |a + b| == |a| + |b|
  {
  }

  lemma DifferenceCard(a: set<int>, b: set<int>)
    requires b <= a
    ensures |a - b| == |a| - |b|
  {
    assert a == (a - b) + b;
    DisjointUnionCard(a - b, b);
  }

  /** Playing a free cell keeps a position well-formed and uses up exactly that cell. */
  lemma PlaceKeepsWellFormed(p: Position, c: int, forX: bool)
    requires WellFormed(p) && IsCell(c) && IsFree(p, c)
    ensures WellFormed(Place(p, c, forX))
    ensures FreeCells(Place(p, c, forX)) == FreeCells(p) - {c}
  {
    var q := Place(p, c, forX);
    if forX {
      forall i, j | 0 <= i < j < |q.x| ensures q.x[i] != q.x[j] {
        if j == |p.x| { assert q.x[i] == p.x[i]; }
      }
    } else {
      forall i, j | 0 <= i < j < |q.o| ensures q.o[i] != q.o[j] {
        if j == |p.o| { assert q.o[i] == p.o[i]; }
      }
    }
  }

  /** Placing a free cell strictly shrinks the free set: the measure the search decreases. */
  lemma PlaceShrinks(p: Position, c: int, forX: bool)
    requires IsCell(c) && IsFree(p, c)
    ensures FreeCells(Place(p, c, forX)) < FreeCells(p)
  {
    assert c in FreeCells(p);
  }

  lemma {:induction false} ScanFromCharacterized(p: Position, k: nat)
    requires k <= |WinPatterns|
    requires NoLineBefore(p, k)
    ensures ScanFrom(p, k) == WinX <==>
      exists j :: 0 <= j < |WinPatterns| && Complete(p.x, WinPatterns[j]) && NoLineBefore(p, j)
    ensures ScanFrom(p, k) == WinO <==>
      exists j :: 0 <= j < |WinPatterns| && Complete(p.o, WinPatterns[j]) && !Complete(p.x, WinPatterns[j])
        && NoLineBefore(p, j)
    ensures ScanFrom(p, k) in {Draw, Open} <==> !HasLine(p.x) && !HasLine(p.o)
    decreases |WinPatterns| - k
  {
    if k == |WinPatterns| {
      assert !HasLine(p.x) && !HasLine(p.o);
    } else if Complete(p.x, WinPatterns[k]) {
      assert HasLine(p.x);
      forall j | 0 <= j < |WinPatterns| && Complete(p.o, WinPatterns[j]) && NoLineBefore(p, j)
        ensures Complete(p.x, WinPatterns[j])
      {
        assert j <= k;
      }
    } else if Complete(p.o, WinPatterns[k]) {
      assert HasLine(p.o);
    } else {
      ScanFromCharacterized(p, k + 1);
      forall j | 0 <= j < |WinPatterns| && NoLineBefore(p, j) && (Complete(p.x, WinPatterns[j]) || Complete(p.o, WinPatterns[j]))
        ensures j > k
      {
      }
    }
  }

  /**
   Terminal detection: X wins when some pattern is complete for X and no
   earlier pattern is complete for either player; O wins when some pattern is
   complete for O but not X, again with no earlier complete pattern; otherwise
   it is a draw exactly when the two lists hold nine marks, and open when not.
   */
  lemma EvaluateCharacterized(p: Position)
    ensures Evaluate(p) == WinX <==>
      exists j :: 0 <= j < |WinPatterns| && Complete(p.x, WinPatterns[j]) && NoLineBefore(p, j)
    ensures Evaluate(p) == WinO <==>
      exists j :: 0 <= j < |WinPatterns| && Complete(p.o, WinPatterns[j]) && !Complete(p.x, WinPatterns[j])
        && NoLineBefore(p, j)
    ensures Evaluate(p) == Draw <==> !HasLine(p.x) && !HasLine(p.o) && |p.x| + |p.o| == 9
    ensures Evaluate(p) == Open <==> !HasLine(p.x) && !HasLine(p.o) && |p.x| + |p.o| != 9
  {
    ScanFromCharacterized(p, 0);
    if !HasLine(p.x) && !HasLine(p.o) {
      NoLineScansToEnd(p, 0);
    }
  }

  lemma {:induction false} NoLineScansToEnd(p: Position, k: nat)
    requires k <= |WinPatterns|
    requires !HasLine(p.x) && !HasLine(p.o)
    ensures ScanFrom(p, k) == if |p.x| + |p.o| == 9 then Draw else Open
    decreases |WinPatterns| - k
  {
    if k < |WinPatterns| {
      NoLineScansToEnd(p, k + 1);
    }
  }

  /** A player who holds a whole triple, while the opponent holds none, has won. */
  lemma LineWins(p: Position, k: int)
    requires 0 <= k < |WinPatterns|
    ensures Complete(p.x, WinPatterns[k]) && !HasLine(p.o) ==> Evaluate(p) == WinX
    ensures Complete(p.o, WinPatterns[k]) && !HasLine(p.x) ==> Evaluate(p) == WinO
  {
    EvaluateCharacterized(p);
    if Complete(p.x, WinPatterns[k]) && !HasLine(p.o) {
      FirstLine(p, true, k);
    }
    if Complete(p.o, WinPatterns[k]) && !HasLine(p.x) {
      FirstLine(p, false, k);
    }
  }

  /** The first complete pattern of a player who has a line, when the opponent has none. */
  lemma {:induction false} FirstLine(p: Position, forX: bool, k: int)
    requires 0 <= k < |WinPatterns|
    requires forX ==> Complete(p.x, WinPatterns[k]) && !HasLine(p.o)
    requires !forX ==> Complete(p.o, WinPatterns[k]) && !HasLine(p.x)
    ensures exists j :: 0 <= j <= k && NoLineBefore(p, j) &&
                        (if forX then Complete(p.x, WinPatterns[j])
                         else Complete(p.o, WinPatterns[j]) && !Complete(p.x, WinPatterns[j]))
    decreases k
  {
    if NoLineBefore(p, k) {
      assert 0 <= k <= k;
    } else {
      var j :| 0 <= j < k && (Complete(p.x, WinPatterns[j]) || Complete(p.o, WinPatterns[j]));
      FirstLine(p, forX, j);
    }
  }

  /**
   The mutable board: X's and O's move lists and the turn flag `playerOne`
   (true when X is to move).
   */
  class GameBoard {
    var X: seq<int>
    var O: seq<int>
    var playerOne: bool

    function State(): Position
      reads this
    {
      Position(X, O)
    }

    /** The board invariant kept by every operation that changes the board. */
    ghost predicate Valid()
      reads this
    {
      && WellFormed(State())
      && (|X| == |O| || |X| == |O| + 1)
      && (playerOne <==> |X| == |O|)
    }

    constructor ()
      ensures X == [] && O == [] && playerOne
      ensures Valid()
    {
      X := [];
      O := [];
      playerOne := true;
    }

    /** Occupancy query: no entry of either list is `cell`. */
    function CellFree(cell: int): (free: bool)
      reads this
      ensures free <==> forall i :: 0 <= i < |X + O| ==> (X + O)[i] != cell
    {
      assert cell in X + O <==> cell in X || cell in O;
      IsFree(State(), cell)
    }

    /**
     Places the mover's mark on a free cell and passes the turn; a taken cell
     leaves the board alone and is answered with `Ignored`.
     */
    method Move(cell: int) returns (reply: MoveReply)
      requires IsCell(cell)
      modifies this
      ensures old(CellFree(cell)) ==>
        && X == (if old(playerOne) then old(X) + [cell] else old(X))
        && O == (if old(playerOne) then old(O) else old(O) + [cell])
        && playerOne == !old(playerOne)
        && reply == Moved(Evaluate(State()))
      ensures !old(CellFree(cell)) ==>
        X == old(X) && O == old(O) && playerOne == old(playerOne) && reply == Ignored
      ensures old(Valid()) ==> Valid()
    {
      if CellFree(cell) {
        if Valid() {
          PlaceKeepsWellFormed(State(), cell, playerOne);
        }
        if playerOne {
          X := X + [cell];
        } else {
          O := O + [cell];
        }
        playerOne := !playerOne;
        var verdict := GameOver();
        return Moved(verdict);
      }
      return Ignored;
    }

    /** Checks the eight patterns in order, X before O in each, then the full board. */
    method GameOver() returns (verdict: Verdict)
      ensures verdict == Evaluate(State())
    {
      var k := 0;
      while k < |WinPatterns|
        invariant 0 <= k <= |WinPatterns|
        invariant ScanFrom(State(), k) == Evaluate(State())
      {
        var pattern := WinPatterns[k];
        if Complete(X, pattern) {
          return WinX;
        }
        if Complete(O, pattern) {
          return WinO;
        }
        k := k + 1;
      }
      verdict := if |X| + |O| == 9 then Draw else Open;
    }

    /** Empties both move lists and gives the turn to X. */
    method Reset()
      modifies this
      ensures X == [] && O == [] && playerOne
      ensures Valid()
      ensures forall c :: IsCell(c) ==> CellFree(c)
    {
      X := [];
      O := [];
      playerOne := true;
    }
  }
}
