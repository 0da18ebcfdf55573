/** The board evaluator (`checkWinner`): scans the eight winning lines in a
    fixed order and reports the mark on the first complete one; otherwise a
    full board is a tie and any other board has no result yet. */
module Evaluator {

  import opened Wrappers
  import opened Board

  datatype Outcome = Win(winner: Symbol) | Tie | NoResult

  /** The winning lines in the order they are scanned: rows, columns, diagonals. */
  const Lines: seq<(Index, Index, Index)> :=
    [(0, 1, 2), (3, 4, 5), (6, 7, 8),
     (0, 3, 6), (1, 4, 7), (2, 5, 8),
     (0, 4, 8), (2, 4, 6)]

  /** Line `k` is complete: its three cells hold the same mark. */
  predicate LineWon(b: Board, k: nat)
    requires k < |Lines|
  {
    var (x, y, z) := Lines[k];
    b[x] != Empty && b[x] == b[y] && b[y] == b[z]
  }

  /** The mark on a complete line. */
  function LineOwner(b: Board, k: nat): Symbol
    requires k < |Lines| && LineWon(b, k)
  {
    b[Lines[k].0].sym
  }

  predicate NoLineWon(b: Board) {
    forall k :: 0 <= k < |Lines| ==> !LineWon(b, k)
  }

  /** The first complete line at or after position `k` of the scan, if any. */
  function FirstWinningLine(b: Board, k: nat): (r: Option<nat>)
    requires k <= |Lines|
    ensures r.Some? ==> k <= r.value < |Lines| && LineWon(b, r.value)
    ensures r.Some? ==> forall j :: k <= j < r.value ==> !LineWon(b, j)
    ensures r.None? ==> forall j :: k <= j < |Lines| ==> !LineWon(b, j)
    decreases |Lines| - k
  {
    if k == |Lines| then None
    else if LineWon(b, k) then Some(k)
    else FirstWinningLine(b, k + 1)
  }

  /** The outcome of a board (`checkWinner`): the owner of the first
      complete line in scan order; with no complete line, a tie exactly when
      the board is full and no result exactly when some cell is still empty. */
  function CheckWinner(b: Board): (r: Outcome)
    ensures r.Win? <==> !NoLineWon(b)
    ensures r.Win? ==>
      exists k :: 0 <= k < |Lines| && LineWon(b, k) && LineOwner(b, k) == r.winner &&
        forall j :: 0 <= j < k ==> !LineWon(b, j)
    ensures r == Tie <==> NoLineWon(b) && Full(b)
    ensures r == NoResult <==> NoLineWon(b) && !Full(b)
  {
    match FirstWinningLine(b, 0)
    case Some(k) => Win(LineOwner(b, k))
    case None => if Full(b) then Tie else NoResult
  }

  /** When every complete line carries the same mark `s` and there is one,
      the evaluator reports `s`, whichever line it meets first. */
  lemma WinReported(b: Board, k: nat, s: Symbol)
    requires k < |Lines| && LineWon(b, k) && LineOwner(b, k) == s
    requires forall j :: 0 <= j < |Lines| && LineWon(b, j) ==> LineOwner(b, j) == s
    ensures CheckWinner(b) == Win(s)
  {
  }
}
