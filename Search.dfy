/** The move selector (`minimax`): exhaustive game-tree search. The bot is the
    maximizing side and scores +1 for its own win, -1 for the player's win and
    0 for a draw. The unused `depth` counter of the app is not modelled. */
module Search {

  import opened Wrappers
  import opened Board
  import opened Evaluator

  /** The result of a search: the chosen cell (none on a terminal board) and
      its score. */
  datatype Move = Move(index: Option<Index>, score: int)

  /** The mark placed by the side to move. */
  function Mover(isMax: bool, bot: Symbol, player: Symbol): Symbol {
    if isMax then bot else player
  }

  /** The initial running score, below (maximizing) or above (minimizing) any
      real score: it stands for the app's `-Infinity` and `Infinity`. */
  function Sentinel(isMax: bool): int {
    if isMax then -2 else 2
  }

  /** Score `s` replaces the running best `t`: strictly greater when
      maximizing, strictly smaller when minimizing. */
  predicate Improves(isMax: bool, s: int, t: int) {
    if isMax then s > t else s < t
  }

  /** The search stops at once: one side has won or the board is full. */
  predicate Terminal(b: Board, bot: Symbol, player: Symbol) {
    CheckWinner(b) == Win(bot) || CheckWinner(b) == Win(player) || Full(b)
  }

  predicate AllEmpty(b: Board, cells: seq<Index>) {
    forall j :: 0 <= j < |cells| ==> b[cells[j]] == Empty
  }

  /** Minimax value of `b` with `isMax` telling whose turn it is. The score
      is always -1, 0 or 1, and a cell it names is an empty cell of `b`. */
  function Minimax(b: Board, isMax: bool, bot: Symbol, player: Symbol): (r: Move)
    ensures -1 <= r.score <= 1
    ensures r.index.Some? ==> b[r.index.value] == Empty
    decreases NumEmpty(b), 2
  {
    var w := CheckWinner(b);
    if w == Win(bot) then Move(None, 1)
    else if w == Win(player) then Move(None, -1)
    else if Full(b) then Move(None, 0)
    else
      EmptyCellsSpec(b);
      SearchFrom(b, EmptyCells(b), isMax, bot, player, Move(None, Sentinel(isMax)))
  }

  /** The result of the search below the child where the side to move marks
      the empty cell `i`; the turn passes to the other side. */
  function ChildResult(b: Board, i: Index, isMax: bool, bot: Symbol, player: Symbol): (r: Move)
    requires b[i] == Empty
    ensures -1 <= r.score <= 1
    decreases NumEmpty(b), 0
  {
    Minimax(Play(b, i, Mover(isMax, bot, player)), !isMax, bot, player)
  }

  /** The loop over the empty cells, as a fold: `best` is the running best
      move, replaced only by a child that strictly improves on it. The result
      is `best` itself or a move to one of `cells` with a real score; from the
      sentinel, any non-empty run of cells yields a move. */
  function SearchFrom(b: Board, cells: seq<Index>, isMax: bool, bot: Symbol, player: Symbol,
                      best: Move): (r: Move)
    requires AllEmpty(b, cells)
    ensures r == best || (r.index.Some? && r.index.value in cells && -1 <= r.score <= 1)
    ensures cells != [] && best.score == Sentinel(isMax) ==> r.index.Some? && -1 <= r.score <= 1
    decreases NumEmpty(b), 1, |cells|
  {
    if cells == [] then best
    else
      var i := cells[0];
      SearchFrom(b, cells[1..], isMax, bot, player,
                 Update(isMax, i, ChildResult(b, i, isMax, bot, player).score, best))
  }

  /** One step of the loop: the child's move replaces the running best only
      if its score strictly improves on it. The result is the child's move or
      the old best, and neither score is better for the mover than the
      result's. */
  function Update(isMax: bool, i: Index, s: int, best: Move): (r: Move)
    ensures r == best || r == Move(Some(i), s)
    ensures !Improves(isMax, s, r.score) && !Improves(isMax, best.score, r.score)
    ensures r != best ==> Improves(isMax, s, best.score)
  {
    if Improves(isMax, s, best.score) then Move(Some(i), s) else best
  }

  /** A board yields no cell exactly when it is terminal. */
  lemma IndexIffNotTerminal(b: Board, isMax: bool, bot: Symbol, player: Symbol)
    ensures Minimax(b, isMax, bot, player).index.None? <==> Terminal(b, bot, player)
  {
    EmptyCellsSpec(b);
  }

  /** Terminal boards: +1 when the bot has won, -1 when the player has won,
      0 when the board is full and neither has won; never a cell. */
  lemma TerminalScores(b: Board, isMax: bool, bot: Symbol, player: Symbol)
    ensures CheckWinner(b) == Win(bot) ==> Minimax(b, isMax, bot, player) == Move(None, 1)
    ensures CheckWinner(b) == Win(player) && bot != player ==>
      Minimax(b, isMax, bot, player) == Move(None, -1)
    ensures Full(b) && CheckWinner(b) != Win(bot) && CheckWinner(b) != Win(player) ==>
      Minimax(b, isMax, bot, player) == Move(None, 0)
  {
  }

  /** The fold's result is at least as good as the running best it starts
      from and as the child of every cell it visits. */
  lemma {:induction false} SearchFromDominates(b: Board, cells: seq<Index>, isMax: bool,
                                               bot: Symbol, player: Symbol, best: Move)
    requires AllEmpty(b, cells)
    ensures var r := SearchFrom(b, cells, isMax, bot, player, best);
      && !Improves(isMax, best.score, r.score)
      && forall j :: 0 <= j < |cells| ==>
           !Improves(isMax, ChildResult(b, cells[j], isMax, bot, player).score, r.score)
    decreases |cells|
  {
    if cells != [] {
      var next := Update(isMax, cells[0], ChildResult(b, cells[0], isMax, bot, player).score, best);
      var rest := cells[1..];
      SearchFromUnfold(b, cells, isMax, bot, player, best);
      SearchFromDominates(b, rest, isMax, bot, player, next);
      var r := SearchFrom(b, cells, isMax, bot, player, best);
      forall j | 0 <= j < |cells|
        ensures !Improves(isMax, ChildResult(b, cells[j], isMax, bot, player).score, r.score)
      {
        if j > 0 {
          assert cells[j] == rest[j - 1];
        }
      }
    }
  }

  /** Unless the fold returns the running best it starts from, it returns the
      move to the first visited cell whose child attains the result, which
      strictly improves on that running best; every earlier child is strictly
      worse. */
  lemma {:induction false} SearchFromFirstAttains(b: Board, cells: seq<Index>, isMax: bool,
                                                  bot: Symbol, player: Symbol, best: Move)
    requires AllEmpty(b, cells)
    ensures var r := SearchFrom(b, cells, isMax, bot, player, best);
      r == best ||
      exists k :: 0 <= k < |cells| &&
        r == Move(Some(cells[k]), ChildResult(b, cells[k], isMax, bot, player).score) &&
        Improves(isMax, r.score, best.score) &&
        forall j :: 0 <= j < k ==>
          Improves(isMax, r.score, ChildResult(b, cells[j], isMax, bot, player).score)
    decreases |cells|
  {
    if cells != [] {
      var s := ChildResult(b, cells[0], isMax, bot, player).score;
      var next := Update(isMax, cells[0], s, best);
      var rest := cells[1..];
      SearchFromUnfold(b, cells, isMax, bot, player, best);
      SearchFromFirstAttains(b, rest, isMax, bot, player, next);
      var r := SearchFrom(b, cells, isMax, bot, player, best);
      if r != best && r != next {
        var k :| 0 <= k < |rest| &&
          r == Move(Some(rest[k]), ChildResult(b, rest[k], isMax, bot, player).score) &&
          Improves(isMax, r.score, next.score) &&
          forall j :: 0 <= j < k ==>
            Improves(isMax, r.score, ChildResult(b, rest[j], isMax, bot, player).score);
        assert cells[k + 1] == rest[k];
        forall j | 0 <= j < k + 1
          ensures Improves(isMax, r.score, ChildResult(b, cells[j], isMax, bot, player).score)
        {
          if j > 0 {
            assert cells[j] == rest[j - 1];
          }
        }
      }
    }
  }

  /** On a board that is not terminal, the search is the fold over its
      empty cells started from the sentinel. */
  lemma MinimaxUnfold(b: Board, isMax: bool, bot: Symbol, player: Symbol)
    requires !Terminal(b, bot, player)
    ensures AllEmpty(b, EmptyCells(b))
    ensures Minimax(b, isMax, bot, player) ==
      SearchFrom(b, EmptyCells(b), isMax, bot, player, Move(None, Sentinel(isMax)))
  {
    EmptyCellsSpec(b);
  }

  /** On a board that is not terminal, the search picks an empty cell whose
      child attains the score returned; no empty cell's child does better (the
      score is the maximum over the children when maximizing, the minimum when
      minimizing); and every empty cell below the chosen one does strictly
      worse, so ties go to the lowest index. */
  lemma MinimaxPicksBestChild(b: Board, isMax: bool, bot: Symbol, player: Symbol)
    requires !Terminal(b, bot, player)
    ensures var r := Minimax(b, isMax, bot, player);
      && r.index.Some? && b[r.index.value] == Empty
      && r.score == ChildResult(b, r.index.value, isMax, bot, player).score
      && (forall i: Index :: b[i] == Empty ==>
            !Improves(isMax, ChildResult(b, i, isMax, bot, player).score, r.score))
      && (forall i: Index :: i < r.index.value && b[i] == Empty ==>
            Improves(isMax, r.score, ChildResult(b, i, isMax, bot, player).score))
  {
    var cells := EmptyCells(b);
    EmptyCellsSpec(b);
    var start := Move(None, Sentinel(isMax));
    MinimaxUnfold(b, isMax, bot, player);
    SearchFromDominates(b, cells, isMax, bot, player, start);
    SearchFromFirstAttains(b, cells, isMax, bot, player, start);
    var r := Minimax(b, isMax, bot, player);
    var k :| 0 <= k < |cells| &&
      r == Move(Some(cells[k]), ChildResult(b, cells[k], isMax, bot, player).score) &&
      Improves(isMax, r.score, start.score) &&
      forall j :: 0 <= j < k ==>
        Improves(isMax, r.score, ChildResult(b, cells[j], isMax, bot, player).score);
    forall i: Index | b[i] == Empty
      ensures !Improves(isMax, ChildResult(b, i, isMax, bot, player).score, r.score)
    {
      assert i in cells;
      var j :| 0 <= j < |cells| && cells[j] == i;
    }
    forall i: Index | i < r.index.value && b[i] == Empty
      ensures Improves(isMax, r.score, ChildResult(b, i, isMax, bot, player).score)
    {
      assert i in cells;
      var j :| 0 <= j < |cells| && cells[j] == i;
      IncreasingOrder(cells, j, k);
    }
  }

  /** The search reaches the best score a side can have (+1 for the bot, -1
      for the player) at the lowest empty cell whose child attains it. */
  lemma BestPossibleChildChosen(b: Board, isMax: bool, bot: Symbol, player: Symbol, i: Index)
    requires !Terminal(b, bot, player) && b[i] == Empty
    requires ChildResult(b, i, isMax, bot, player).score == (if isMax then 1 else -1)
    requires forall j: Index :: j < i && b[j] == Empty ==>
      ChildResult(b, j, isMax, bot, player).score != (if isMax then 1 else -1)
    ensures Minimax(b, isMax, bot, player) == Move(Some(i), if isMax then 1 else -1)
  {
    MinimaxPicksBestChild(b, isMax, bot, player);
  }

  /** When the bot, to move, can complete a line at once, its search
      scores +1. */
  lemma ImmediateWinScoresOne(b: Board, bot: Symbol, player: Symbol, w: Index)
    requires !Terminal(b, bot, player) && b[w] == Empty
    requires CheckWinner(Play(b, w, bot)) == Win(bot)
    ensures Minimax(b, true, bot, player).score == 1
  {
    MinimaxPicksBestChild(b, true, bot, player);
    assert ChildResult(b, w, true, bot, player).score == 1;
  }

  /** When every child has the same score, so does the board. */
  lemma AllChildrenAgree(b: Board, isMax: bool, bot: Symbol, player: Symbol, v: int)
    requires !Terminal(b, bot, player)
    requires forall i: Index :: b[i] == Empty ==> ChildResult(b, i, isMax, bot, player).score == v
    ensures Minimax(b, isMax, bot, player).score == v
  {
    MinimaxPicksBestChild(b, isMax, bot, player);
  }

  function Negated(m: Move): Move {
    Move(m.index, -m.score)
  }

  /** Exchanging the two marks and the turn flag on the same board negates
      the score and keeps the chosen cell. */
  lemma {:induction false} MinimaxSwap(b: Board, isMax: bool, bot: Symbol, player: Symbol)
    requires bot != player
    ensures Minimax(b, !isMax, player, bot) == Negated(Minimax(b, isMax, bot, player))
    decreases NumEmpty(b), 2
  {
    if !Terminal(b, bot, player) {
      EmptyCellsSpec(b);
      SearchFromSwap(b, EmptyCells(b), isMax, bot, player, Move(None, Sentinel(isMax)));
    }
  }

  lemma {:induction false} ChildSwap(b: Board, i: Index, isMax: bool, bot: Symbol, player: Symbol)
    requires bot != player && b[i] == Empty
    ensures ChildResult(b, i, !isMax, player, bot) == Negated(ChildResult(b, i, isMax, bot, player))
    decreases NumEmpty(b), 0
  {
    var mark := Mover(isMax, bot, player);
    assert Mover(!isMax, player, bot) == mark;
    MinimaxSwap(Play(b, i, mark), !isMax, bot, player);
  }

  lemma {:induction false} SearchFromSwap(b: Board, cells: seq<Index>, isMax: bool,
                                          bot: Symbol, player: Symbol, best: Move)
    requires bot != player && AllEmpty(b, cells)
    ensures SearchFrom(b, cells, !isMax, player, bot, Negated(best)) ==
            Negated(SearchFrom(b, cells, isMax, bot, player, best))
    decreases NumEmpty(b), 1, |cells|
  {
    if cells != [] {
      var i := cells[0];
      var s := ChildResult(b, i, isMax, bot, player).score;
      ChildSwap(b, i, isMax, bot, player);
      var next := Update(isMax, i, s, best);
      UpdateSwap(isMax, i, s, best);
      SearchFromUnfold(b, cells, isMax, bot, player, best);
      SearchFromUnfold(b, cells, !isMax, player, bot, Negated(best));
      SearchFromSwap(b, cells[1..], isMax, bot, player, next);
    }
  }

  /** One loop step commutes with negation when the turn flag flips. */
  lemma UpdateSwap(isMax: bool, i: Index, s: int, best: Move)
    ensures Update(!isMax, i, -s, Negated(best)) == Negated(Update(isMax, i, s, best))
  {
  }

  /** Unfolds the first iteration of the fold. */
  lemma SearchFromUnfold(b: Board, cells: seq<Index>, isMax: bool,
                         bot: Symbol, player: Symbol, best: Move)
    requires AllEmpty(b, cells) && cells != []
    ensures AllEmpty(b, cells[1..])
    ensures SearchFrom(b, cells, isMax, bot, player, best) ==
      SearchFrom(b, cells[1..], isMax, bot, player,
                 Update(isMax, cells[0], ChildResult(b, cells[0], isMax, bot, player).score, best))
  {
    var rest := cells[1..];
    forall j | 0 <= j < |rest| ensures b[rest[j]] == Empty {
      assert rest[j] == cells[j + 1];
    }
  }

  /** Unfolds the iteration at position `k` of `cells`. */
  lemma SearchFromStep(b: Board, cells: seq<Index>, k: nat, isMax: bool,
                       bot: Symbol, player: Symbol, best: Move)
    requires AllEmpty(b, cells) && k < |cells|
    ensures AllEmpty(b, cells[k..])
    ensures SearchFrom(b, cells[k..], isMax, bot, player, best) ==
      SearchFrom(b, cells[k + 1..], isMax, bot, player,
                 Update(isMax, cells[k], ChildResult(b, cells[k], isMax, bot, player).score, best))
  {
    var tail := cells[k..];
    forall j | 0 <= j < |tail| ensures b[tail[j]] == Empty {
      assert tail[j] == cells[k + j];
    }
    SearchFromUnfold(b, tail, isMax, bot, player, best);
    assert tail[1..] == cells[k + 1..];
  }

  /** A fresh copy of the board array with the empty cell `index` marked;
      the original array is left as it was. */
  method CopyAndPlay(board: array<Cell>, index: Index, mark: Symbol) returns (newBoard: array<Cell>)
    requires board.Length == 9 && board[index] == Empty
    ensures fresh(newBoard) && newBoard.Length == 9
    ensures newBoard[..] == Play(board[..], index, mark)
  {
    newBoard := new Cell[9](j requires 0 <= j < 9 reads board => board[j]);
    newBoard[index] := Mark(mark);
  }

  /** The search as the app runs it: a loop over the empty cells that keeps a
      running best move, copying the board into a fresh array for each child
      and recursing on the copy. The input array is never written (there is
      no `modifies` clause), and the result is the one `Minimax` specifies. */
  method BestMove(board: array<Cell>, isMax: bool, bot: Symbol, player: Symbol) returns (m: Move)
    requires board.Length == 9
    ensures m == Minimax(board[..], isMax, bot, player)
    decreases NumEmpty(board[..])
  {
    var b: Board := board[..];
    TerminalScores(b, isMax, bot, player);
    var w := CheckWinner(b);
    if w == Win(bot) {
      return Move(None, 1);
    }
    if w == Win(player) {
      return Move(None, -1);
    }
    if Full(b) {
      return Move(None, 0);
    }
    var cells := EmptyCells(b);
    MinimaxUnfold(b, isMax, bot, player);
    var mark := Mover(isMax, bot, player);
    m := Move(None, Sentinel(isMax));
    assert cells[0..] == cells;
    for k := 0 to |cells|
      invariant SearchFrom(b, cells[k..], isMax, bot, player, m) == Minimax(b, isMax, bot, player)
    {
      var index := cells[k];
      var newBoard := CopyAndPlay(board, index, mark);
      var result := BestMove(newBoard, !isMax, bot, player);
      assert result == ChildResult(b, index, isMax, bot, player);
      SearchFromStep(b, cells, k, isMax, bot, player, m);
      ghost var next := Update(isMax, index, result.score, m);
      if isMax {
        if result.score > m.score {
          m := Move(Some(index), result.score);
        }
      } else {
        if result.score < m.score {
          m := Move(Some(index), result.score);
        }
      }
      assert m == next;
    }
  }
}
