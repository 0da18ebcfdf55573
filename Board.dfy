/** The 3x3 board of the game: its cells, the enumeration of empty cells in
    ascending index order, and the placing of one mark on a copy of a board. */
module Board {

  /** A player's mark. The app uses "X" and "O"; any non-empty string will do,
      because the empty string is what an empty cell holds. */
  type Symbol = s: string | s != "" witness "X"

  /** A cell is empty (the empty string in the app) or holds a mark. */
  datatype Cell = Empty | Mark(sym: Symbol)

  /** A cell index: 0, 1, 2 is the top row, 3, 4, 5 the middle, 6, 7, 8 the bottom. */
  type Index = i: nat | i < 9

  /** A board always has exactly nine cells. */
  type Board = b: seq<Cell> | |b| == 9
    witness [Empty, Empty, Empty, Empty, Empty, Empty, Empty, Empty, Empty]

  /** Every cell holds a mark. */
  predicate Full(b: Board) {
    forall i :: 0 <= i < 9 ==> b[i] != Empty
  }

  predicate Increasing(s: seq<int>) {
    forall i, j :: 0 <= i < j < |s| ==> s[i] < s[j]
  }

  /** In an ascending sequence, a smaller element sits at an earlier position. */
  lemma IncreasingOrder(s: seq<int>, a: nat, b: nat)
    requires Increasing(s) && a < |s| && b < |s| && s[a] < s[b]
    ensures a < b
  {
  }

  /** The indices of the empty cells at or after `k`, in ascending order. */
  function EmptyFrom(b: Board, k: nat): seq<Index>
    requires k <= 9
    decreases 9 - k
  {
    if k == 9 then []
    else if b[k] == Empty then [k as Index] + EmptyFrom(b, k + 1)
    else EmptyFrom(b, k + 1)
  }

  /** The empty cells of `b` in ascending index order: the list that the
      search iterates over. */
  function EmptyCells(b: Board): seq<Index> {
    EmptyFrom(b, 0)
  }

  /** The cells listed from `k` on are exactly the empty cells at or after `k`. */
  lemma {:induction false} EmptyFromMembers(b: Board, k: nat)
    requires k <= 9
    ensures forall i: nat :: i in EmptyFrom(b, k) <==> k <= i < 9 && b[i] == Empty
    decreases 9 - k
  {
    if k < 9 {
      EmptyFromMembers(b, k + 1);
    }
  }

  /** The cells listed from `k` on are at least `k` and strictly ascending. */
  lemma {:induction false} EmptyFromIncreasing(b: Board, k: nat)
    requires k <= 9
    ensures forall j :: 0 <= j < |EmptyFrom(b, k)| ==> k <= EmptyFrom(b, k)[j]
    ensures Increasing(EmptyFrom(b, k))
    decreases 9 - k
  {
    if k < 9 {
      EmptyFromIncreasing(b, k + 1);
    }
  }

  /** The enumeration lists every empty cell and nothing else, in ascending
      order; it is empty exactly when the board is full. */
  lemma EmptyCellsSpec(b: Board)
    ensures var r := EmptyCells(b);
      && (forall i: nat :: i in r <==> i < 9 && b[i] == Empty)
      && (forall j :: 0 <= j < |r| ==> b[r[j]] == Empty)
      && Increasing(r)
      && (r == [] <==> Full(b))
  {
    EmptyFromMembers(b, 0);
    EmptyFromIncreasing(b, 0);
    var r := EmptyCells(b);
    forall j | 0 <= j < |r| ensures b[r[j]] == Empty {
      assert r[j] in r;
    }
    if !Full(b) {
      var i :| 0 <= i < 9 && b[i] == Empty;
      assert i in r;
    }
  }

  /** The number of empty cells: the measure that shrinks along every move. */
  function NumEmpty(b: Board): nat {
    |EmptyCells(b)|
  }

  lemma {:induction false} EmptyFromPlay(b: Board, i: Index, s: Symbol, k: nat)
    requires k <= 9 && b[i] == Empty
    ensures |EmptyFrom(b[i := Mark(s)], k)| == |EmptyFrom(b, k)| - (if k <= i then 1 else 0)
    decreases 9 - k
  {
    if k < 9 {
      EmptyFromPlay(b, i, s, k + 1);
    }
  }

  /** A copy of `b` with the empty cell `i` marked `s`: that cell changes,
      every other cell is kept, and the board has one empty cell fewer. */
  function Play(b: Board, i: Index, s: Symbol): (r: Board)
    requires b[i] == Empty
    ensures r[i] == Mark(s)
    ensures forall j :: 0 <= j < 9 && j != i ==> r[j] == b[j]
    ensures NumEmpty(r) == NumEmpty(b) - 1
  {
    EmptyFromPlay(b, i, s, 0);
    b[i := Mark(s)]
  }
}
