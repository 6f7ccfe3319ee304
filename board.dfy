/** The 3x3 board and win detection of the vanishing tic-tac-toe game. */
module Board {

  /** A board cell: empty, or holding one of the two marks ("x" or "o"). */
  datatype Cell = Empty | X | O

  datatype Option<T> = None | Some(value: T)

  /** Number of cells on the board. */
  const Size := 9

  /** A position on the board, 0..8 in row-major order. */
  type Index = i: int | 0 <= i < Size

  /** The eight fixed lines, in scan order: three rows, three columns, two diagonals. */
  const Lines: seq<(Index, Index, Index)> :=
    [(0, 1, 2), (3, 4, 5), (6, 7, 8),
     (0, 3, 6), (1, 4, 7), (2, 5, 8),
     (0, 4, 8), (2, 4, 6)]

  /** Line `k` has all three of its cells holding the non-empty mark `m`. */
  predicate Owns(board: seq<Cell>, k: int, m: Cell)
    requires |board| == Size && 0 <= k < |Lines|
  {
    var (a, b, c) := Lines[k];
    m != Empty && board[a] == m && board[b] == m && board[c] == m
  }

  /** Line `k` is uniformly filled by one mark. */
  predicate LineWon(board: seq<Cell>, k: int)
    requires |board| == Size && 0 <= k < |Lines|
  {
    Owns(board, k, board[Lines[k].0])
  }

  /** Line `k` is the first won line at or after line `from` in scan order. */
  predicate FirstWonFrom(board: seq<Cell>, from: int, k: int)
    requires |board| == Size && 0 <= from <= k < |Lines|
  {
    LineWon(board, k) && forall j :: from <= j < k ==> !LineWon(board, j)
  }

  /** The mark of the first won line among lines `i`.. in scan order, if any. */
  function WinnerFrom(board: seq<Cell>, i: nat): (w: Option<Cell>)
    requires |board| == Size && i <= |Lines|
    decreases |Lines| - i
  {
    if i == |Lines| then None
    else if LineWon(board, i) then Some(board[Lines[i].0])
    else WinnerFrom(board, i + 1)
  }

  /**
   * The scan from line `i` finds nothing exactly when no line from `i` on is
   * won, and otherwise yields the mark owning the first won line.
   */
  lemma {:induction false} WinnerFromSpec(board: seq<Cell>, i: nat)
    requires |board| == Size && i <= |Lines|
    ensures WinnerFrom(board, i).None? <==> forall j :: i <= j < |Lines| ==> !LineWon(board, j)
    ensures WinnerFrom(board, i).Some? ==>
      exists k :: i <= k < |Lines| && FirstWonFrom(board, i, k) && Owns(board, k, WinnerFrom(board, i).value)
    decreases |Lines| - i
  {
    if i < |Lines| {
      if LineWon(board, i) {
        assert FirstWonFrom(board, i, i);
      } else {
        WinnerFromSpec(board, i + 1);
        if WinnerFrom(board, i + 1).Some? {
          var k :| i + 1 <= k < |Lines| && FirstWonFrom(board, i + 1, k) && Owns(board, k, WinnerFrom(board, i + 1).value);
          assert FirstWonFrom(board, i, k);
        }
      }
    }
  }

  /**
   * The winner of a board: the mark owning the first uniformly filled line in
   * scan order, or None when no line is filled by one mark (a non-full board
   * included; a draw is not detected here).
   */
  function CheckWinner(board: seq<Cell>): (w: Option<Cell>)
    requires |board| == Size
  {
    WinnerFrom(board, 0)
  }

  /**
   * CheckWinner reports no winner exactly when no line is won; a reported
   * winner is a mark (never Empty) owning the first won line in scan order.
   */
  lemma CheckWinnerSpec(board: seq<Cell>)
    requires |board| == Size
    ensures CheckWinner(board).None? <==> forall j :: 0 <= j < |Lines| ==> !LineWon(board, j)
    ensures CheckWinner(board).Some? ==> CheckWinner(board).value != Empty
    ensures CheckWinner(board).Some? ==>
      exists k :: 0 <= k < |Lines| && FirstWonFrom(board, 0, k) && Owns(board, k, CheckWinner(board).value)
  {
    WinnerFromSpec(board, 0);
  }

  /** Scans the lines in order and stops at the first one filled by one mark. */
  method ScanWinner(board: seq<Cell>) returns (w: Option<Cell>)
    requires |board| == Size
    ensures w == CheckWinner(board)
  {
    for i := 0 to |Lines|
      invariant WinnerFrom(board, i) == CheckWinner(board)
    {
      var (a, b, c) := Lines[i];
      if board[a] != Empty && board[a] == board[b] && board[a] == board[c] {
        return Some(board[a]);
      }
    }
    return None;
  }

  /** If line `k` is owned by `m` and no earlier line is won, the winner is `m`. */
  lemma CheckWinnerOfFirstLine(board: seq<Cell>, k: int, m: Cell)
    requires |board| == Size && 0 <= k < |Lines|
    requires Owns(board, k, m)
    requires forall j :: 0 <= j < k ==> !LineWon(board, j)
    ensures CheckWinner(board) == Some(m)
  {
    CheckWinnerSpec(board);
    assert LineWon(board, k);
  }

  /** Exchanges the two marks. */
  function Swap(c: Cell): (d: Cell)
  {
    match c
    case Empty => Empty
    case X => O
    case O => X
  }

  function SwapWinner(w: Option<Cell>): (v: Option<Cell>)
  {
    match w
    case None => None
    case Some(m) => Some(Swap(m))
  }

  /** The board with every "x" turned into "o" and vice versa. */
  function Relabel(board: seq<Cell>): (r: seq<Cell>)
  {
    seq(|board|, i requires 0 <= i < |board| => Swap(board[i]))
  }

  /** Win detection does not favour a mark: relabelling the board relabels the winner. */
  lemma {:induction false} RelabelWinnerFrom(board: seq<Cell>, i: nat)
    requires |board| == Size && i <= |Lines|
    ensures WinnerFrom(Relabel(board), i) == SwapWinner(WinnerFrom(board, i))
    decreases |Lines| - i
  {
    if i < |Lines| {
      var (a, b, c) := Lines[i];
      var s := Relabel(board);
      assert s[a] == Swap(board[a]) && s[b] == Swap(board[b]) && s[c] == Swap(board[c]);
      if !LineWon(board, i) {
        RelabelWinnerFrom(board, i + 1);
      }
    }
  }

  lemma CheckWinnerRelabel(board: seq<Cell>)
    requires |board| == Size
    ensures CheckWinner(Relabel(board)) == SwapWinner(CheckWinner(board))
  {
    RelabelWinnerFrom(board, 0);
  }
}
