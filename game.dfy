/** The vanishing tic-tac-toe game: move history, five-mark window, turn parity and win lock. */
module Game {
  import opened Board

  /** At most this many marks stay on the board; a further move evicts the oldest. */
  const Window := 5

  /** The mark written by the move numbered `move` (counting from 0): "x" on even moves, "o" on odd. */
  function MarkFor(move: int): (m: Cell)
    ensures m != Empty
  {
    if move % 2 == 0 then X else O
  }

  function EmptyBoard(): (b: seq<Cell>)
  {
    seq(Size, _ => Empty)
  }

  /** Number of non-empty cells of a board. */
  function Occupied(s: seq<Cell>): (n: nat)
    ensures n <= |s|
  {
    if s == [] then 0 else (if s[0] != Empty then 1 else 0) + Occupied(s[1..])
  }

  /** Writing one cell changes the occupied count by what was removed and what was written. */
  lemma {:induction false} OccupiedUpdate(s: seq<Cell>, i: int, v: Cell)
    requires 0 <= i < |s|
    ensures Occupied(s[i := v]) + (if s[i] != Empty then 1 else 0)
         == Occupied(s) + (if v != Empty then 1 else 0)
  {
    if i == 0 {
      assert s[i := v][1..] == s[1..];
    } else {
      assert s[i := v][1..] == s[1..][i - 1 := v];
      OccupiedUpdate(s[1..], i - 1, v);
    }
  }

  /** A board without marks has no occupied cell. */
  lemma {:induction false} OccupiedAllEmpty(s: seq<Cell>)
    requires forall i :: 0 <= i < |s| ==> s[i] == Empty
    ensures Occupied(s) == 0
  {
    if s != [] {
      OccupiedAllEmpty(s[1..]);
    }
  }

  predicate Distinct(h: seq<int>)
  {
    forall j, k :: 0 <= j < k < |h| ==> h[j] != h[k]
  }

  /**
   * The board a history describes: replaying the last |history| moves of a
   * game of `count` moves on an empty board, the k-th entry (oldest first)
   * receives the mark of move count - |history| + k.
   */
  function BoardOf(history: seq<int>, count: int): (b: seq<Cell>)
    requires forall k :: 0 <= k < |history| ==> 0 <= history[k] < Size
    ensures |b| == Size
    decreases |history|
  {
    if history == [] then EmptyBoard()
    else
      var n := |history| - 1;
      BoardOf(history[..n], count - 1)[history[n] := MarkFor(count - 1)]
  }

  /** Cells outside the history stay empty. */
  lemma {:induction false} BoardOfOutside(history: seq<int>, count: int, c: int)
    requires forall k :: 0 <= k < |history| ==> 0 <= history[k] < Size
    requires 0 <= c < Size && c !in history
    ensures BoardOf(history, count)[c] == Empty
    decreases |history|
  {
    if history != [] {
      var n := |history| - 1;
      assert c !in history[..n];
      BoardOfOutside(history[..n], count - 1, c);
    }
  }

  /** In a distinct history the k-th entry holds the mark of move count - |history| + k. */
  lemma {:induction false} BoardOfEntry(history: seq<int>, count: int, k: int)
    requires forall i :: 0 <= i < |history| ==> 0 <= history[i] < Size
    requires Distinct(history) && 0 <= k < |history|
    ensures BoardOf(history, count)[history[k]] == MarkFor(count - |history| + k)
    decreases |history|
  {
    var n := |history| - 1;
    if k < n {
      assert history[k] != history[n];
      BoardOfEntry(history[..n], count - 1, k);
    }
  }

  /** Dropping the oldest entry of a distinct history empties its cell and nothing else. */
  lemma {:induction false} BoardOfTail(history: seq<int>, count: int)
    requires forall k :: 0 <= k < |history| ==> 0 <= history[k] < Size
    requires |history| > 0 && Distinct(history)
    ensures BoardOf(history[1..], count) == BoardOf(history, count)[history[0] := Empty]
    decreases |history|
  {
    var n := |history| - 1;
    if n == 0 {
      assert history[1..] == [];
      assert BoardOf(history, count) == EmptyBoard()[history[0] := MarkFor(count - 1)];
      assert EmptyBoard()[history[0] := MarkFor(count - 1)][history[0] := Empty] == EmptyBoard();
    } else {
      var init := history[..n];
      assert history[1..][..n - 1] == init[1..];
      assert history[1..][n - 1] == history[n];
      assert history[0] != history[n];
      BoardOfTail(init, count - 1);
    }
  }

  /**
   * The history is as long as the number of moves made, capped at the
   * window, and names distinct cells of the board.
   */
  ghost predicate HistoryShape(history: seq<int>, count: nat)
  {
    && |history| == (if count < Window then count else Window)
    && (forall k :: 0 <= k < |history| ==> 0 <= history[k] < Size)
    && Distinct(history)
  }

  /** What the game state promises between moves: the board is exactly the one its history describes. */
  ghost predicate Consistent(board: seq<Cell>, history: seq<int>, count: nat)
  {
    HistoryShape(history, count) && board == BoardOf(history, count)
  }

  /**
   * In a consistent state a cell is marked exactly when it is in the
   * history, and the k-th entry holds the mark of the move that placed it.
   */
  lemma ConsistentCells(board: seq<Cell>, history: seq<int>, count: nat)
    requires Consistent(board, history, count)
    ensures forall c :: 0 <= c < Size ==> (board[c] != Empty <==> c in history)
    ensures forall k :: 0 <= k < |history| ==> board[history[k]] == MarkFor(count - |history| + k)
  {
    forall k | 0 <= k < |history|
      ensures board[history[k]] == MarkFor(count - |history| + k)
    {
      BoardOfEntry(history, count, k);
    }
    forall c | 0 <= c < Size
      ensures board[c] != Empty <==> c in history
    {
      if c !in history {
        BoardOfOutside(history, count, c);
      }
    }
  }

  /** Occupied cells are exactly as many as history entries. */
  lemma {:induction false} OccupiedIsHistoryLength(history: seq<int>, count: int)
    requires forall k :: 0 <= k < |history| ==> 0 <= history[k] < Size
    requires Distinct(history)
    ensures Occupied(BoardOf(history, count)) == |history|
    decreases |history|
  {
    if history == [] {
      OccupiedAllEmpty(EmptyBoard());
    } else {
      var n := |history| - 1;
      var init := history[..n];
      assert history[n] !in init by {
        forall j | 0 <= j < n ensures init[j] != history[n] {
          assert history[j] != history[n];
        }
      }
      OccupiedIsHistoryLength(init, count - 1);
      BoardOfOutside(init, count - 1, history[n]);
      OccupiedUpdate(BoardOf(init, count - 1), history[n], MarkFor(count - 1));
    }
  }

  /** The history grows by `num` and, once it would exceed the window, loses its oldest entry. */
  function NextHistory(history: seq<int>, num: int): (h: seq<int>)
  {
    var h := history + [num];
    if |h| > Window then h[1..] else h
  }

  /** The board after move `count` on cell `num`: the oldest cell is cleared first when the history is full. */
  function NextBoard(board: seq<Cell>, history: seq<int>, num: int, count: int): (b: seq<Cell>)
    requires |board| == Size && 0 <= num < Size
    requires |history| + 1 > Window ==> 0 <= history[0] < Size
  {
    var cleared := if |history| + 1 > Window then board[history[0] := Empty] else board;
    cleared[num := MarkFor(count)]
  }

  /**
   * The history after a move is the old one with `num` appended and, when
   * that exceeds the window, its oldest entry removed: never longer than
   * the window.
   */
  lemma NextHistoryShape(history: seq<int>, num: int)
    requires |history| <= Window
    ensures |NextHistory(history, num)| <= Window
    ensures NextHistory(history, num)[|NextHistory(history, num)| - 1] == num
    ensures |history| < Window ==> NextHistory(history, num) == history + [num]
    ensures |history| == Window ==> NextHistory(history, num) == history[1..] + [num]
  {
  }

  /** An empty cell is never in the history, so the cell a move evicts is never the one it plays. */
  lemma EvictedIsNotPlayed(board: seq<Cell>, history: seq<int>, count: nat, num: int)
    requires Consistent(board, history, count) && 0 <= num < Size && board[num] == Empty
    ensures num !in history
    ensures |history| + 1 > Window ==> history[0] != num
  {
    ConsistentCells(board, history, count);
  }

  /** The cells of the last moves of a game log that are still in play: at most the window's worth, oldest first. */
  function LastMoves(moves: seq<int>): (h: seq<int>)
  {
    if |moves| <= Window then moves else moves[|moves| - Window..]
  }

  /** The history a move produces is the window of the log extended by that move. */
  lemma NextHistoryOfLastMoves(moves: seq<int>, num: int)
    ensures NextHistory(LastMoves(moves), num) == LastMoves(moves + [num])
  {
    var all := moves + [num];
    if |moves| >= Window {
      assert LastMoves(moves) + [num] == all[|all| - Window - 1..];
    }
  }

  /**
   * Eviction is first-in first-out over the marks in play: once the window
   * is full, the cell the next move evicts is the cell played by move
   * count - Window, whichever side played it, and it still holds that
   * move's mark.
   */
  lemma EvictsMoveCountMinusWindow(board: seq<Cell>, history: seq<int>, moves: seq<int>, count: nat)
    requires Consistent(board, history, count) && |moves| == count && history == LastMoves(moves)
    requires count >= Window
    ensures |history| == Window
    ensures history[0] == moves[count - Window]
    ensures board[history[0]] == MarkFor(count - Window)
  {
    BoardOfEntry(history, count, 0);
  }

  /**
   * A legal move writes the side-to-move's mark on `num`, empties the
   * evicted oldest cell, and leaves every other cell as it was.
   */
  lemma NextBoardCells(board: seq<Cell>, history: seq<int>, count: nat, num: int)
    requires Consistent(board, history, count) && 0 <= num < Size && board[num] == Empty
    ensures |NextBoard(board, history, num, count)| == Size
    ensures NextBoard(board, history, num, count)[num] == MarkFor(count)
    ensures |history| == Window ==>
      history[0] != num && NextBoard(board, history, num, count)[history[0]] == Empty
    ensures forall c :: 0 <= c < Size && c != num && !(|history| == Window && c == history[0]) ==>
              NextBoard(board, history, num, count)[c] == board[c]
  {
    EvictedIsNotPlayed(board, history, count, num);
  }

  /** Replaying one more move on cell `num` writes that move's mark over the board replayed so far. */
  lemma BoardOfAppend(history: seq<int>, count: int, num: int)
    requires forall k :: 0 <= k < |history| ==> 0 <= history[k] < Size
    requires 0 <= num < Size
    ensures BoardOf(history + [num], count + 1) == BoardOf(history, count)[num := MarkFor(count)]
  {
    assert (history + [num])[..|history|] == history;
  }

  /** Appending a cell not yet in a distinct history keeps it distinct. */
  lemma DistinctAppend(history: seq<int>, num: int)
    requires Distinct(history) && num !in history
    ensures Distinct(history + [num])
  {
  }

  /** A legal move keeps the game state consistent: the new board is the one the new history describes. */
  lemma NextStateConsistent(board: seq<Cell>, history: seq<int>, count: nat, num: int)
    requires Consistent(board, history, count) && 0 <= num < Size && board[num] == Empty
    ensures Consistent(NextBoard(board, history, num, count), NextHistory(history, num), count + 1)
  {
    EvictedIsNotPlayed(board, history, count, num);
    var kept := if |history| + 1 > Window then history[1..] else history;
    assert BoardOf(kept, count) == (if |history| + 1 > Window then board[history[0] := Empty] else board) by {
      if |history| + 1 > Window {
        BoardOfTail(history, count);
      }
    }
    assert NextHistory(history, num) == kept + [num];
    assert HistoryShape(kept + [num], count + 1) by {
      DistinctAppend(kept, num);
    }
    BoardOfAppend(kept, count, num);
  }

  /** In every consistent state the occupied cells are as many as the history entries, at most the window. */
  lemma ConsistentOccupied(board: seq<Cell>, history: seq<int>, count: nat)
    requires Consistent(board, history, count)
    ensures Occupied(board) == |history| <= Window
  {
    OccupiedIsHistoryLength(history, count);
  }

  /** The game component: move counter, win lock, the nine cells and the move history. */
  class TicTacToe {
    var count: nat
    var lock: bool
    var data: array<Cell>
    var history: seq<int>
    /** Every cell played since the last reset, in order; not part of the component's own state. */
    ghost var moves: seq<int>

    /** The board is the one the history describes, and the game is locked exactly when it has a winner. */
    ghost predicate Valid()
      reads this, data
    {
      BoardValid() && LogValid() && (lock <==> CheckWinner(data[..]).Some?)
    }

    /** The nine cells are the board the history describes; this does not depend on the lock. */
    ghost predicate BoardValid()
      reads this`data, this`history, this`count, this`moves, data
    {
      data.Length == Size && Consistent(data[..], history, count)
    }

    /** The move log has one entry per move, and the history is its last window. */
    ghost predicate LogValid()
      reads this`history, this`count, this`moves
    {
      |moves| == count && history == LastMoves(moves)
    }

    /** A move on cell `num` is taken: the game is not locked and the cell exists and is empty. */
    predicate Accepts(num: int)
      reads this, data
    {
      !lock && 0 <= num < data.Length && data[num] == Empty
    }

    /** A fresh game: empty board, no history, move 0, unlocked. */
    constructor ()
      ensures Valid() && fresh(data)
      ensures count == 0 && !lock && history == [] && moves == [] && data[..] == EmptyBoard()
    {
      count := 0;
      lock := false;
      data := new Cell[Size](_ => Empty);
      history := [];
      moves := [];
      new;
      assert data[..] == EmptyBoard() == BoardOf([], 0);
    }

    /**
     * Plays cell `num` for the side to move. A refused move changes nothing.
     * An accepted move works on a copy of the board: when the history is full
     * its oldest cell is cleared, then `num` gets the mark of move `count`,
     * `num` joins the history, the counter advances, and the game locks if
     * the new board has a winner.
     */
    method Toggle(num: int)
      requires Valid()
      modifies this
      ensures Valid()
      ensures !old(Accepts(num)) ==>
        && count == old(count) && lock == old(lock) && history == old(history)
        && data == old(data) && moves == old(moves)
      ensures old(Accepts(num)) ==>
        && fresh(data)
        && count == old(count) + 1
        && moves == old(moves) + [num]
        && history == NextHistory(old(history), num)
        && data[..] == NextBoard(old(data[..]), old(history), num, old(count))
        && (lock <==> CheckWinner(data[..]).Some?)
    {
      if lock || !(0 <= num < data.Length && data[num] == Empty) {
        return;
      }
      var board := data[..];
      ghost var oldHistory, oldMoves, oldCount := history, moves, count;
      var newData, newHistory := Advance(board, history, num, count);
      data, history, count, moves := newData, newHistory, count + 1, moves + [num];
      PlayKeepsValid(this, board, oldHistory, oldMoves, oldCount, num);

      var winner := ScanWinner(newData[..]);
      if winner.Some? {
        Won(winner.value);
      }
    }

    /** The fields after an accepted move satisfy the board and log parts of the invariant again. */
    static lemma PlayKeepsValid(g: TicTacToe, board: seq<Cell>, history: seq<int>, moves: seq<int>, count: nat, num: int)
      requires Consistent(board, history, count) && |moves| == count && history == LastMoves(moves)
      requires 0 <= num < Size && board[num] == Empty
      requires g.data.Length == Size && g.data[..] == NextBoard(board, history, num, count)
      requires g.history == NextHistory(history, num) && g.count == count + 1 && g.moves == moves + [num]
      ensures g.BoardValid() && g.LogValid()
    {
      NextStateConsistent(board, history, count, num);
      NextHistoryOfLastMoves(moves, num);
    }

    /**
     * The board work of an accepted move, on a copy of the board: append
     * `num` to the history, and when that overflows the window drop the
     * oldest entry and clear its cell; then write the mark of move `count`
     * on `num`.
     */
    static method Advance(board: seq<Cell>, history: seq<int>, num: int, count: nat)
      returns (newData: array<Cell>, newHistory: seq<int>)
      requires |board| == Size && 0 <= num < Size
      requires |history| + 1 > Window ==> 0 <= history[0] < Size
      ensures fresh(newData)
      ensures newData[..] == NextBoard(board, history, num, count)
      ensures newHistory == NextHistory(history, num)
    {
      newData := new Cell[Size](i => if 0 <= i < Size then board[i] else Empty);
      assert newData[..] == board;
      newHistory := history + [num];
      if |newHistory| > Window {
        var firstMove := newHistory[0];
        newHistory := newHistory[1..];
        newData[firstMove] := Empty;
      }
      newData[num] := MarkFor(count);
    }

    /** Locks the game once the board's winner is known; this restores the invariant. */
    method Won(winner: Cell)
      requires BoardValid() && LogValid() && CheckWinner(data[..]) == Some(winner)
      modifies this`lock
      ensures lock && Valid()
    {
      lock := true;
    }

    /** Starts over: a new empty board, counter 0, unlocked, empty history. */
    method ResetGame()
      modifies this
      ensures Valid() && fresh(data)
      ensures count == 0 && !lock && history == [] && moves == [] && data[..] == EmptyBoard()
    {
      data := new Cell[Size](_ => Empty);
      count := 0;
      lock := false;
      history := [];
      moves := [];
      assert data[..] == EmptyBoard() == BoardOf([], 0);
    }
  }
}
