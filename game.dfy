/** The game itself: the board and the player to move, a human move, the two
    computer opponents and the reset after a win (main.py:19-22, 185-230). */
module GameController {
  import opened BoardState
  import opened WinDetection
  import opened Heuristic
  import opened Search

  /** What drop_piece reports: the column refused, a piece placed in a row, or a win. */
  datatype Outcome = ColumnFull | Placed(row: Row) | Won(winner: int)

  /** The decision drop_piece takes when player p chooses column c on board b. */
  ghost function MoveOutcome(b: Board, p: int, c: Column): Outcome {
    match OpenRow(b, c)
    case None => ColumnFull
    case Some(r) => if HasFourInARow(Drop(b, c, p), p) then Won(p) else Placed(r)
  }

  /** How board b and mover p become b' and p' after outcome o of a move into c: a
      refused column changes nothing, a win starts a new game on the empty board with
      either player, and a placed piece lands by gravity and hands the turn over. */
  ghost predicate Transition(b: Board, p: int, c: Column, o: Outcome, b': Board, p': int) {
    match o
    case ColumnFull => b' == b && p' == p
    case Won(_) => b' == EmptyBoard() && IsPlayer(p')
    case Placed(_) => b' == Drop(b, c, p) && IsPlayer(p') && p' != p
  }

  /** Cell (r, c) is one of the four cells of the run from (r0, c0) in direction (dr, dc). */
  predicate OnRun(r0: int, c0: int, dr: int, dc: int, r: int, c: int) {
    (r, c) == (r0, c0) || (r, c) == (r0 + dr, c0 + dc) ||
    (r, c) == (r0 + 2 * dr, c0 + 2 * dc) || (r, c) == (r0 + 3 * dr, c0 + 3 * dc)
  }

  /** On a gravity board a column is refused exactly when its top cell is taken. */
  lemma ColumnFullIffTopTaken(b: Board, p: int, c: Column)
    requires Gravity(b)
    ensures MoveOutcome(b, p, c) == ColumnFull <==> b[0][c] != EMPTY
  {
    OpenRowNoneIffTopTaken(b, c);
  }

  /** drop_piece never declares a draw: once the top row is full every column is
      refused, and the game stays on that board. */
  lemma FullBoardRefusesEveryColumn(b: Board, p: int, c: Column)
    requires Gravity(b) && IsBoardFull(b)
    ensures MoveOutcome(b, p, c) == ColumnFull
  {
    OpenRowNoneIffTopTaken(b, c);
  }

  /** A win reported for a player who had no run before is made by the piece just
      dropped: some run of the new board passes through its landing cell. */
  lemma WinThroughLandingCell(b: Board, p: int, c: Column)
    requires !HasFourInARow(b, p) && MoveOutcome(b, p, c).Won?
    ensures OpenRow(b, c).Some?
    ensures exists r0, c0, dr, dc :: RunAt(Drop(b, c, p), p, r0, c0, dr, dc) && OnRun(r0, c0, dr, dc, OpenRow(b, c).value, c)
  {
    var b' := Drop(b, c, p);
    if RunIn(b', p, 0, 1) {
      RunThroughLandingCell(b, p, c, 0, 1);
    } else if RunIn(b', p, 1, 0) {
      RunThroughLandingCell(b, p, c, 1, 0);
    } else if RunIn(b', p, 1, 1) {
      RunThroughLandingCell(b, p, c, 1, 1);
    } else {
      RunThroughLandingCell(b, p, c, -1, 1);
    }
  }

  /** The same for one direction. */
  lemma RunThroughLandingCell(b: Board, p: int, c: Column, dr: int, dc: int)
    requires OpenRow(b, c).Some? && !RunIn(b, p, dr, dc) && RunIn(Drop(b, c, p), p, dr, dc)
    ensures exists r0, c0 :: RunAt(Drop(b, c, p), p, r0, c0, dr, dc) && OnRun(r0, c0, dr, dc, OpenRow(b, c).value, c)
  {
    var b' := Drop(b, c, p);
    var r0, c0 :| RunAt(b', p, r0, c0, dr, dc);
    assert !RunAt(b, p, r0, c0, dr, dc);
  }

  /** The number of p's pieces in rows r to ROWS - 1. */
  ghost function PiecesFrom(b: Board, p: int, r: nat): nat
    requires r <= ROWS
    decreases ROWS - r
  {
    if r == ROWS then 0 else Count(b[r], p) + PiecesFrom(b, p, r + 1)
  }

  /** The number of p's pieces on the board. */
  ghost function Pieces(b: Board, p: int): nat {
    PiecesFrom(b, p, 0)
  }

  /** Overwriting one element moves at most one unit of count from the old value to the new one. */
  lemma {:induction false} CountUpdate(s: seq<int>, i: nat, v: int, x: int)
    requires i < |s|
    ensures Count(s[i := v], x) == Count(s, x) - (if s[i] == x then 1 else 0) + (if v == x then 1 else 0)
  {
    if i == 0 {
      assert s[i := v][1..] == s[1..];
    } else {
      assert s[i := v][1..] == s[1..][i - 1 := v];
      CountUpdate(s[1..], i - 1, v, x);
    }
  }

  /** The same for the rows r0 onwards of a board with one cell overwritten. */
  lemma {:induction false} PiecesFromWithCell(b: Board, r0: nat, r: Row, c: Column, v: int, x: int)
    requires r0 <= ROWS
    ensures PiecesFrom(WithCell(b, r, c, v), x, r0) ==
      PiecesFrom(b, x, r0) - (if r0 <= r && b[r][c] == x then 1 else 0) + (if r0 <= r && v == x then 1 else 0)
    decreases ROWS - r0
  {
    if r0 < ROWS {
      PiecesFromWithCell(b, r0 + 1, r, c, v, x);
      if r0 == r {
        CountUpdate(b[r], c, v, x);
      } else {
        assert WithCell(b, r, c, v)[r0] == b[r0];
      }
    }
  }

  /** A piece that lands adds one to its player's count and leaves every other
      player's count as it was. */
  lemma DropAddsOnePiece(b: Board, c: Column, p: int, q: int)
    requires OpenRow(b, c).Some? && p != EMPTY && q != EMPTY
    ensures Pieces(Drop(b, c, p), q) == Pieces(b, q) + (if q == p then 1 else 0)
  {
    PiecesFromWithCell(b, 0, OpenRow(b, c).value, c, p, q);
  }

  /** A row that holds no x counts no x. */
  lemma {:induction false} CountAbsent(s: seq<int>, x: int)
    requires forall i :: 0 <= i < |s| ==> s[i] != x
    ensures Count(s, x) == 0
  {
    if s != [] {
      assert forall i :: 0 <= i < |s[1..]| ==> s[1..][i] == s[i + 1];
      CountAbsent(s[1..], x);
    }
  }

  /** The empty board holds no piece of either player. */
  lemma {:induction false} EmptyBoardHasNoPieces(p: int, r: nat)
    requires p != EMPTY && r <= ROWS
    ensures PiecesFrom(EmptyBoard(), p, r) == 0
    decreases ROWS - r
  {
    if r < ROWS {
      CountAbsent(EmptyBoard()[r], p);
      EmptyBoardHasNoPieces(p, r + 1);
    }
  }

  /** What holds of every position the game can reach with p to move in a game that s
      started: the board obeys gravity, nobody has four in a row (a win resets the game
      on the spot), and the turns alternate from s, so s has one piece more than the
      other player exactly when it is not s's turn. Not every board meeting these
      conditions can be reached: they do not ask that the last mover's piece be on top
      of some column. */
  ghost predicate Consistent(b: Board, p: int, s: int) {
    IsPlayer(p) && IsPlayer(s) && Gravity(b) &&
    !HasFourInARow(b, YELLOW) && !HasFourInARow(b, RED) &&
    Pieces(b, s) == Pieces(b, Opponent(s)) + (if p == s then 0 else 1)
  }

  /** A new game starts from a consistent position, whoever moves first. */
  lemma EmptyBoardConsistent(s: int)
    requires IsPlayer(s)
    ensures Consistent(EmptyBoard(), s, s)
  {
    EmptyBoardHasNoWinner(YELLOW);
    EmptyBoardHasNoWinner(RED);
    EmptyBoardHasNoPieces(s, 0);
    EmptyBoardHasNoPieces(Opponent(s), 0);
  }

  /** A piece that lands without winning leads to a consistent position with the other
      player q to move. */
  lemma PlacedStaysConsistent(b: Board, c: Column, p: int, q: int, s: int)
    requires Consistent(b, p, s) && OpenRow(b, c).Some? && !HasFourInARow(Drop(b, c, p), p)
    requires IsPlayer(q) && q != p
    ensures Consistent(Drop(b, c, p), q, s)
  {
    DropPreservesGravity(b, c, p);
    NoNewRunForOthers(b, OpenRow(b, c).value, c, p, q);
    DropAddsOnePiece(b, c, p, s);
    DropAddsOnePiece(b, c, p, Opponent(s));
  }

  /** The module-level state of main.py: the board and whose turn it is. */
  class Game {
    var board: array2<int>
    var currentPlayer: int
    /** The player who moved first in the current game. */
    ghost var starter: int

    /** The board is a 6 x 7 array holding a consistent position. */
    ghost predicate Valid()
      reads this, board
    {
      board.Length0 == ROWS && board.Length1 == COLUMNS && Consistent(Cells(board), currentPlayer, starter)
    }

    /** Lines 19 and 22: the empty board and a coin flip for the first player, modelled
        as an arbitrary choice between the two. */
    constructor ()
      ensures Valid()
      ensures fresh(board) && Cells(board) == EmptyBoard()
    {
      var empty := NewBoard();
      board := empty;
      var first :| first in [YELLOW, RED];
      currentPlayer := first;
      starter := first;
      EmptyBoardConsistent(first);
    }

    /** reset_game (main.py:226-230): a new empty board and a new coin flip. */
    method Reset()
      modifies this
      ensures Valid()
      ensures fresh(board) && Cells(board) == EmptyBoard()
    {
      board := NewBoard();
      var first :| first in [YELLOW, RED];
      currentPlayer := first;
      starter := first;
      EmptyBoardConsistent(first);
    }

    /** drop_piece (main.py:191-216) without its drawing and dialogs: the current player's
        piece falls to the lowest empty cell of the column; a win resets the game, any
        other placed piece passes the turn, and a full column changes nothing. */
    method DropPiece(column: Column) returns (outcome: Outcome)
      requires Valid()
      modifies this, board
      ensures Valid()
      ensures outcome == MoveOutcome(old(Cells(board)), old(currentPlayer), column)
      ensures Transition(old(Cells(board)), old(currentPlayer), column, outcome, Cells(board), currentPlayer)
      ensures outcome.Won? ==> fresh(board)
      ensures !outcome.Won? ==> board == old(board)
    {
      var row := GetNextOpenRow(board, column);
      if row.None? {
        return ColumnFull;
      }
      outcome := Land(row.value, column);
    }

    /** Lines 198-214 of drop_piece, once the landing row r is known: write the piece,
        then either report the win and reset, or pass the turn to the other player. */
    method Land(r: Row, column: Column) returns (outcome: Outcome)
      requires Valid() && OpenRow(Cells(board), column) == Some(r)
      modifies this, board
      ensures Valid()
      ensures outcome == MoveOutcome(old(Cells(board)), old(currentPlayer), column) && !outcome.ColumnFull?
      ensures Transition(old(Cells(board)), old(currentPlayer), column, outcome, Cells(board), currentPlayer)
      ensures outcome.Won? ==> fresh(board)
      ensures !outcome.Won? ==> board == old(board)
    {
      ghost var b := Cells(board);
      var p := currentPlayer;
      board[r, column] := p;
      ghost var b' := Drop(b, column, p);
      SameCells(Cells(board), b');
      var won := CheckForWinner(board, p);
      if won {
        assert MoveOutcome(b, p, column) == Won(p);
        Reset();
        return Won(p);
      }
      assert MoveOutcome(b, p, column) == Placed(r);
      var next := if p == YELLOW then RED else YELLOW;
      PlacedStaysConsistent(b, column, p, next, starter);
      currentPlayer := next;
      assert Cells(board) == b';
      return Placed(r);
    }

    /** ai_move (main.py:219-223): the beginner and medium opponent plays a column chosen
        at random among the open ones, and does nothing when there is none. */
    method AiMove() returns (column: Option<Column>, outcome: Option<Outcome>)
      requires Valid()
      modifies this, board
      ensures Valid()
      ensures column.None? <==> old(IsBoardFull(Cells(board)))
      ensures column.None? ==> outcome.None? && board == old(board) && Cells(board) == old(Cells(board)) && currentPlayer == old(currentPlayer)
      ensures column.Some? ==> column.value in old(FindValidMoves(Cells(board))) && outcome.Some? && !outcome.value.ColumnFull?
      ensures column.Some? ==> outcome.value == MoveOutcome(old(Cells(board)), old(currentPlayer), column.value)
      ensures column.Some? ==> Transition(old(Cells(board)), old(currentPlayer), column.value, outcome.value, Cells(board), currentPlayer)
    {
      ghost var b := Cells(board);
      var available := FindValidMoves(Cells(board));
      FindValidMovesSpec(b);
      if available == [] {
        return None, None;
      }
      assert available[0] in available;
      var col :| col in available;
      ColumnFullIffTopTaken(b, currentPlayer, col);
      var o := DropPiece(col);
      return Some(col), Some(o);
    }

    /** ai_move_hard (main.py:185-188): the hard opponent plays the column of a depth-2
        alpha-beta search from the full window, which is the first best column of plain
        minimax. On a full board the script passes None on to drop_piece and fails, so
        the board must have an open column. */
    method AiMoveHard() returns (column: Column, outcome: Outcome)
      requires Valid() && !IsBoardFull(Cells(board))
      modifies this, board
      ensures Valid()
      ensures Minimax(old(Cells(board)), 2, true).column == Some(column)
      ensures column in old(FindValidMoves(Cells(board)))
      ensures outcome == MoveOutcome(old(Cells(board)), old(currentPlayer), column) && !outcome.ColumnFull?
      ensures Transition(old(Cells(board)), old(currentPlayer), column, outcome, Cells(board), currentPlayer)
    {
      ghost var b := Cells(board);
      var best, _ := MinimaxSearch(board, 2, -INF, INF, true);
      SearchIsMinimax(b, 2, true);
      AlphaBetaColumn(b, 2, -INF, INF, true);
      column := best.value;
      FindValidMovesSpec(b);
      ColumnFullIffTopTaken(b, currentPlayer, column);
      outcome := DropPiece(column);
    }
  }
}
