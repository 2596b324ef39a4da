/** The 6 x 7 grid of the game, the moves that are open on it and the
    single-cell gravity drop (main.py:7-11, 61-81). */
module BoardState {

  datatype Option<T> = None | Some(value: T)

  const ROWS: int := 6
  const COLUMNS: int := 7
  const EMPTY: int := 0
  const YELLOW: int := 1  // the human
  const RED: int := 2     // the computer

  type Row = r: int | 0 <= r < ROWS
  type Column = c: int | 0 <= c < COLUMNS

  predicate IsPlayer(p: int) { p == YELLOW || p == RED }

  /** A board as a value: ROWS rows of COLUMNS cells; row 0 is the top. */
  type Board = g: seq<seq<int>> | |g| == ROWS && forall r :: 0 <= r < |g| ==> |g[r]| == COLUMNS
    witness seq(ROWS, _ => seq(COLUMNS, _ => EMPTY))

  /** The value held by a 6 x 7 array at this moment. */
  function Cells(a: array2<int>): (b: Board)
    requires a.Length0 == ROWS && a.Length1 == COLUMNS
    reads a
    ensures forall r, c :: 0 <= r < ROWS && 0 <= c < COLUMNS ==> b[r][c] == a[r, c]
  {
    seq(ROWS, r requires 0 <= r < ROWS reads a =>
      seq(COLUMNS, c requires 0 <= c < COLUMNS reads a => a[r, c]))
  }

  /** Two boards that agree on every cell are the same board. */
  lemma SameCells(x: Board, y: Board)
    requires forall r, c :: 0 <= r < ROWS && 0 <= c < COLUMNS ==> x[r][c] == y[r][c]
    ensures x == y
  {
    forall r | 0 <= r < ROWS
      ensures x[r] == y[r]
    {
      assert forall c :: 0 <= c < COLUMNS ==> x[r][c] == y[r][c];
    }
  }

  /** The board the game starts from (main.py:19). */
  function EmptyBoard(): (b: Board)
    ensures forall r, c :: 0 <= r < ROWS && 0 <= c < COLUMNS ==> b[r][c] == EMPTY
  {
    seq(ROWS, _ => seq(COLUMNS, _ => EMPTY))
  }

  /** Gravity: every cell below an occupied cell of a column is occupied too. */
  ghost predicate Gravity(b: Board) {
    forall r, r', c :: 0 <= r < r' < ROWS && 0 <= c < COLUMNS && b[r][c] != EMPTY ==> b[r'][c] != EMPTY
  }

  /** On a gravity board, a column whose top cell is taken is taken all the way down. */
  lemma GravityFillsColumn(b: Board, c: Column, r: Row)
    requires Gravity(b) && b[0][c] != EMPTY
    ensures b[r][c] != EMPTY
  {
  }

  /** is_board_full: only the top row is inspected (main.py:61-63). */
  predicate IsBoardFull(b: Board) {
    forall c :: 0 <= c < COLUMNS ==> b[0][c] != EMPTY
  }

  /** On a gravity board, a full top row means that every cell is taken, so the
      top-row test of is_board_full is a full-board test. */
  lemma FullTopRowFillsBoard(b: Board)
    requires Gravity(b)
    ensures IsBoardFull(b) <==> forall r, c :: 0 <= r < ROWS && 0 <= c < COLUMNS ==> b[r][c] != EMPTY
  {
    if IsBoardFull(b) {
      forall r, c | 0 <= r < ROWS && 0 <= c < COLUMNS
        ensures b[r][c] != EMPTY
      {
        GravityFillsColumn(b, c, r);
      }
    }
  }

  /** The open columns from column c on, in ascending order. */
  function ValidMovesFrom(b: Board, c: int): seq<Column>
    requires 0 <= c <= COLUMNS
    decreases COLUMNS - c
  {
    if c == COLUMNS then []
    else if b[0][c] == EMPTY then [c] + ValidMovesFrom(b, c + 1)
    else ValidMovesFrom(b, c + 1)
  }

  /** ValidMovesFrom lists, strictly ascending and without gaps, exactly the open
      columns from c on. */
  lemma {:induction false} ValidMovesFromSpec(b: Board, c: int)
    requires 0 <= c <= COLUMNS
    ensures var ms := ValidMovesFrom(b, c);
      (forall i :: 0 <= i < |ms| ==> c <= ms[i]) &&
      (forall i, j :: 0 <= i < j < |ms| ==> ms[i] < ms[j]) &&
      (forall x: int :: x in ms <==> c <= x < COLUMNS && b[0][x] == EMPTY) &&
      |ms| <= COLUMNS - c
    decreases COLUMNS - c
  {
    if c < COLUMNS {
      ValidMovesFromSpec(b, c + 1);
    }
  }

  /** find_valid_moves (main.py:71-73): the columns whose top cell is empty, in
      ascending order. */
  function FindValidMoves(b: Board): seq<Column> {
    ValidMovesFrom(b, 0)
  }

  /** The moves find_valid_moves returns are strictly ascending, they are exactly the
      columns with an empty top cell, and there is none exactly when the board is full. */
  lemma FindValidMovesSpec(b: Board)
    ensures var ms := FindValidMoves(b);
      (forall i, j :: 0 <= i < j < |ms| ==> ms[i] < ms[j]) &&
      (forall x: int :: x in ms <==> 0 <= x < COLUMNS && b[0][x] == EMPTY) &&
      (ms == [] <==> IsBoardFull(b)) &&
      |ms| <= COLUMNS
  {
    var ms := FindValidMoves(b);
    ValidMovesFromSpec(b, 0);
    assert ms != [] ==> ms[0] in ms;
    assert !IsBoardFull(b) ==> exists x :: 0 <= x < COLUMNS && b[0][x] == EMPTY && x in ms;
  }

  /** The column of each valid move has an empty top cell. */
  lemma ValidMoveIsOpen(b: Board, i: nat)
    requires i < |FindValidMoves(b)|
    ensures b[0][FindValidMoves(b)[i]] == EMPTY
  {
    FindValidMovesSpec(b);
    assert FindValidMoves(b)[i] in FindValidMoves(b);
  }

  /** The landing row of column c, searching rows r, r - 1, ..., 0. */
  function OpenRowFrom(b: Board, c: Column, r: int): (o: Option<Row>)
    requires -1 <= r < ROWS
    ensures o.Some? ==> o.value <= r && b[o.value][c] == EMPTY
    ensures o.Some? ==> forall r' :: o.value < r' <= r ==> b[r'][c] != EMPTY
    ensures o.None? <==> forall r' :: 0 <= r' <= r ==> b[r'][c] != EMPTY
    decreases r + 1
  {
    if r < 0 then None
    else if b[r][c] == EMPTY then Some(r)
    else OpenRowFrom(b, c, r - 1)
  }

  /** The landing row of a piece dropped into column c: the bottom-most empty
      cell, or None when the column holds no empty cell. */
  function OpenRow(b: Board, c: Column): (o: Option<Row>)
    ensures o.Some? ==> b[o.value][c] == EMPTY && forall r :: o.value < r < ROWS ==> b[r][c] != EMPTY
    ensures o.None? <==> forall r :: 0 <= r < ROWS ==> b[r][c] != EMPTY
  {
    OpenRowFrom(b, c, ROWS - 1)
  }

  /** On a gravity board a column has no landing row exactly when its top cell is taken. */
  lemma OpenRowNoneIffTopTaken(b: Board, c: Column)
    requires Gravity(b)
    ensures OpenRow(b, c).None? <==> b[0][c] != EMPTY
  {
    if b[0][c] != EMPTY {
      forall r: Row ensures b[r][c] != EMPTY {
        GravityFillsColumn(b, c, r);
      }
    }
  }

  /** The board with one cell overwritten. */
  function WithCell(b: Board, r: Row, c: Column, v: int): (b': Board)
    ensures b'[r][c] == v
    ensures forall r', c' :: 0 <= r' < ROWS && 0 <= c' < COLUMNS && (r', c') != (r, c) ==> b'[r'][c'] == b[r'][c']
  {
    b[r := b[r][c := v]]
  }

  /** A move as a value: player p drops a piece into column c. A full column is left
      as it is; otherwise exactly one cell, the landing cell, turns from EMPTY to p. */
  function Drop(b: Board, c: Column, p: int): (b': Board)
    ensures OpenRow(b, c).None? ==> b' == b
    ensures OpenRow(b, c).Some? ==>
      var r := OpenRow(b, c).value;
      b[r][c] == EMPTY && b'[r][c] == p &&
      forall r', c' :: 0 <= r' < ROWS && 0 <= c' < COLUMNS && (r', c') != (r, c) ==> b'[r'][c'] == b[r'][c']
  {
    match OpenRow(b, c)
    case None => b
    case Some(r) => WithCell(b, r, c, p)
  }

  /** A player's piece dropped by gravity keeps the board free of floating pieces. */
  lemma DropPreservesGravity(b: Board, c: Column, p: int)
    requires Gravity(b) && p != EMPTY
    ensures Gravity(Drop(b, c, p))
  {
    var b' := Drop(b, c, p);
    match OpenRow(b, c)
    case None =>
    case Some(row) =>
      forall r, r', c' | 0 <= r < r' < ROWS && 0 <= c' < COLUMNS && b'[r][c'] != EMPTY
        ensures b'[r'][c'] != EMPTY
      {
        if c' == c && r == row {
          assert b'[r'][c'] == b[r'][c'];
        } else if r' != row || c' != c {
          assert b'[r][c'] == b[r][c'] && b'[r'][c'] == b[r'][c'];
        }
      }
  }

  /** Four consecutive cells starting at (r, c) in direction (dr, dc) lie on the board. */
  predicate Fits(r: int, c: int, dr: int, dc: int) {
    0 <= r < ROWS && 0 <= c < COLUMNS && 0 <= r + 3 * dr < ROWS && 0 <= c + 3 * dc < COLUMNS
  }

  /** The four cells starting at (r, c) in direction (dr, dc). */
  function Window(b: Board, r: int, c: int, dr: int, dc: int): (w: seq<int>)
    requires Fits(r, c, dr, dc)
    ensures |w| == 4
  {
    [b[r][c], b[r + dr][c + dc], b[r + 2 * dr][c + 2 * dc], b[r + 3 * dr][c + 3 * dc]]
  }

  /** get_next_open_row (main.py:76-81): scans the column from the bottom row up. */
  method GetNextOpenRow(board: array2<int>, col: Column) returns (row: Option<Row>)
    requires board.Length0 == ROWS && board.Length1 == COLUMNS
    ensures row == OpenRow(Cells(board), col)
  {
    ghost var b := Cells(board);
    var r := ROWS - 1;
    while r >= 0
      invariant -1 <= r < ROWS
      invariant OpenRowFrom(b, col, r) == OpenRow(b, col)
    {
      if board[r, col] == EMPTY {
        return Some(r);
      }
      r := r - 1;
    }
    return None;
  }

  /** drop_piece_on_board (main.py:66-68): writes one cell in place. */
  method DropPieceOnBoard(board: array2<int>, row: Row, col: Column, player: int)
    requires board.Length0 == ROWS && board.Length1 == COLUMNS
    modifies board
    ensures Cells(board) == WithCell(old(Cells(board)), row, col, player)
  {
    ghost var before := Cells(board);
    board[row, col] := player;
    SameCells(Cells(board), WithCell(before, row, col, player));
  }

  /** copy.deepcopy of a board (main.py:106, 122): a fresh array with the same cells. */
  method CopyBoard(board: array2<int>) returns (copy: array2<int>)
    requires board.Length0 == ROWS && board.Length1 == COLUMNS
    ensures fresh(copy) && copy.Length0 == ROWS && copy.Length1 == COLUMNS
    ensures Cells(copy) == Cells(board)
  {
    copy := new int[ROWS, COLUMNS]((r, c) reads board requires 0 <= r < ROWS && 0 <= c < COLUMNS => board[r, c]);
    SameCells(Cells(copy), Cells(board));
  }

  /** A fresh all-EMPTY array (main.py:19, 229). */
  method NewBoard() returns (board: array2<int>)
    ensures fresh(board) && board.Length0 == ROWS && board.Length1 == COLUMNS
    ensures Cells(board) == EmptyBoard()
  {
    board := new int[ROWS, COLUMNS]((_, _) => EMPTY);
    SameCells(Cells(board), EmptyBoard());
  }
}
