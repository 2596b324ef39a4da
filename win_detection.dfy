/** Four-in-a-row detection over the four orientations (main.py:32-58). */
module WinDetection {
  import opened BoardState

  /** Player p holds all four cells from (r, c) in direction (dr, dc), and they lie on the board. */
  predicate RunAt(b: Board, p: int, r: int, c: int, dr: int, dc: int) {
    Fits(r, c, dr, dc) &&
    b[r][c] == p && b[r + dr][c + dc] == p && b[r + 2 * dr][c + 2 * dc] == p && b[r + 3 * dr][c + 3 * dc] == p
  }

  /** Some start cell gives a run of p in direction (dr, dc). */
  ghost predicate RunIn(b: Board, p: int, dr: int, dc: int) {
    exists r, c :: RunAt(b, p, r, c, dr, dc)
  }

  /** p has four in a row horizontally, vertically or on either diagonal. */
  ghost predicate HasFourInARow(b: Board, p: int) {
    RunIn(b, p, 0, 1) || RunIn(b, p, 1, 0) || RunIn(b, p, 1, 1) || RunIn(b, p, -1, 1)
  }

  /** check_for_winner (main.py:32-58): the four scans in the script's order, returning
      as soon as one finds a run. */
  method CheckForWinner(board: array2<int>, player: int) returns (won: bool)
    requires board.Length0 == ROWS && board.Length1 == COLUMNS
    ensures won == HasFourInARow(Cells(board), player)
  {
    won := ScanHorizontal(board, player);
    if won {
      return;
    }
    won := ScanVertical(board, player);
    if won {
      return;
    }
    won := ScanDiagonal(board, player);
    if won {
      return;
    }
    won := ScanAntiDiagonal(board, player);
  }

  /** Lines 35-38: every row, start columns 0 to 3. */
  method ScanHorizontal(board: array2<int>, player: int) returns (found: bool)
    requires board.Length0 == ROWS && board.Length1 == COLUMNS
    ensures found == RunIn(Cells(board), player, 0, 1)
  {
    ghost var b := Cells(board);
    var row := 0;
    while row < ROWS
      invariant 0 <= row <= ROWS
      invariant forall r, c :: RunAt(b, player, r, c, 0, 1) ==> r >= row
    {
      var col := 0;
      while col < COLUMNS - 3
        invariant 0 <= col <= COLUMNS - 3
        invariant forall r, c :: RunAt(b, player, r, c, 0, 1) ==> r > row || (r == row && c >= col)
      {
        if board[row, col] == player && board[row, col + 1] == player && board[row, col + 2] == player && board[row, col + 3] == player {
          assert RunAt(b, player, row, col, 0, 1);
          return true;
        }
        col := col + 1;
      }
      row := row + 1;
    }
    return false;
  }

  /** Lines 41-44: start rows 0 to 2, every column. */
  method ScanVertical(board: array2<int>, player: int) returns (found: bool)
    requires board.Length0 == ROWS && board.Length1 == COLUMNS
    ensures found == RunIn(Cells(board), player, 1, 0)
  {
    ghost var b := Cells(board);
    var row := 0;
    while row < ROWS - 3
      invariant 0 <= row <= ROWS - 3
      invariant forall r, c :: RunAt(b, player, r, c, 1, 0) ==> r >= row
    {
      var col := 0;
      while col < COLUMNS
        invariant 0 <= col <= COLUMNS
        invariant forall r, c :: RunAt(b, player, r, c, 1, 0) ==> r > row || (r == row && c >= col)
      {
        if board[row, col] == player && board[row + 1, col] == player && board[row + 2, col] == player && board[row + 3, col] == player {
          assert RunAt(b, player, row, col, 1, 0);
          return true;
        }
        col := col + 1;
      }
      row := row + 1;
    }
    return false;
  }

  /** Lines 47-50: start rows 0 to 2, start columns 0 to 3, going down and right. */
  method ScanDiagonal(board: array2<int>, player: int) returns (found: bool)
    requires board.Length0 == ROWS && board.Length1 == COLUMNS
    ensures found == RunIn(Cells(board), player, 1, 1)
  {
    ghost var b := Cells(board);
    var row := 0;
    while row < ROWS - 3
      invariant 0 <= row <= ROWS - 3
      invariant forall r, c :: RunAt(b, player, r, c, 1, 1) ==> r >= row
    {
      var col := 0;
      while col < COLUMNS - 3
        invariant 0 <= col <= COLUMNS - 3
        invariant forall r, c :: RunAt(b, player, r, c, 1, 1) ==> r > row || (r == row && c >= col)
      {
        if board[row, col] == player && board[row + 1, col + 1] == player && board[row + 2, col + 2] == player && board[row + 3, col + 3] == player {
          assert RunAt(b, player, row, col, 1, 1);
          return true;
        }
        col := col + 1;
      }
      row := row + 1;
    }
    return false;
  }

  /** Lines 53-56: start rows 3 to 5, start columns 0 to 3, going up and right. */
  method ScanAntiDiagonal(board: array2<int>, player: int) returns (found: bool)
    requires board.Length0 == ROWS && board.Length1 == COLUMNS
    ensures found == RunIn(Cells(board), player, -1, 1)
  {
    ghost var b := Cells(board);
    var row := 3;
    while row < ROWS
      invariant 3 <= row <= ROWS
      invariant forall r, c :: RunAt(b, player, r, c, -1, 1) ==> r >= row
    {
      var col := 0;
      while col < COLUMNS - 3
        invariant 0 <= col <= COLUMNS - 3
        invariant forall r, c :: RunAt(b, player, r, c, -1, 1) ==> r > row || (r == row && c >= col)
      {
        if board[row, col] == player && board[row - 1, col + 1] == player && board[row - 2, col + 2] == player && board[row - 3, col + 3] == player {
          assert RunAt(b, player, row, col, -1, 1);
          return true;
        }
        col := col + 1;
      }
      row := row + 1;
    }
    return false;
  }

  /** Writing p into a cell cannot give any other player a run it did not already have. */
  lemma NoNewRunForOthers(b: Board, r: Row, c: Column, p: int, q: int)
    requires q != p
    ensures HasFourInARow(WithCell(b, r, c, p), q) ==> HasFourInARow(b, q)
  {
    NoNewRunIn(b, r, c, p, q, 0, 1);
    NoNewRunIn(b, r, c, p, q, 1, 0);
    NoNewRunIn(b, r, c, p, q, 1, 1);
    NoNewRunIn(b, r, c, p, q, -1, 1);
  }

  /** The same for a single direction. */
  lemma NoNewRunIn(b: Board, r: Row, c: Column, p: int, q: int, dr: int, dc: int)
    requires q != p
    ensures RunIn(WithCell(b, r, c, p), q, dr, dc) ==> RunIn(b, q, dr, dc)
  {
    var b' := WithCell(b, r, c, p);
    if RunIn(b', q, dr, dc) {
      var r0, c0 :| RunAt(b', q, r0, c0, dr, dc);
      assert RunAt(b, q, r0, c0, dr, dc);
    }
  }

  /** The empty board holds no run for either player. */
  lemma EmptyBoardHasNoWinner(p: int)
    requires IsPlayer(p)
    ensures !HasFourInARow(EmptyBoard(), p)
  {
  }

  /** Four yellow pieces dropped into columns 0, 1, 2, 3 of the empty board all land
      on the bottom row and form a horizontal run there. */
  lemma FourAcrossTheBottom()
    ensures var b := Drop(Drop(Drop(Drop(EmptyBoard(), 0, YELLOW), 1, YELLOW), 2, YELLOW), 3, YELLOW);
      RunAt(b, YELLOW, 5, 0, 0, 1) && HasFourInARow(b, YELLOW)
  {
    var b0 := EmptyBoard();
    assert OpenRow(b0, 0) == Some(5);
    var b1 := Drop(b0, 0, YELLOW);
    assert OpenRow(b1, 1) == Some(5);
    var b2 := Drop(b1, 1, YELLOW);
    assert OpenRow(b2, 2) == Some(5);
    var b3 := Drop(b2, 2, YELLOW);
    assert OpenRow(b3, 3) == Some(5);
    var b4 := Drop(b3, 3, YELLOW);
    assert RunAt(b4, YELLOW, 5, 0, 0, 1);
  }
}
