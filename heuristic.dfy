/** The heuristic score of a position: evaluate_window over every 4-cell
    window of the board (main.py:134-182). */
module Heuristic {
  import opened BoardState

  /** window.count(x) */
  function Count(w: seq<int>, x: int): (n: nat)
    ensures n <= |w|
  {
    if w == [] then 0 else (if w[0] == x then 1 else 0) + Count(w[1..], x)
  }

  /** Two different values never occupy more cells together than the window has. */
  lemma {:induction false} CountTwo(w: seq<int>, x: int, y: int)
    requires x != y
    ensures Count(w, x) + Count(w, y) <= |w|
  {
    if w != [] {
      CountTwo(w[1..], x, y);
    }
  }

  /** Three different values never occupy more cells together than the window has. */
  lemma {:induction false} CountThree(w: seq<int>, x: int, y: int, z: int)
    requires x != y && y != z && x != z
    ensures Count(w, x) + Count(w, y) + Count(w, z) <= |w|
  {
    if w != [] {
      CountThree(w[1..], x, y, z);
    }
  }

  /** The opponent as evaluate_window computes it (main.py:170). */
  function Opponent(p: int): (q: int)
    ensures q != p && IsPlayer(q)
  {
    if p == RED then YELLOW else RED
  }

  /** evaluate_window (main.py:167-182): a bonus for the player's own pieces, minus
      a penalty for three of the opponent's. On a 4-cell window the result is one of
      the five table values. */
  function EvaluateWindow(w: seq<int>, p: int): (score: int)
    ensures |w| == 4 ==> score in {-4, 0, 2, 5, 100}
  {
    var opponent := Opponent(p);
    var bonus :=
      if Count(w, p) == 4 then 100
      else if Count(w, p) == 3 && Count(w, EMPTY) == 1 then 5
      else if Count(w, p) == 2 && Count(w, EMPTY) == 2 then 2
      else 0;
    var penalty := if Count(w, opponent) == 3 && Count(w, EMPTY) == 1 then 4 else 0;
    WindowCounts(w, p);
    bonus - penalty
  }

  /** In a 4-cell window the player, its opponent and EMPTY share the four cells. */
  lemma WindowCounts(w: seq<int>, p: int)
    ensures Count(w, p) + Count(w, Opponent(p)) <= |w|
    ensures Count(w, EMPTY) + Count(w, Opponent(p)) <= |w|
    ensures p != EMPTY ==> Count(w, p) + Count(w, Opponent(p)) + Count(w, EMPTY) <= |w|
  {
    CountTwo(w, p, Opponent(p));
    CountTwo(w, EMPTY, Opponent(p));
    if p != EMPTY {
      CountThree(w, p, Opponent(p), EMPTY);
    }
  }

  /** The score table of evaluate_window, each row in both directions: 100 exactly for
      four of p, 5 exactly for three of p and one empty cell, 2 exactly for two of p and
      two empty cells, -4 exactly for three of the opponent and one empty cell; so no
      window earns a bonus and a penalty at once. */
  lemma EvaluateWindowTable(w: seq<int>, p: int)
    requires |w| == 4
    ensures EvaluateWindow(w, p) == 100 <==> Count(w, p) == 4
    ensures EvaluateWindow(w, p) == 5 <==> Count(w, p) == 3 && Count(w, EMPTY) == 1
    ensures EvaluateWindow(w, p) == 2 <==> Count(w, p) == 2 && Count(w, EMPTY) == 2
    ensures EvaluateWindow(w, p) == -4 <==> Count(w, Opponent(p)) == 3 && Count(w, EMPTY) == 1
    ensures EvaluateWindow(w, p) == 0 <==>
      !(Count(w, p) == 4 || (Count(w, p) == 3 && Count(w, EMPTY) == 1) || (Count(w, p) == 2 && Count(w, EMPTY) == 2)
        || (Count(w, Opponent(p)) == 3 && Count(w, EMPTY) == 1))
  {
    WindowCounts(w, p);
  }

  /** The running sum of the window scores, last window added last. */
  function WindowsScore(ws: seq<seq<int>>, p: int): int {
    if ws == [] then 0 else WindowsScore(ws[..|ws| - 1], p) + EvaluateWindow(ws[|ws| - 1], p)
  }

  /** Adding the score of window k extends the running sum by one window. */
  lemma WindowsScoreStep(ws: seq<seq<int>>, k: nat, w: seq<int>, p: int)
    requires k < |ws| && ws[k] == w
    ensures WindowsScore(ws[..k + 1], p) == WindowsScore(ws[..k], p) + EvaluateWindow(w, p)
  {
    assert ws[..k + 1][..k] == ws[..k];
  }

  /** The score of two lists of windows put together is the sum of their scores. */
  lemma {:induction false} WindowsScoreAppend(xs: seq<seq<int>>, ys: seq<seq<int>>, p: int)
    ensures WindowsScore(xs + ys, p) == WindowsScore(xs, p) + WindowsScore(ys, p)
    decreases |ys|
  {
    if ys == [] {
      assert xs + ys == xs;
    } else {
      var zs, last := xs + ys, |ys| - 1;
      assert zs[..|zs| - 1] == xs + ys[..last];
      WindowsScoreAppend(xs, ys[..last], p);
    }
  }

  /** Each 4-cell window contributes between -4 and 100. */
  lemma {:induction false} WindowsScoreBounds(ws: seq<seq<int>>, p: int)
    requires forall i :: 0 <= i < |ws| ==> |ws[i]| == 4
    ensures -4 * |ws| <= WindowsScore(ws, p) <= 100 * |ws|
  {
    if ws != [] {
      WindowsScoreBounds(ws[..|ws| - 1], p);
    }
  }

  /** The outer loop index of the k-th start cell of a scan whose inner loop runs n
      times (k / n, counted out without division). */
  function Outer(k: nat, n: nat): (o: nat)
    requires n > 0
    ensures n * o <= k
    decreases k
  {
    if k < n then 0 else 1 + Outer(k - n, n)
  }

  /** The inner loop index of the k-th start cell (k % n, counted out without division). */
  function Inner(k: nat, n: nat): (i: nat)
    requires n > 0
    ensures i < n
    decreases k
  {
    if k < n then k else Inner(k - n, n)
  }

  /** Start cell n * o + i of a scan is outer step o, inner step i. */
  lemma {:induction false} OuterInner(o: nat, i: nat, n: nat)
    requires i < n
    ensures Outer(n * o + i, n) == o && Inner(n * o + i, n) == i
  {
    if o > 0 {
      assert n * o + i - n == n * (o - 1) + i;
      OuterInner(o - 1, i, n);
    }
  }

  /** The 24 horizontal windows, row by row (main.py:139-143). */
  function HorizontalWindows(b: Board): (ws: seq<seq<int>>)
    ensures |ws| == 24
  {
    seq(24, i requires 0 <= i < 24 => Window(b, Outer(i, 4), Inner(i, 4), 0, 1))
  }

  /** Where the window starting at (r, c) sits in the horizontal scan. */
  lemma HorizontalWindowAt(b: Board, r: int, c: int)
    requires 0 <= r < ROWS && 0 <= c < COLUMNS - 3
    ensures HorizontalWindows(b)[4 * r + c] == Window(b, r, c, 0, 1)
  {
    OuterInner(r, c, 4);
  }

  /** Scoring the window at (r, c) extends the running sum of the horizontal scan by one window. */
  lemma HorizontalStep(b: Board, r: int, c: int, p: int)
    requires 0 <= r < ROWS && 0 <= c < COLUMNS - 3
    ensures WindowsScore(HorizontalWindows(b)[..4 * r + c + 1], p) == WindowsScore(HorizontalWindows(b)[..4 * r + c], p) + EvaluateWindow(Window(b, r, c, 0, 1), p)
  {
    HorizontalWindowAt(b, r, c);
    WindowsScoreStep(HorizontalWindows(b), 4 * r + c, Window(b, r, c, 0, 1), p);
  }

  /** The 21 vertical windows, column by column (main.py:146-150). */
  function VerticalWindows(b: Board): (ws: seq<seq<int>>)
    ensures |ws| == 21
  {
    seq(21, i requires 0 <= i < 21 => Window(b, Inner(i, 3), Outer(i, 3), 1, 0))
  }

  /** Where the window starting at (r, c) sits in the vertical scan. */
  lemma VerticalWindowAt(b: Board, r: int, c: int)
    requires 0 <= r < ROWS - 3 && 0 <= c < COLUMNS
    ensures VerticalWindows(b)[3 * c + r] == Window(b, r, c, 1, 0)
  {
    OuterInner(c, r, 3);
  }

  /** Scoring the window at (r, c) extends the running sum of the vertical scan by one window. */
  lemma VerticalStep(b: Board, r: int, c: int, p: int)
    requires 0 <= r < ROWS - 3 && 0 <= c < COLUMNS
    ensures WindowsScore(VerticalWindows(b)[..3 * c + r + 1], p) == WindowsScore(VerticalWindows(b)[..3 * c + r], p) + EvaluateWindow(Window(b, r, c, 1, 0), p)
  {
    VerticalWindowAt(b, r, c);
    WindowsScoreStep(VerticalWindows(b), 3 * c + r, Window(b, r, c, 1, 0), p);
  }

  /** The 12 windows running down and to the right (main.py:153-156). */
  function DiagonalWindows(b: Board): (ws: seq<seq<int>>)
    ensures |ws| == 12
  {
    seq(12, i requires 0 <= i < 12 => var r := if i < 4 then 0 else if i < 8 then 1 else 2; Window(b, r, i - 4 * r, 1, 1))
  }

  /** Where the window starting at (r, c) sits in the diagonal scan. */
  lemma DiagonalWindowAt(b: Board, r: int, c: int)
    requires 0 <= r < ROWS - 3 && 0 <= c < COLUMNS - 3
    ensures DiagonalWindows(b)[4 * r + c] == Window(b, r, c, 1, 1)
  {
  }

  /** Scoring the window at (r, c) extends the running sum of the diagonal scan by one window. */
  lemma DiagonalStep(b: Board, r: int, c: int, p: int)
    requires 0 <= r < ROWS - 3 && 0 <= c < COLUMNS - 3
    ensures WindowsScore(DiagonalWindows(b)[..4 * r + c + 1], p) == WindowsScore(DiagonalWindows(b)[..4 * r + c], p) + EvaluateWindow(Window(b, r, c, 1, 1), p)
  {
    DiagonalWindowAt(b, r, c);
    WindowsScoreStep(DiagonalWindows(b), 4 * r + c, Window(b, r, c, 1, 1), p);
  }

  /** The 12 windows running up and to the right (main.py:159-162). */
  function AntiDiagonalWindows(b: Board): (ws: seq<seq<int>>)
    ensures |ws| == 12
  {
    seq(12, i requires 0 <= i < 12 => var r := if i < 4 then 0 else if i < 8 then 1 else 2; Window(b, 3 + r, i - 4 * r, -1, 1))
  }

  /** Where the window starting at (r, c) sits in the antidiagonal scan. */
  lemma AntiDiagonalWindowAt(b: Board, r: int, c: int)
    requires 3 <= r < ROWS && 0 <= c < COLUMNS - 3
    ensures AntiDiagonalWindows(b)[4 * (r - 3) + c] == Window(b, r, c, -1, 1)
  {
  }

  /** Scoring the window at (r, c) extends the running sum of the antidiagonal scan by one window. */
  lemma AntiDiagonalStep(b: Board, r: int, c: int, p: int)
    requires 3 <= r < ROWS && 0 <= c < COLUMNS - 3
    ensures WindowsScore(AntiDiagonalWindows(b)[..4 * (r - 3) + c + 1], p) == WindowsScore(AntiDiagonalWindows(b)[..4 * (r - 3) + c], p) + EvaluateWindow(Window(b, r, c, -1, 1), p)
  {
    AntiDiagonalWindowAt(b, r, c);
    WindowsScoreStep(AntiDiagonalWindows(b), 4 * (r - 3) + c, Window(b, r, c, -1, 1), p);
  }

  /** All 69 windows of the board, in the order score_position visits them. */
  function AllWindows(b: Board): (ws: seq<seq<int>>)
    ensures |ws| == 69
  {
    HorizontalWindows(b) + VerticalWindows(b) + DiagonalWindows(b) + AntiDiagonalWindows(b)
  }

  /** The heuristic value of a board for player p: the sum of evaluate_window over all 69 windows. */
  ghost function PositionScore(b: Board, p: int): int {
    WindowsScore(AllWindows(b), p)
  }

  /** 69 windows, each between -4 and 100, bound every position score. */
  lemma PositionScoreBounds(b: Board, p: int)
    ensures -276 <= PositionScore(b, p) <= 6900
  {
    var ws := AllWindows(b);
    forall i | 0 <= i < |ws|
      ensures |ws[i]| == 4
    {
      var h, v, d := HorizontalWindows(b), VerticalWindows(b), DiagonalWindows(b);
      assert ws == h + v + d + AntiDiagonalWindows(b);
      if i < 24 {
        assert ws[i] == h[i] == Window(b, Outer(i, 4), Inner(i, 4), 0, 1);
      } else if i < 45 {
        assert ws[i] == v[i - 24] == Window(b, Inner(i - 24, 3), Outer(i - 24, 3), 1, 0);
      } else if i < 57 {
        var j := i - 45;
        var r := if j < 4 then 0 else if j < 8 then 1 else 2;
        assert ws[i] == d[j] == Window(b, r, j - 4 * r, 1, 1);
      } else {
        var j := i - 57;
        var r := if j < 4 then 0 else if j < 8 then 1 else 2;
        assert ws[i] == AntiDiagonalWindows(b)[j] == Window(b, 3 + r, j - 4 * r, -1, 1);
      }
    }
    WindowsScoreBounds(ws, p);
  }

  /** The window a scan reads from the array: the four cells from (r, c) in direction (dr, dc). */
  function ArrayWindow(board: array2<int>, r: int, c: int, dr: int, dc: int): (w: seq<int>)
    requires board.Length0 == ROWS && board.Length1 == COLUMNS && Fits(r, c, dr, dc)
    reads board
    ensures w == Window(Cells(board), r, c, dr, dc)
  {
    [board[r, c], board[r + dr, c + dc], board[r + 2 * dr, c + 2 * dc], board[r + 3 * dr, c + 3 * dc]]
  }

  /** score_position (main.py:134-164): the four scans below, one per orientation,
      accumulate one running score. */
  method ScorePosition(board: array2<int>, player: int) returns (score: int)
    requires board.Length0 == ROWS && board.Length1 == COLUMNS
    ensures score == PositionScore(Cells(board), player)
  {
    ghost var b := Cells(board);
    score := 0;
    var s := ScoreHorizontal(board, player);
    score := score + s;
    s := ScoreVertical(board, player);
    score := score + s;
    s := ScoreDiagonal(board, player);
    score := score + s;
    s := ScoreAntiDiagonal(board, player);
    score := score + s;
    WindowsScoreAppend(HorizontalWindows(b), VerticalWindows(b), player);
    WindowsScoreAppend(HorizontalWindows(b) + VerticalWindows(b), DiagonalWindows(b), player);
    WindowsScoreAppend(HorizontalWindows(b) + VerticalWindows(b) + DiagonalWindows(b), AntiDiagonalWindows(b), player);
  }

  /** The horizontal scan of score_position (main.py:139-143). */
  method ScoreHorizontal(board: array2<int>, player: int) returns (score: int)
    requires board.Length0 == ROWS && board.Length1 == COLUMNS
    ensures score == WindowsScore(HorizontalWindows(Cells(board)), player)
  {
    ghost var b := Cells(board);
    ghost var ws := HorizontalWindows(b);
    ghost var k := 0;
    score := 0;
    var row := 0;
    while row < ROWS
      invariant 0 <= row <= ROWS && k == 4 * row
      invariant score == WindowsScore(ws[..k], player)
    {
      var col := 0;
      while col < COLUMNS - 3
        invariant 0 <= col <= COLUMNS - 3 && k == 4 * row + col
        invariant score == WindowsScore(ws[..k], player)
      {
        var window := ArrayWindow(board, row, col, 0, 1);
        HorizontalStep(b, row, col, player);
        score := score + EvaluateWindow(window, player);
        k := k + 1;
        col := col + 1;
      }
      row := row + 1;
    }
    assert ws[..k] == ws;
  }

  /** The vertical scan of score_position, column by column (main.py:146-150). */
  method ScoreVertical(board: array2<int>, player: int) returns (score: int)
    requires board.Length0 == ROWS && board.Length1 == COLUMNS
    ensures score == WindowsScore(VerticalWindows(Cells(board)), player)
  {
    ghost var b := Cells(board);
    ghost var ws := VerticalWindows(b);
    ghost var k := 0;
    score := 0;
    var col := 0;
    while col < COLUMNS
      invariant 0 <= col <= COLUMNS && k == 3 * col
      invariant score == WindowsScore(ws[..k], player)
    {
      var row := 0;
      while row < ROWS - 3
        invariant 0 <= row <= ROWS - 3 && k == 3 * col + row
        invariant score == WindowsScore(ws[..k], player)
      {
        var window := ArrayWindow(board, row, col, 1, 0);
        VerticalStep(b, row, col, player);
        score := score + EvaluateWindow(window, player);
        k := k + 1;
        row := row + 1;
      }
      col := col + 1;
    }
    assert ws[..k] == ws;
  }

  /** The scan of the down-right diagonals (main.py:153-156). */
  method ScoreDiagonal(board: array2<int>, player: int) returns (score: int)
    requires board.Length0 == ROWS && board.Length1 == COLUMNS
    ensures score == WindowsScore(DiagonalWindows(Cells(board)), player)
  {
    ghost var b := Cells(board);
    ghost var ws := DiagonalWindows(b);
    ghost var k := 0;
    score := 0;
    var row := 0;
    while row < ROWS - 3
      invariant 0 <= row <= ROWS - 3 && k == 4 * row
      invariant score == WindowsScore(ws[..k], player)
    {
      var col := 0;
      while col < COLUMNS - 3
        invariant 0 <= col <= COLUMNS - 3 && k == 4 * row + col
        invariant score == WindowsScore(ws[..k], player)
      {
        var window := ArrayWindow(board, row, col, 1, 1);
        DiagonalStep(b, row, col, player);
        score := score + EvaluateWindow(window, player);
        k := k + 1;
        col := col + 1;
      }
      row := row + 1;
    }
    assert ws[..k] == ws;
  }

  /** The scan of the up-right diagonals (main.py:159-162). */
  method ScoreAntiDiagonal(board: array2<int>, player: int) returns (score: int)
    requires board.Length0 == ROWS && board.Length1 == COLUMNS
    ensures score == WindowsScore(AntiDiagonalWindows(Cells(board)), player)
  {
    ghost var b := Cells(board);
    ghost var ws := AntiDiagonalWindows(b);
    ghost var k := 0;
    score := 0;
    var row := 3;
    while row < ROWS
      invariant 3 <= row <= ROWS && k == 4 * (row - 3)
      invariant score == WindowsScore(ws[..k], player)
    {
      var col := 0;
      while col < COLUMNS - 3
        invariant 0 <= col <= COLUMNS - 3 && k == 4 * (row - 3) + col
        invariant score == WindowsScore(ws[..k], player)
      {
        var window := ArrayWindow(board, row, col, -1, 1);
        AntiDiagonalStep(b, row, col, player);
        score := score + EvaluateWindow(window, player);
        k := k + 1;
        col := col + 1;
      }
      row := row + 1;
    }
    assert ws[..k] == ws;
  }
}
