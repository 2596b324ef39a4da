/** Depth-bounded minimax with alpha-beta pruning (main.py:84-131). The computer
    (RED) maximises, the human (YELLOW) minimises. */
module Search {
  import opened BoardState
  import opened WinDetection
  import opened Heuristic

  /** The score of a won position (main.py:93, 95). */
  const WIN: int := 1_000_000_000
  /** float('inf') of the script: a sentinel beyond every score a position can get. */
  const INF: int := 1_000_000_000_000

  /** The pair (best_column, value) minimax returns; the column is None at a leaf. */
  datatype SearchResult = SearchResult(column: Option<Column>, score: int)

  function Max(x: int, y: int): int { if x >= y then x else y }
  function Min(x: int, y: int): int { if x <= y then x else y }

  /** is_terminal (main.py:87-88). */
  ghost predicate IsTerminal(b: Board) {
    HasFourInARow(b, YELLOW) || HasFourInARow(b, RED) || IsBoardFull(b)
  }

  /** The value of a node that is not expanded (main.py:90-99): a RED win first,
      then a YELLOW win, then a draw on a full board, else the heuristic for RED. */
  ghost function LeafScore(b: Board): (s: int)
    ensures -WIN <= s <= WIN
    ensures HasFourInARow(b, RED) ==> s == WIN
    ensures !HasFourInARow(b, RED) && HasFourInARow(b, YELLOW) ==> s == -WIN
    ensures !HasFourInARow(b, RED) && !HasFourInARow(b, YELLOW) && IsBoardFull(b) ==> s == 0
    ensures !IsTerminal(b) ==> s == PositionScore(b, RED)
  {
    PositionScoreBounds(b, RED);
    if HasFourInARow(b, RED) then WIN
    else if HasFourInARow(b, YELLOW) then -WIN
    else if IsBoardFull(b) then 0
    else PositionScore(b, RED)
  }

  // ---------------------------------------------------------------------------
  // The game tree minimax explores.
  // ---------------------------------------------------------------------------

  /** A node minimax expands, with the valid moves in the order it tries them and the
      subtree each move leads to, or a node it scores without expanding. */
  datatype GameTree = Leaf(score: int) | Node(columns: seq<Column>, children: seq<GameTree>)

  /** The shape every tree of positions has: a move per child, at least one child,
      and leaf scores within the win scores. */
  predicate WellFormed(t: GameTree) {
    match t
    case Leaf(s) => -WIN <= s <= WIN
    case Node(cols, kids) => |cols| == |kids| > 0 && forall i :: 0 <= i < |kids| ==> WellFormed(kids[i])
  }

  /** The tree minimax(b, depth, ., ., maximizing) explores: a leaf at depth 0 or at a
      terminal position, otherwise one child per valid move, in which the side to move
      (RED when maximizing) has dropped a piece. */
  ghost function Tree(b: Board, depth: nat, maximizing: bool): (t: GameTree)
    ensures WellFormed(t)
    decreases depth, 1, 0
  {
    if depth == 0 || IsTerminal(b) then Leaf(LeafScore(b))
    else
      var moves := FindValidMoves(b);
      FindValidMovesSpec(b);
      Node(moves, Subtrees(b, depth, maximizing, moves))
  }

  /** The subtrees of the moves listed, in order. */
  ghost function Subtrees(b: Board, depth: nat, maximizing: bool, moves: seq<Column>): (ts: seq<GameTree>)
    requires depth > 0
    ensures |ts| == |moves| && forall i :: 0 <= i < |ts| ==> WellFormed(ts[i])
    decreases depth, 0, |moves|
  {
    if moves == [] then []
    else [Tree(Drop(b, moves[0], if maximizing then RED else YELLOW), depth - 1, !maximizing)]
         + Subtrees(b, depth, maximizing, moves[1..])
  }

  /** The i-th subtree is the tree of the position the i-th move leads to. */
  lemma {:induction false} SubtreeAt(b: Board, depth: nat, maximizing: bool, moves: seq<Column>, i: nat)
    requires depth > 0 && i < |moves|
    ensures Subtrees(b, depth, maximizing, moves)[i]
         == Tree(Drop(b, moves[i], if maximizing then RED else YELLOW), depth - 1, !maximizing)
    decreases i
  {
    if i > 0 {
      SubtreeAt(b, depth, maximizing, moves[1..], i - 1);
    }
  }

  /** The root of the tree: a leaf scored by LeafScore exactly when the depth is spent
      or the position is terminal, otherwise a node over the valid moves. */
  lemma TreeRoot(b: Board, depth: nat, maximizing: bool)
    ensures var t := Tree(b, depth, maximizing);
      (t.Leaf? <==> depth == 0 || IsTerminal(b)) &&
      (t.Leaf? ==> t.score == LeafScore(b)) &&
      (t.Node? ==> t.columns == FindValidMoves(b))
  {
  }

  /** The subtree of the i-th valid move. */
  lemma TreeChild(b: Board, depth: nat, maximizing: bool, i: nat)
    requires depth > 0 && !IsTerminal(b) && i < |FindValidMoves(b)|
    ensures Tree(b, depth, maximizing).children[i]
         == Tree(Drop(b, FindValidMoves(b)[i], if maximizing then RED else YELLOW), depth - 1, !maximizing)
  {
    SubtreeAt(b, depth, maximizing, FindValidMoves(b), i);
  }

  // ---------------------------------------------------------------------------
  // The search as the script runs it, with pruning, over the tree.
  // ---------------------------------------------------------------------------

  /** minimax with alpha-beta pruning, its provisional column taken to be the first
      valid move (ProvisionalColumnIrrelevantMax shows that the random provisional
      column of the script never survives). */
  ghost function TreeAlphaBeta(t: GameTree, alpha: int, beta: int, maximizing: bool): (r: SearchResult)
    requires WellFormed(t)
    ensures -WIN <= r.score <= WIN
    ensures r.column.None? <==> t.Leaf?
    ensures r.column.Some? ==> r.column.value in t.columns
    decreases t, 1
  {
    match t
    case Leaf(s) => SearchResult(None, s)
    case Node(cols, _) =>
      if maximizing then TreeAlphaBetaMax(t, 0, alpha, beta, -INF, cols[0])
      else TreeAlphaBetaMin(t, 0, alpha, beta, INF, cols[0])
  }

  /** The loop of a maximising node (main.py:104-115) from the i-th move on, with the
      running value, best column and alpha. */
  ghost function TreeAlphaBetaMax(t: GameTree, i: nat, alpha: int, beta: int, value: int, best: Column): (r: SearchResult)
    requires t.Node? && WellFormed(t) && i <= |t.children|
    ensures (-WIN <= value <= WIN || (value == -INF && i < |t.children|)) ==> -WIN <= r.score <= WIN
    ensures r.column.Some? && (r.column.value == best || r.column.value in t.columns[i..])
    decreases t, 0, |t.children| - i
  {
    if i == |t.children| then SearchResult(Some(best), value)
    else
      var s := TreeAlphaBeta(t.children[i], alpha, beta, false).score;
      var value' := if s > value then s else value;
      var best' := if s > value then t.columns[i] else best;
      var alpha' := Max(alpha, value');
      if alpha' >= beta then SearchResult(Some(best'), value')
      else TreeAlphaBetaMax(t, i + 1, alpha', beta, value', best')
  }

  /** The loop of a minimising node (main.py:120-131). */
  ghost function TreeAlphaBetaMin(t: GameTree, i: nat, alpha: int, beta: int, value: int, best: Column): (r: SearchResult)
    requires t.Node? && WellFormed(t) && i <= |t.children|
    ensures (-WIN <= value <= WIN || (value == INF && i < |t.children|)) ==> -WIN <= r.score <= WIN
    ensures r.column.Some? && (r.column.value == best || r.column.value in t.columns[i..])
    decreases t, 0, |t.children| - i
  {
    if i == |t.children| then SearchResult(Some(best), value)
    else
      var s := TreeAlphaBeta(t.children[i], alpha, beta, true).score;
      var value' := if s < value then s else value;
      var best' := if s < value then t.columns[i] else best;
      var beta' := Min(beta, value');
      if alpha >= beta' then SearchResult(Some(best'), value')
      else TreeAlphaBetaMin(t, i + 1, alpha, beta', value', best')
  }

  /** best_column = random.choice(valid_moves) is overwritten by the first child,
      whatever it was: every child score is finite and so beats the initial -inf. */
  lemma ProvisionalColumnIrrelevantMax(t: GameTree, alpha: int, beta: int, x: Column, y: Column)
    requires t.Node? && WellFormed(t)
    ensures TreeAlphaBetaMax(t, 0, alpha, beta, -INF, x) == TreeAlphaBetaMax(t, 0, alpha, beta, -INF, y)
  {
  }

  /** The same for a minimising node, whose initial value is +inf. */
  lemma ProvisionalColumnIrrelevantMin(t: GameTree, alpha: int, beta: int, x: Column, y: Column)
    requires t.Node? && WellFormed(t)
    ensures TreeAlphaBetaMin(t, 0, alpha, beta, INF, x) == TreeAlphaBetaMin(t, 0, alpha, beta, INF, y)
  {
  }

  // ---------------------------------------------------------------------------
  // The reference: plain minimax over the same move order, no pruning.
  // ---------------------------------------------------------------------------

  /** Plain minimax: every child examined, the first strictly best column kept. */
  ghost function TreeMinimax(t: GameTree, maximizing: bool): (r: SearchResult)
    requires WellFormed(t)
    ensures -WIN <= r.score <= WIN
    decreases t, 1
  {
    match t
    case Leaf(s) => SearchResult(None, s)
    case Node(cols, _) =>
      if maximizing then MaxOver(t, 0, -INF, cols[0])
      else MinOver(t, 0, INF, cols[0])
  }

  /** The running maximum over the children from the i-th on. */
  ghost function MaxOver(t: GameTree, i: nat, value: int, best: Column): (r: SearchResult)
    requires t.Node? && WellFormed(t) && i <= |t.children|
    ensures r.score >= value
    ensures (-WIN <= value <= WIN || (value == -INF && i < |t.children|)) ==> -WIN <= r.score <= WIN
    decreases t, 0, |t.children| - i
  {
    if i == |t.children| then SearchResult(Some(best), value)
    else
      var s := TreeMinimax(t.children[i], false).score;
      if s > value then MaxOver(t, i + 1, s, t.columns[i])
      else MaxOver(t, i + 1, value, best)
  }

  /** The running minimum over the children from the i-th on. */
  ghost function MinOver(t: GameTree, i: nat, value: int, best: Column): (r: SearchResult)
    requires t.Node? && WellFormed(t) && i <= |t.children|
    ensures r.score <= value
    ensures (-WIN <= value <= WIN || (value == INF && i < |t.children|)) ==> -WIN <= r.score <= WIN
    decreases t, 0, |t.children| - i
  {
    if i == |t.children| then SearchResult(Some(best), value)
    else
      var s := TreeMinimax(t.children[i], true).score;
      if s < value then MinOver(t, i + 1, s, t.columns[i])
      else MinOver(t, i + 1, value, best)
  }

  /** MaxOver is the maximum: no child from the i-th on beats it, and unless the
      running value stands, it is the value of a child j whose column it returns, the
      first child to reach that value. */
  lemma {:induction false} MaxOverIsFirstMaximum(t: GameTree, i: nat, value: int, best: Column)
    requires t.Node? && WellFormed(t) && i <= |t.children|
    ensures var r := MaxOver(t, i, value, best);
      (forall j :: i <= j < |t.children| ==> TreeMinimax(t.children[j], false).score <= r.score) &&
      (r == SearchResult(Some(best), value) ||
       exists j :: i <= j < |t.children| && value < r.score &&
         r == SearchResult(Some(t.columns[j]), TreeMinimax(t.children[j], false).score) &&
         forall k :: i <= k < j ==> TreeMinimax(t.children[k], false).score < r.score)
    decreases |t.children| - i
  {
    if i < |t.children| {
      var s := TreeMinimax(t.children[i], false).score;
      if s > value {
        MaxOverIsFirstMaximum(t, i + 1, s, t.columns[i]);
      } else {
        MaxOverIsFirstMaximum(t, i + 1, value, best);
      }
    }
  }

  /** MinOver is the minimum, the mirror image of MaxOverIsFirstMaximum. */
  lemma {:induction false} MinOverIsFirstMinimum(t: GameTree, i: nat, value: int, best: Column)
    requires t.Node? && WellFormed(t) && i <= |t.children|
    ensures var r := MinOver(t, i, value, best);
      (forall j :: i <= j < |t.children| ==> r.score <= TreeMinimax(t.children[j], true).score) &&
      (r == SearchResult(Some(best), value) ||
       exists j :: i <= j < |t.children| && r.score < value &&
         r == SearchResult(Some(t.columns[j]), TreeMinimax(t.children[j], true).score) &&
         forall k :: i <= k < j ==> r.score < TreeMinimax(t.children[k], true).score)
    decreases |t.children| - i
  {
    if i < |t.children| {
      var s := TreeMinimax(t.children[i], true).score;
      if s < value {
        MinOverIsFirstMinimum(t, i + 1, s, t.columns[i]);
      } else {
        MinOverIsFirstMinimum(t, i + 1, value, best);
      }
    }
  }

  // ---------------------------------------------------------------------------
  // Pruning is sound: inside the window it is exact, outside it errs on the right side.
  // ---------------------------------------------------------------------------

  /** What a pruned score r promises about the true value v for the window (alpha, beta). */
  predicate Within(r: int, v: int, alpha: int, beta: int) {
    (v <= alpha ==> r <= alpha) && (alpha < v < beta ==> r == v) && (beta <= v ==> beta <= r)
  }

  /** One step of a maximising loop, on scores alone: s is the pruned score of the
      next child and c its true value. The invariant of PruningSoundMax is kept, and a
      cut happens only when the true maximum has reached beta. */
  lemma MaxStep(alpha0: int, alpha: int, beta: int, value: int, v: int, s: int, c: int)
    requires -INF <= alpha0 && alpha == Max(alpha0, value) && alpha < beta <= INF
    requires v <= alpha0 ==> value <= alpha0
    requires alpha0 < v ==> value == v
    requires Within(s, c, alpha, beta)
    ensures var value', v' := (if s > value then s else value), (if c > v then c else v);
      (Max(alpha, value') >= beta ==> beta <= value' && beta <= v') &&
      (Max(alpha, value') < beta ==>
         Max(alpha, value') == Max(alpha0, value') && (v' <= alpha0 ==> value' <= alpha0) && (alpha0 < v' ==> value' == v'))
  {
  }

  /** One step of a minimising loop, the mirror image of MaxStep. */
  lemma MinStep(beta0: int, alpha: int, beta: int, value: int, v: int, s: int, c: int)
    requires beta0 <= INF && beta == Min(beta0, value) && -INF <= alpha < beta
    requires beta0 <= v ==> beta0 <= value
    requires v < beta0 ==> value == v
    requires Within(s, c, alpha, beta)
    ensures var value', v' := (if s < value then s else value), (if c < v then c else v);
      (alpha >= Min(beta, value') ==> value' <= alpha && v' <= alpha) &&
      (alpha < Min(beta, value') ==>
         Min(beta, value') == Min(beta0, value') && (beta0 <= v' ==> beta0 <= value') && (v' < beta0 ==> value' == v'))
  {
  }

  /** The pruned score is the minimax value whenever that lies strictly inside the
      window, and lies on the same side of the window as the minimax value otherwise. */
  lemma {:induction false} PruningSound(t: GameTree, alpha: int, beta: int, maximizing: bool)
    requires WellFormed(t) && -INF <= alpha < beta <= INF
    ensures Within(TreeAlphaBeta(t, alpha, beta, maximizing).score, TreeMinimax(t, maximizing).score, alpha, beta)
    decreases t, 1
  {
    if t.Node? {
      if maximizing {
        PruningSoundMax(t, 0, alpha, alpha, beta, -INF, t.columns[0], -INF, t.columns[0]);
      } else {
        PruningSoundMin(t, 0, beta, alpha, beta, INF, t.columns[0], INF, t.columns[0]);
      }
    }
  }

  /** Loop invariant of a maximising node: value tracks the true maximum v so far
      whenever v is above the node's own alpha0, and stays at or below alpha0 otherwise. */
  lemma {:induction false} PruningSoundMax(t: GameTree, i: nat, alpha0: int, alpha: int, beta: int,
                                           value: int, best: Column, v: int, vbest: Column)
    requires t.Node? && WellFormed(t) && i <= |t.children|
    requires -INF <= alpha0 && alpha == Max(alpha0, value) && alpha < beta <= INF
    requires v <= alpha0 ==> value <= alpha0
    requires alpha0 < v ==> value == v
    ensures Within(TreeAlphaBetaMax(t, i, alpha, beta, value, best).score, MaxOver(t, i, v, vbest).score, alpha0, beta)
    decreases t, 0, |t.children| - i
  {
    if i < |t.children| {
      var s := TreeAlphaBeta(t.children[i], alpha, beta, false).score;
      var c := TreeMinimax(t.children[i], false).score;
      PruningSound(t.children[i], alpha, beta, false);
      MaxStep(alpha0, alpha, beta, value, v, s, c);
      var value' := if s > value then s else value;
      var best' := if s > value then t.columns[i] else best;
      var v' := if c > v then c else v;
      var vbest' := if c > v then t.columns[i] else vbest;
      assert MaxOver(t, i, v, vbest) == MaxOver(t, i + 1, v', vbest');
      if Max(alpha, value') < beta {
        PruningSoundMax(t, i + 1, alpha0, Max(alpha, value'), beta, value', best', v', vbest');
      }
    }
  }

  /** Loop invariant of a minimising node, the mirror image of PruningSoundMax. */
  lemma {:induction false} PruningSoundMin(t: GameTree, i: nat, beta0: int, alpha: int, beta: int,
                                           value: int, best: Column, v: int, vbest: Column)
    requires t.Node? && WellFormed(t) && i <= |t.children|
    requires beta0 <= INF && beta == Min(beta0, value) && -INF <= alpha < beta
    requires beta0 <= v ==> beta0 <= value
    requires v < beta0 ==> value == v
    ensures Within(TreeAlphaBetaMin(t, i, alpha, beta, value, best).score, MinOver(t, i, v, vbest).score, alpha, beta0)
    decreases t, 0, |t.children| - i
  {
    if i < |t.children| {
      var s := TreeAlphaBeta(t.children[i], alpha, beta, true).score;
      var c := TreeMinimax(t.children[i], true).score;
      PruningSound(t.children[i], alpha, beta, true);
      MinStep(beta0, alpha, beta, value, v, s, c);
      var value' := if s < value then s else value;
      var best' := if s < value then t.columns[i] else best;
      var v' := if c < v then c else v;
      var vbest' := if c < v then t.columns[i] else vbest;
      assert MinOver(t, i, v, vbest) == MinOver(t, i + 1, v', vbest');
      if alpha < Min(beta, value') {
        PruningSoundMin(t, i + 1, beta0, alpha, Min(beta, value'), value', best', v', vbest');
      }
    }
  }

  /** With the full window (-inf, +inf), pruning changes neither the value nor the
      chosen column. */
  lemma {:induction false} PruningExact(t: GameTree, maximizing: bool)
    requires WellFormed(t)
    ensures TreeAlphaBeta(t, -INF, INF, maximizing) == TreeMinimax(t, maximizing)
  {
    if t.Node? {
      if maximizing {
        PruningExactMax(t, 0, -INF, t.columns[0]);
      } else {
        PruningExactMin(t, 0, INF, t.columns[0]);
      }
    }
  }

  /** At the root alpha is always the running value and beta stays +inf. */
  lemma {:induction false} PruningExactMax(t: GameTree, i: nat, value: int, best: Column)
    requires t.Node? && WellFormed(t) && i <= |t.children|
    requires value == -INF || -WIN <= value <= WIN
    ensures TreeAlphaBetaMax(t, i, value, INF, value, best) == MaxOver(t, i, value, best)
    decreases |t.children| - i
  {
    if i < |t.children| {
      var s := TreeAlphaBeta(t.children[i], value, INF, false).score;
      var c := TreeMinimax(t.children[i], false).score;
      PruningSound(t.children[i], value, INF, false);
      assert (s > value) == (c > value) && (s > value ==> s == c);
      PruningExactMax(t, i + 1, if s > value then s else value, if s > value then t.columns[i] else best);
    }
  }

  /** At a minimising root beta is always the running value and alpha stays -inf. */
  lemma {:induction false} PruningExactMin(t: GameTree, i: nat, value: int, best: Column)
    requires t.Node? && WellFormed(t) && i <= |t.children|
    requires value == INF || -WIN <= value <= WIN
    ensures TreeAlphaBetaMin(t, i, -INF, value, value, best) == MinOver(t, i, value, best)
    decreases |t.children| - i
  {
    if i < |t.children| {
      var s := TreeAlphaBeta(t.children[i], -INF, value, true).score;
      var c := TreeMinimax(t.children[i], true).score;
      PruningSound(t.children[i], -INF, value, true);
      assert (s < value) == (c < value) && (s < value ==> s == c);
      PruningExactMin(t, i + 1, if s < value then s else value, if s < value then t.columns[i] else best);
    }
  }

  // ---------------------------------------------------------------------------
  // The search on boards.
  // ---------------------------------------------------------------------------

  /** minimax(b, depth, alpha, beta, maximizing) as the script computes it. */
  ghost function AlphaBeta(b: Board, depth: nat, alpha: int, beta: int, maximizing: bool): (r: SearchResult)
    ensures -WIN <= r.score <= WIN
  {
    TreeAlphaBeta(Tree(b, depth, maximizing), alpha, beta, maximizing)
  }

  /** minimax returns no column exactly at a leaf, and otherwise one of the valid moves. */
  lemma AlphaBetaColumn(b: Board, depth: nat, alpha: int, beta: int, maximizing: bool)
    ensures var r := AlphaBeta(b, depth, alpha, beta, maximizing);
      (r.column.None? <==> depth == 0 || IsTerminal(b)) &&
      (r.column.Some? ==> r.column.value in FindValidMoves(b))
  {
    TreeRoot(b, depth, maximizing);
  }

  /** Plain depth-bounded minimax on a board. */
  ghost function Minimax(b: Board, depth: nat, maximizing: bool): (r: SearchResult)
    ensures -WIN <= r.score <= WIN
  {
    TreeMinimax(Tree(b, depth, maximizing), maximizing)
  }

  /** The call ai_move_hard makes, with the window (-inf, +inf), returns exactly what
      plain minimax returns, column included. */
  lemma SearchIsMinimax(b: Board, depth: nat, maximizing: bool)
    ensures AlphaBeta(b, depth, -INF, INF, maximizing) == Minimax(b, depth, maximizing)
  {
    PruningExact(Tree(b, depth, maximizing), maximizing);
  }

  /** At a position RED has to move in, minimax picks the first valid column that
      reaches the largest value any valid column reaches, and returns that value. */
  lemma {:induction false} MinimaxPicksFirstBestMove(b: Board, depth: nat)
    requires depth > 0 && !IsTerminal(b)
    ensures var r := Minimax(b, depth, true);
      var ms := FindValidMoves(b);
      (forall k :: 0 <= k < |ms| ==> Minimax(Drop(b, ms[k], RED), depth - 1, false).score <= r.score) &&
      exists j :: 0 <= j < |ms| && r.column == Some(ms[j]) &&
        r.score == Minimax(Drop(b, ms[j], RED), depth - 1, false).score &&
        forall k :: 0 <= k < j ==> Minimax(Drop(b, ms[k], RED), depth - 1, false).score < r.score
  {
    var t := Tree(b, depth, true);
    var ms := FindValidMoves(b);
    MaxOverIsFirstMaximum(t, 0, -INF, ms[0]);
    forall k | 0 <= k < |ms|
      ensures t.children[k] == Tree(Drop(b, ms[k], RED), depth - 1, false)
    {
      TreeChild(b, depth, true, k);
    }
  }

  /** When RED can complete four in a row with one of its moves, a search of depth at
      least one finds the win score. */
  lemma WinningMoveScoresWin(b: Board, depth: nat, c: Column)
    requires depth > 0 && !IsTerminal(b)
    requires c in FindValidMoves(b) && HasFourInARow(Drop(b, c, RED), RED)
    ensures Minimax(b, depth, true).score == WIN
    ensures AlphaBeta(b, depth, -INF, INF, true).score == WIN
  {
    var ms := FindValidMoves(b);
    var k :| 0 <= k < |ms| && ms[k] == c;
    MinimaxPicksFirstBestMove(b, depth);
    assert Minimax(Drop(b, ms[k], RED), depth - 1, false).score == WIN;
    SearchIsMinimax(b, depth, true);
  }

  /** The score SearchChild returns for the i-th valid move is the search of the i-th
      subtree. */
  lemma ChildScore(b: Board, depth: nat, maximizing: bool, i: nat, alpha: int, beta: int, s: int)
    requires depth > 0 && !IsTerminal(b) && i < |FindValidMoves(b)|
    requires s == AlphaBeta(Drop(b, FindValidMoves(b)[i], if maximizing then RED else YELLOW), depth - 1, alpha, beta, !maximizing).score
    ensures s == TreeAlphaBeta(Tree(b, depth, maximizing).children[i], alpha, beta, !maximizing).score
  {
    TreeChild(b, depth, maximizing, i);
  }

  // ---------------------------------------------------------------------------
  // The search as a method over the array.
  // ---------------------------------------------------------------------------

  /** minimax (main.py:84-131). It has no modifies clause: every child is searched on
      a fresh copy of the board, so the board it is given is left untouched. */
  method MinimaxSearch(board: array2<int>, depth: nat, alpha: int, beta: int, maximizingPlayer: bool)
    returns (column: Option<Column>, value: int)
    requires board.Length0 == ROWS && board.Length1 == COLUMNS
    ensures SearchResult(column, value) == AlphaBeta(Cells(board), depth, alpha, beta, maximizingPlayer)
    decreases depth, 2
  {
    var validMoves := FindValidMoves(Cells(board));
    var yellowWins := CheckForWinner(board, YELLOW);
    var redWins := CheckForWinner(board, RED);
    var isTerminal := yellowWins || redWins || IsBoardFull(Cells(board));

    if depth == 0 || isTerminal {
      if isTerminal {
        if redWins {
          return None, WIN;
        } else if yellowWins {
          return None, -WIN;
        } else {
          return None, 0;
        }
      } else {
        var s := ScorePosition(board, RED);
        return None, s;
      }
    }

    if maximizingPlayer {
      column, value := MaximizingNode(board, depth, alpha, beta, validMoves);
    } else {
      column, value := MinimizingNode(board, depth, alpha, beta, validMoves);
    }
  }

  /** Lines 105-107 and 121-123: a copy of the board with a piece of player dropped
      into column col. */
  method ChildBoard(board: array2<int>, ghost b: Board, col: Column, player: int) returns (tempBoard: array2<int>)
    requires board.Length0 == ROWS && board.Length1 == COLUMNS
    requires Cells(board) == b && b[0][col] == EMPTY
    ensures fresh(tempBoard) && tempBoard.Length0 == ROWS && tempBoard.Length1 == COLUMNS
    ensures Cells(tempBoard) == Drop(b, col, player)
  {
    var row := GetNextOpenRow(board, col);
    tempBoard := CopyBoard(board);
    DropPieceOnBoard(tempBoard, row.value, col, player);
  }

  /** Line 108 and 124: the child position searched one level deeper. */
  method SearchChild(board: array2<int>, ghost b: Board, col: Column, player: int, depth: nat, alpha: int, beta: int, maximizingPlayer: bool)
    returns (newScore: int)
    requires board.Length0 == ROWS && board.Length1 == COLUMNS
    requires Cells(board) == b && b[0][col] == EMPTY && depth > 0
    ensures newScore == AlphaBeta(Drop(b, col, player), depth - 1, alpha, beta, maximizingPlayer).score
    decreases depth, 0
  {
    var tempBoard := ChildBoard(board, b, col, player);
    ghost var child := Cells(tempBoard);
    var _, s := MinimaxSearch(tempBoard, depth - 1, alpha, beta, maximizingPlayer);
    assert Cells(tempBoard) == child;
    return s;
  }

  /** The loop of a maximising node (main.py:101-115). */
  method MaximizingNode(board: array2<int>, depth: nat, alpha: int, beta: int, validMoves: seq<Column>)
    returns (column: Option<Column>, value: int)
    requires board.Length0 == ROWS && board.Length1 == COLUMNS
    requires depth > 0 && !IsTerminal(Cells(board)) && validMoves == FindValidMoves(Cells(board))
    ensures SearchResult(column, value) == AlphaBeta(Cells(board), depth, alpha, beta, true)
    decreases depth, 1
  {
    ghost var b := Cells(board);
    ghost var t := Tree(b, depth, true);
    TreeRoot(b, depth, true);
    assert validMoves[0] in validMoves;
    value := -INF;
    var bestColumn :| bestColumn in validMoves;
    ghost var provisional := bestColumn;
    var a := alpha;
    var i := 0;
    while i < |validMoves|
      invariant 0 <= i <= |validMoves| && Cells(board) == b
      invariant TreeAlphaBetaMax(t, i, a, beta, value, bestColumn) == TreeAlphaBetaMax(t, 0, alpha, beta, -INF, provisional)
    {
      ghost var before := TreeAlphaBetaMax(t, i, a, beta, value, bestColumn);
      var col := validMoves[i];
      ValidMoveIsOpen(b, i);
      var newScore := SearchChild(board, b, col, RED, depth, a, beta, false);
      assert Cells(board) == b;
      ChildScore(b, depth, true, i, a, beta, newScore);
      if newScore > value {
        value := newScore;
        bestColumn := col;
      }
      a := Max(a, value);
      if a >= beta {
        assert before == SearchResult(Some(bestColumn), value);
        break;
      }
      assert before == TreeAlphaBetaMax(t, i + 1, a, beta, value, bestColumn);
      i := i + 1;
    }
    ProvisionalColumnIrrelevantMax(t, alpha, beta, provisional, validMoves[0]);
    assert AlphaBeta(b, depth, alpha, beta, true) == TreeAlphaBetaMax(t, 0, alpha, beta, -INF, validMoves[0]);
    return Some(bestColumn), value;
  }

  /** The loop of a minimising node (main.py:117-131). */
  method MinimizingNode(board: array2<int>, depth: nat, alpha: int, beta: int, validMoves: seq<Column>)
    returns (column: Option<Column>, value: int)
    requires board.Length0 == ROWS && board.Length1 == COLUMNS
    requires depth > 0 && !IsTerminal(Cells(board)) && validMoves == FindValidMoves(Cells(board))
    ensures SearchResult(column, value) == AlphaBeta(Cells(board), depth, alpha, beta, false)
    decreases depth, 1
  {
    ghost var b := Cells(board);
    ghost var t := Tree(b, depth, false);
    TreeRoot(b, depth, false);
    assert validMoves[0] in validMoves;
    value := INF;
    var bestColumn :| bestColumn in validMoves;
    ghost var provisional := bestColumn;
    var bt := beta;
    var i := 0;
    while i < |validMoves|
      invariant 0 <= i <= |validMoves| && Cells(board) == b
      invariant TreeAlphaBetaMin(t, i, alpha, bt, value, bestColumn) == TreeAlphaBetaMin(t, 0, alpha, beta, INF, provisional)
    {
      ghost var before := TreeAlphaBetaMin(t, i, alpha, bt, value, bestColumn);
      var col := validMoves[i];
      ValidMoveIsOpen(b, i);
      var newScore := SearchChild(board, b, col, YELLOW, depth, alpha, bt, true);
      assert Cells(board) == b;
      ChildScore(b, depth, false, i, alpha, bt, newScore);
      if newScore < value {
        value := newScore;
        bestColumn := col;
      }
      bt := Min(bt, value);
      if alpha >= bt {
        assert before == SearchResult(Some(bestColumn), value);
        break;
      }
      assert before == TreeAlphaBetaMin(t, i + 1, alpha, bt, value, bestColumn);
      i := i + 1;
    }
    ProvisionalColumnIrrelevantMin(t, alpha, beta, provisional, validMoves[0]);
    assert AlphaBeta(b, depth, alpha, beta, false) == TreeAlphaBetaMin(t, 0, alpha, beta, INF, validMoves[0]);
    return Some(bestColumn), value;
  }
}
