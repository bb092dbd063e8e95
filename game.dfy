/** The tic-tac-toe engine: win detection, outcome classification, move
    enumeration, minimax and alpha-beta search, the centre-first move choice
    and the anti-cheat board diff.

    A board is a flat array of nine cells, cell (row, col) at index
    row * 3 + col.  The search methods work on that array by placing a piece,
    recursing and putting the blank back; the functions over `Grid` are the
    values those methods compute. */
module Game {
  import opened Base

  /** A board cell: " ", "X" (the human) or "O" (the computer). */
  datatype Cell = Empty | X | O

  type Grid = s: seq<Cell> | |s| == 9
    witness [Empty, Empty, Empty, Empty, Empty, Empty, Empty, Empty, Empty]

  /** A move (row, col). */
  datatype Pos = Pos(row: int, col: int)

  function Index(p: Pos): int { p.row * 3 + p.col }

  function PosOf(k: int): Pos { Pos(k / 3, k % 3) }

  predicate OnBoard(p: Pos) { 0 <= p.row < 3 && 0 <= p.col < 3 }

  predicate IsBlank(b: Grid, p: Pos) { OnBoard(p) && b[Index(p)] == Empty }

  lemma PosOfIndex(p: Pos)
    requires OnBoard(p)
    ensures PosOf(Index(p)) == p && 0 <= Index(p) < 9
  {
  }

  lemma IndexOfPos(k: int)
    requires 0 <= k < 9
    ensures OnBoard(PosOf(k)) && Index(PosOf(k)) == k
  {
  }

  // ---------------------------------------------------------------------
  // Winning lines

  predicate RowFull(b: Grid, player: Cell, r: int)
    requires 0 <= r < 3
  {
    b[3 * r] == player && b[3 * r + 1] == player && b[3 * r + 2] == player
  }

  predicate ColFull(b: Grid, player: Cell, c: int)
    requires 0 <= c < 3
  {
    b[c] == player && b[3 + c] == player && b[6 + c] == player
  }

  /** `check_winner`: some row, then some column, then the main diagonal,
      then the anti-diagonal is entirely `player`. */
  predicate CheckWinner(b: Grid, player: Cell)
  {
    RowFull(b, player, 0) || RowFull(b, player, 1) || RowFull(b, player, 2)
    || ColFull(b, player, 0) || ColFull(b, player, 1) || ColFull(b, player, 2)
    || (b[0] == player && b[4] == player && b[8] == player)
    || (b[2] == player && b[4] == player && b[6] == player)
  }

  /** The eight lines of the board as an independent table. */
  const WinLines: seq<(int, int, int)> :=
    [(0, 1, 2), (3, 4, 5), (6, 7, 8), (0, 3, 6), (1, 4, 7), (2, 5, 8), (0, 4, 8), (2, 4, 6)]

  predicate Owns(b: Grid, player: Cell, line: (int, int, int))
    requires 0 <= line.0 < 9 && 0 <= line.1 < 9 && 0 <= line.2 < 9
  {
    b[line.0] == player && b[line.1] == player && b[line.2] == player
  }

  lemma CheckWinnerLines(b: Grid, player: Cell)
    ensures CheckWinner(b, player) <==> exists i | 0 <= i < 8 :: Owns(b, player, WinLines[i])
  {
    if CheckWinner(b, player) {
      if RowFull(b, player, 0) { assert Owns(b, player, WinLines[0]); }
      else if RowFull(b, player, 1) { assert Owns(b, player, WinLines[1]); }
      else if RowFull(b, player, 2) { assert Owns(b, player, WinLines[2]); }
      else if ColFull(b, player, 0) { assert Owns(b, player, WinLines[3]); }
      else if ColFull(b, player, 1) { assert Owns(b, player, WinLines[4]); }
      else if ColFull(b, player, 2) { assert Owns(b, player, WinLines[5]); }
      else if b[0] == player && b[4] == player && b[8] == player { assert Owns(b, player, WinLines[6]); }
      else { assert Owns(b, player, WinLines[7]); }
    }
  }

  // ---------------------------------------------------------------------
  // Enumerating cells

  /** The cells among the first `k` (row-major) that hold `c`, in row-major order. */
  function CellsOf(b: Grid, c: Cell, k: nat): seq<Pos>
    requires k <= 9
  {
    if k == 0 then [] else CellsOf(b, c, k - 1) + (if b[k - 1] == c then [PosOf(k - 1)] else [])
  }

  /** What `get_available_moves` returns. */
  function AvailableMoves(b: Grid): seq<Pos> { CellsOf(b, Empty, 9) }

  /** What `find_ego` returns: the cells holding the computer's "O". */
  function EgoPositions(b: Grid): seq<Pos> { CellsOf(b, O, 9) }

  /** The number of non-blank cells among the first `k`, counted one by one. */
  function PiecesUpTo(b: Grid, k: nat): nat
    requires k <= 9
  {
    if k == 0 then 0 else PiecesUpTo(b, k - 1) + (if b[k - 1] != Empty then 1 else 0)
  }

  function PieceCount(b: Grid): nat { PiecesUpTo(b, 9) }

  lemma {:induction false} CellsOfMembers(b: Grid, c: Cell, k: nat)
    requires k <= 9
    ensures forall p :: p in CellsOf(b, c, k) <==> (OnBoard(p) && Index(p) < k && b[Index(p)] == c)
  {
    if k > 0 {
      CellsOfMembers(b, c, k - 1);
      PosOfIndex(PosOf(k - 1));
      forall p | OnBoard(p) && Index(p) < k && b[Index(p)] == c
        ensures p in CellsOf(b, c, k)
      {
        PosOfIndex(p);
      }
    }
  }

  lemma {:induction false} CellsOfOrdered(b: Grid, c: Cell, k: nat)
    requires k <= 9
    ensures forall i, j :: 0 <= i < j < |CellsOf(b, c, k)| ==> Index(CellsOf(b, c, k)[i]) < Index(CellsOf(b, c, k)[j])
  {
    if k > 0 {
      CellsOfOrdered(b, c, k - 1);
      CellsOfMembers(b, c, k - 1);
      var prev := CellsOf(b, c, k - 1);
      assert forall i :: 0 <= i < |prev| ==> Index(prev[i]) < k - 1 by {
        forall i | 0 <= i < |prev| ensures Index(prev[i]) < k - 1 {
          assert prev[i] in prev;
        }
      }
      PosOfIndex(PosOf(k - 1));
    }
  }

  /** The cells holding `c` among the first `k`, each once, in row-major order. */
  lemma CellsOfSpec(b: Grid, c: Cell, k: nat)
    requires k <= 9
    ensures forall p :: p in CellsOf(b, c, k) <==> (OnBoard(p) && Index(p) < k && b[Index(p)] == c)
    ensures forall i, j :: 0 <= i < j < |CellsOf(b, c, k)| ==> Index(CellsOf(b, c, k)[i]) < Index(CellsOf(b, c, k)[j])
  {
    CellsOfMembers(b, c, k);
    CellsOfOrdered(b, c, k);
  }

  /** `get_available_moves` returns exactly the blank cells, each once, in
      row-major order. */
  lemma AvailableMovesSpec(b: Grid)
    ensures forall p :: p in AvailableMoves(b) <==> IsBlank(b, p)
    ensures forall i, j :: 0 <= i < j < |AvailableMoves(b)| ==>
      Index(AvailableMoves(b)[i]) < Index(AvailableMoves(b)[j])
  {
    CellsOfSpec(b, Empty, 9);
  }

  lemma {:induction false} PiecesUpToComplement(b: Grid, k: nat)
    requires k <= 9
    ensures PiecesUpTo(b, k) == k - |CellsOf(b, Empty, k)|
  {
    if k > 0 { PiecesUpToComplement(b, k - 1); }
  }

  /** `count_pieces` is nine minus the number of available moves. */
  lemma PieceCountComplement(b: Grid)
    ensures PieceCount(b) == 9 - |AvailableMoves(b)|
  {
    PiecesUpToComplement(b, 9);
  }

  // ---------------------------------------------------------------------
  // Placing a piece

  function Place(b: Grid, m: Pos, c: Cell): Grid
    requires OnBoard(m)
  {
    b[Index(m) := c]
  }

  lemma {:induction false} CellsAfterPlace(b: Grid, m: Pos, c: Cell, k: nat)
    requires IsBlank(b, m) && c != Empty && k <= 9
    ensures |CellsOf(Place(b, m, c), Empty, k)| == |CellsOf(b, Empty, k)| - (if Index(m) < k then 1 else 0)
  {
    if k > 0 { CellsAfterPlace(b, m, c, k - 1); }
  }

  /** Filling a blank cell removes exactly one available move. */
  lemma MovesAfterPlace(b: Grid, m: Pos, c: Cell)
    requires IsBlank(b, m) && c != Empty
    ensures |AvailableMoves(Place(b, m, c))| == |AvailableMoves(b)| - 1
  {
    CellsAfterPlace(b, m, c, 9);
  }

  /** Filling a blank cell adds exactly one piece. */
  lemma PlaceCount(b: Grid, m: Pos, c: Cell)
    requires IsBlank(b, m) && c != Empty
    ensures PieceCount(Place(b, m, c)) == PieceCount(b) + 1
  {
    MovesAfterPlace(b, m, c);
    PieceCountComplement(b);
    PieceCountComplement(Place(b, m, c));
  }

  // ---------------------------------------------------------------------
  // Outcome

  /** `decide_win`: -1 human line, 1 computer line, 3 full board, 0 open. */
  function DecideWin(b: Grid): (r: int)
    ensures r == -1 || r == 0 || r == 1 || r == 3
  {
    if CheckWinner(b, X) then -1
    else if CheckWinner(b, O) then 1
    else if AvailableMoves(b) == [] then 3
    else 0
  }

  // ---------------------------------------------------------------------
  // Scores with the two infinities of `math.inf`

  datatype Ext = NegInf | Fin(n: int) | PosInf

  predicate Le(a: Ext, b: Ext)
  {
    a == NegInf || b == PosInf || (a.Fin? && b.Fin? && a.n <= b.n)
  }

  /** Python's `max(a, b)` and `min(a, b)`. */
  function Max(a: Ext, b: Ext): Ext { if Le(b, a) then a else b }

  function Min(a: Ext, b: Ext): Ext { if Le(a, b) then a else b }

  predicate IsScore(e: Ext) { e == Fin(-1) || e == Fin(0) || e == Fin(1) }

  // ---------------------------------------------------------------------
  // Minimax

  /** The value `minimax(board, depth, maximizing)` returns. */
  function Minimax(b: Grid, maximizing: bool): Ext
    decreases |AvailableMoves(b)|, 1, 0
  {
    if CheckWinner(b, X) then Fin(-1)
    else if CheckWinner(b, O) then Fin(1)
    else if AvailableMoves(b) == [] then Fin(0)
    else
      AvailableMovesSpec(b);
      MinimaxFold(b, AvailableMoves(b), maximizing, if maximizing then NegInf else PosInf)
  }

  /** The `for move in ...` loop of `minimax`, from accumulator `best` on. */
  function MinimaxFold(b: Grid, ms: seq<Pos>, maximizing: bool, best: Ext): Ext
    requires forall m | m in ms :: IsBlank(b, m)
    decreases |AvailableMoves(b)|, 0, |ms|
  {
    if ms == [] then best
    else
      var piece := if maximizing then O else X;
      MovesAfterPlace(b, ms[0], piece);
      var score := Minimax(Place(b, ms[0], piece), !maximizing);
      MinimaxFold(b, ms[1..], maximizing, if maximizing then Max(score, best) else Min(score, best))
  }

  // ---------------------------------------------------------------------
  // Alpha-beta

  /** The value `alpha_beta(board, depth, alpha, beta, maximizing)` returns. */
  function AlphaBeta(b: Grid, alpha: Ext, beta: Ext, maximizing: bool): Ext
    decreases |AvailableMoves(b)|, 1, 0
  {
    if CheckWinner(b, X) then Fin(-1)
    else if CheckWinner(b, O) then Fin(1)
    else if AvailableMoves(b) == [] then Fin(0)
    else
      AvailableMovesSpec(b);
      AlphaBetaFold(b, AvailableMoves(b), alpha, beta, maximizing, if maximizing then NegInf else PosInf)
  }

  /** The loop of `alpha_beta`, with its running window and its `break`. */
  function AlphaBetaFold(b: Grid, ms: seq<Pos>, alpha: Ext, beta: Ext, maximizing: bool, best: Ext): Ext
    requires forall m | m in ms :: IsBlank(b, m)
    decreases |AvailableMoves(b)|, 0, |ms|
  {
    if ms == [] then best
    else
      var piece := if maximizing then O else X;
      MovesAfterPlace(b, ms[0], piece);
      var score := AlphaBeta(Place(b, ms[0], piece), alpha, beta, !maximizing);
      if maximizing then
        var best', alpha' := Max(score, best), Max(alpha, score);
        if Le(beta, alpha') then best' else AlphaBetaFold(b, ms[1..], alpha', beta, true, best')
      else
        var best', beta' := Min(score, best), Min(beta, score);
        if Le(beta', alpha) then best' else AlphaBetaFold(b, ms[1..], alpha, beta', false, best')
  }

  // ---------------------------------------------------------------------
  // Properties of the search

  lemma {:induction false} MinimaxRange(b: Grid, maximizing: bool)
    ensures IsScore(Minimax(b, maximizing))
    decreases |AvailableMoves(b)|, 1, 0
  {
    if !CheckWinner(b, X) && !CheckWinner(b, O) && AvailableMoves(b) != [] {
      AvailableMovesSpec(b);
      MinimaxFoldRange(b, AvailableMoves(b), maximizing, if maximizing then NegInf else PosInf);
    }
  }

  lemma {:induction false} MinimaxFoldRange(b: Grid, ms: seq<Pos>, maximizing: bool, best: Ext)
    requires forall m | m in ms :: IsBlank(b, m)
    requires IsScore(best) || (ms != [] && best == (if maximizing then NegInf else PosInf))
    ensures IsScore(MinimaxFold(b, ms, maximizing, best))
    decreases |AvailableMoves(b)|, 0, |ms|
  {
    if ms != [] {
      var piece := if maximizing then O else X;
      MovesAfterPlace(b, ms[0], piece);
      MinimaxRange(Place(b, ms[0], piece), !maximizing);
      var score := Minimax(Place(b, ms[0], piece), !maximizing);
      MinimaxFoldRange(b, ms[1..], maximizing, if maximizing then Max(score, best) else Min(score, best));
    }
  }

  lemma {:induction false} AlphaBetaRange(b: Grid, alpha: Ext, beta: Ext, maximizing: bool)
    ensures IsScore(AlphaBeta(b, alpha, beta, maximizing))
    decreases |AvailableMoves(b)|, 1, 0
  {
    if !CheckWinner(b, X) && !CheckWinner(b, O) && AvailableMoves(b) != [] {
      AvailableMovesSpec(b);
      AlphaBetaFoldRange(b, AvailableMoves(b), alpha, beta, maximizing, if maximizing then NegInf else PosInf);
    }
  }

  lemma {:induction false} AlphaBetaFoldRange(b: Grid, ms: seq<Pos>, alpha: Ext, beta: Ext, maximizing: bool, best: Ext)
    requires forall m | m in ms :: IsBlank(b, m)
    requires IsScore(best) || (ms != [] && best == (if maximizing then NegInf else PosInf))
    ensures IsScore(AlphaBetaFold(b, ms, alpha, beta, maximizing, best))
    decreases |AvailableMoves(b)|, 0, |ms|
  {
    if ms != [] {
      var piece := if maximizing then O else X;
      MovesAfterPlace(b, ms[0], piece);
      AlphaBetaRange(Place(b, ms[0], piece), alpha, beta, !maximizing);
      var score := AlphaBeta(Place(b, ms[0], piece), alpha, beta, !maximizing);
      if maximizing {
        AlphaBetaFoldRange(b, ms[1..], Max(alpha, score), beta, true, Max(score, best));
      } else {
        AlphaBetaFoldRange(b, ms[1..], alpha, Min(beta, score), false, Min(score, best));
      }
    }
  }

  /** The maximizing loop never lowers its accumulator, the minimizing loop never raises it. */
  lemma {:induction false} MinimaxFoldMonotone(b: Grid, ms: seq<Pos>, maximizing: bool, acc: Ext)
    requires forall m | m in ms :: IsBlank(b, m)
    ensures maximizing ==> Le(acc, MinimaxFold(b, ms, maximizing, acc))
    ensures !maximizing ==> Le(MinimaxFold(b, ms, maximizing, acc), acc)
    decreases |ms|
  {
    if ms != [] {
      var piece := if maximizing then O else X;
      MovesAfterPlace(b, ms[0], piece);
      var score := Minimax(Place(b, ms[0], piece), !maximizing);
      MinimaxFoldMonotone(b, ms[1..], maximizing, if maximizing then Max(score, acc) else Min(score, acc));
    }
  }

  /** What a fail-soft value `v` searched with window (alpha, beta) says about
      the exact value `m`: at or below alpha it is an upper bound, at or above
      beta a lower bound, and strictly inside the window it is exact. */
  predicate FailSoft(v: Ext, m: Ext, alpha: Ext, beta: Ext)
  {
    && (Le(v, alpha) ==> Le(m, v))
    && (Le(beta, v) ==> Le(v, m))
    && (!Le(v, alpha) && !Le(beta, v) ==> m == v)
  }

  lemma {:induction false} AlphaBetaBounds(b: Grid, alpha: Ext, beta: Ext, maximizing: bool)
    requires !Le(beta, alpha)
    ensures FailSoft(AlphaBeta(b, alpha, beta, maximizing), Minimax(b, maximizing), alpha, beta)
    decreases |AvailableMoves(b)|, 1, 0
  {
    if !CheckWinner(b, X) && !CheckWinner(b, O) && AvailableMoves(b) != [] {
      AvailableMovesSpec(b);
      if maximizing {
        assert Max(alpha, NegInf) == alpha;
        AlphaBetaFoldMax(b, AvailableMoves(b), alpha, beta, NegInf, NegInf);
      } else {
        assert Min(beta, PosInf) == beta;
        AlphaBetaFoldMin(b, AvailableMoves(b), alpha, beta, PosInf, PosInf);
      }
    }
  }

  /** The maximizing loop of `alpha_beta` against the maximizing loop of
      `minimax`: `best` is the alpha-beta maximum so far, `acc` the exact one,
      and the running alpha is the larger of the entry alpha and `best`. */
  lemma {:induction false} AlphaBetaFoldMax(b: Grid, ms: seq<Pos>, alpha0: Ext, beta: Ext, best: Ext, acc: Ext)
    requires forall m | m in ms :: IsBlank(b, m)
    requires !Le(beta, alpha0) && !Le(beta, best)
    requires Le(acc, best) && (!Le(best, alpha0) ==> acc == best)
    ensures FailSoft(AlphaBetaFold(b, ms, Max(alpha0, best), beta, true, best), MinimaxFold(b, ms, true, acc), alpha0, beta)
    decreases |AvailableMoves(b)|, 0, |ms|
  {
    if ms != [] {
      assert ms[0] in ms;
      var child := Place(b, ms[0], O);
      MovesAfterPlace(b, ms[0], O);
      var a := Max(alpha0, best);
      AlphaBetaBounds(child, a, beta, false);
      var v := AlphaBeta(child, a, beta, false);
      var c := Minimax(child, false);
      if Le(beta, Max(a, v)) {
        assert Le(beta, v);
        MinimaxFoldMonotone(b, ms[1..], true, Max(c, acc));
      } else {
        AlphaBetaFoldMax(b, ms[1..], alpha0, beta, Max(v, best), Max(c, acc));
      }
    }
  }

  lemma {:induction false} AlphaBetaFoldMin(b: Grid, ms: seq<Pos>, alpha: Ext, beta0: Ext, best: Ext, acc: Ext)
    requires forall m | m in ms :: IsBlank(b, m)
    requires !Le(beta0, alpha) && !Le(best, alpha)
    requires Le(best, acc) && (!Le(beta0, best) ==> acc == best)
    ensures FailSoft(AlphaBetaFold(b, ms, alpha, Min(beta0, best), false, best), MinimaxFold(b, ms, false, acc), alpha, beta0)
    decreases |AvailableMoves(b)|, 0, |ms|
  {
    if ms != [] {
      assert ms[0] in ms;
      var child := Place(b, ms[0], X);
      MovesAfterPlace(b, ms[0], X);
      var bt := Min(beta0, best);
      AlphaBetaBounds(child, alpha, bt, true);
      var v := AlphaBeta(child, alpha, bt, true);
      var c := Minimax(child, true);
      if Le(Min(bt, v), alpha) {
        assert Le(v, alpha);
        MinimaxFoldMonotone(b, ms[1..], false, Min(c, acc));
      } else {
        AlphaBetaFoldMin(b, ms[1..], alpha, beta0, Min(v, best), Min(c, acc));
      }
    }
  }

  /** `alpha_beta` with the window (-inf, +inf) scores every board exactly as `minimax` does. */
  lemma AlphaBetaFullWindow(b: Grid, maximizing: bool)
    ensures AlphaBeta(b, NegInf, PosInf, maximizing) == Minimax(b, maximizing)
  {
    AlphaBetaBounds(b, NegInf, PosInf, maximizing);
    AlphaBetaRange(b, NegInf, PosInf, maximizing);
  }

  // ---------------------------------------------------------------------
  // Outcome properties

  /** The outcome codes: -1 whenever X has a line (even if O has one too),
      else 1 for an O line, else 3 for a full board, else 0; a decided board
      is a leaf that the search scores with the same verdict. */
  lemma DecideWinOutcomes(b: Grid, maximizing: bool)
    ensures DecideWin(b) == -1 <==> CheckWinner(b, X)
    ensures DecideWin(b) == 1 <==> !CheckWinner(b, X) && CheckWinner(b, O)
    ensures DecideWin(b) == 3 <==> !CheckWinner(b, X) && !CheckWinner(b, O) && PieceCount(b) == 9
    ensures DecideWin(b) == 0 <==> !CheckWinner(b, X) && !CheckWinner(b, O) && PieceCount(b) < 9
    ensures DecideWin(b) != 0 ==> Minimax(b, maximizing) == Fin(if DecideWin(b) == 3 then 0 else DecideWin(b))
  {
    PieceCountComplement(b);
  }

  // ---------------------------------------------------------------------
  // The move choice of `best_move`

  /** The score `best_move` compares for candidate `m`: the child's minimax
      value, its full-window alpha-beta value, or 0 for any other method name. */
  function MoveScore(b: Grid, m: Pos, searchMethod: string): Ext
    requires OnBoard(m)
  {
    var child := Place(b, m, O);
    if searchMethod == "minimax" then Minimax(child, false)
    else if searchMethod == "alpha-beta" then AlphaBeta(child, NegInf, PosInf, false)
    else Fin(0)
  }

  /** The loop of `best_move`: a candidate replaces the current one only when
      its score is strictly greater. */
  function ChooseFold(b: Grid, ms: seq<Pos>, searchMethod: string, best: Ext, move: Option<Pos>): Option<Pos>
    requires forall m | m in ms :: OnBoard(m)
  {
    if ms == [] then move
    else
      var score := MoveScore(b, ms[0], searchMethod);
      if !Le(score, best) then ChooseFold(b, ms[1..], searchMethod, score, Some(ms[0]))
      else ChooseFold(b, ms[1..], searchMethod, best, move)
  }

  /** What `best_move(board, method)` returns. */
  function ChooseMove(b: Grid, searchMethod: string): Option<Pos>
  {
    if b[4] == Empty then Some(Pos(1, 1))
    else
      AvailableMovesSpec(b);
      ChooseFold(b, AvailableMoves(b), searchMethod, NegInf, None)
  }

  lemma MoveScoreIsScore(b: Grid, m: Pos, searchMethod: string)
    requires OnBoard(m)
    ensures IsScore(MoveScore(b, m, searchMethod))
  {
    MinimaxRange(Place(b, m, O), false);
    AlphaBetaRange(Place(b, m, O), NegInf, PosInf, false);
  }

  lemma {:induction false} ChooseFoldSpec(b: Grid, ms: seq<Pos>, searchMethod: string, best: Ext, move: Option<Pos>)
    requires forall m | m in ms :: OnBoard(m)
    requires forall i, j :: 0 <= i < j < |ms| ==> Index(ms[i]) < Index(ms[j])
    requires move.None? ==> best == NegInf
    requires move.Some? ==> OnBoard(move.value) && best == MoveScore(b, move.value, searchMethod)
    requires move.Some? ==> forall m | m in ms :: Index(move.value) < Index(m)
    ensures var r := ChooseFold(b, ms, searchMethod, best, move);
      && (r.None? <==> ms == [] && move.None?)
      && (r.Some? ==> r == move || r.value in ms)
      && (r.Some? ==> OnBoard(r.value) && Le(best, MoveScore(b, r.value, searchMethod)))
      && (r.Some? ==> forall m | m in ms :: Le(MoveScore(b, m, searchMethod), MoveScore(b, r.value, searchMethod)))
      && (r.Some? && r != move ==> !Le(MoveScore(b, r.value, searchMethod), best))
      && (r.Some? ==> forall m | m in ms && Index(m) < Index(r.value) ::
            !Le(MoveScore(b, r.value, searchMethod), MoveScore(b, m, searchMethod)))
    decreases |ms|
  {
    if ms != [] {
      var m0 := ms[0];
      assert m0 in ms;
      MoveScoreIsScore(b, m0, searchMethod);
      if move.Some? { MoveScoreIsScore(b, move.value, searchMethod); }
      var score := MoveScore(b, m0, searchMethod);
      assert forall m | m in ms[1..] :: m in ms;
      if !Le(score, best) {
        ChooseFoldSpec(b, ms[1..], searchMethod, score, Some(m0));
      } else {
        ChooseFoldSpec(b, ms[1..], searchMethod, best, move);
      }
      var r := ChooseFold(b, ms, searchMethod, best, move);
      if r.Some? { MoveScoreIsScore(b, r.value, searchMethod); }
    }
  }

  /** `best_move` plays the centre without searching whenever it is blank;
      otherwise it returns None exactly when no cell is blank, and else a
      blank cell of maximal score that is the first such cell in row-major
      order (the comparison is a strict `>`). */
  lemma BestMoveChoice(b: Grid, searchMethod: string)
    ensures b[4] == Empty ==> ChooseMove(b, searchMethod) == Some(Pos(1, 1))
    ensures b[4] != Empty ==> (ChooseMove(b, searchMethod) == None <==> AvailableMoves(b) == [])
    ensures ChooseMove(b, searchMethod).Some? ==> IsBlank(b, ChooseMove(b, searchMethod).value)
    ensures b[4] != Empty && ChooseMove(b, searchMethod).Some? ==>
      var m := ChooseMove(b, searchMethod).value;
      && (forall m' | IsBlank(b, m') :: Le(MoveScore(b, m', searchMethod), MoveScore(b, m, searchMethod)))
      && (forall m' | IsBlank(b, m') && Index(m') < Index(m) ::
            !Le(MoveScore(b, m, searchMethod), MoveScore(b, m', searchMethod)))
  {
    AvailableMovesSpec(b);
    if b[4] != Empty {
      ChooseFoldSpec(b, AvailableMoves(b), searchMethod, NegInf, None);
    } else {
      assert IsBlank(b, Pos(1, 1));
    }
  }

  /** When `decide_win` reports an open game, `best_move` always finds a move. */
  lemma OpenGameHasMove(b: Grid, searchMethod: string)
    requires DecideWin(b) == 0
    ensures ChooseMove(b, searchMethod).Some?
  {
    BestMoveChoice(b, searchMethod);
  }

  // ---------------------------------------------------------------------
  // The anti-cheat diff

  /** Cell `k` holds an "O" in `b` that `a` does not hold. */
  predicate Gained(a: Grid, b: Grid, k: int)
  {
    0 <= k < 9 && b[k] == O && a[k] != O
  }

  /** The last element of `ps` that is not in `qs`, as the overwriting
      `for posi in posis: if posi not in last_posis` loop leaves it. */
  function LastNotIn(ps: seq<Pos>, qs: seq<Pos>): Option<Pos>
  {
    if ps == [] then None
    else if ps[|ps| - 1] !in qs then Some(ps[|ps| - 1])
    else LastNotIn(ps[..|ps| - 1], qs)
  }

  function IndexOf(p: Option<Pos>): Option<int>
  {
    match p
    case None => None
    case Some(q) => Some(Index(q))
  }

  /** What `anti_cheat(last_board, board)` returns. */
  function AntiCheatVerdict(last: Grid, board: Grid): (bool, int, int)
  {
    if PieceCount(board) - PieceCount(last) == 1 then (false, 0, 0)
    else
      var lastPosis, posis := EgoPositions(last), EgoPositions(board);
      if |lastPosis| == 0 || |posis| == 0 then (false, 0, 0)
      else
        match (LastNotIn(posis, lastPosis), LastNotIn(lastPosis, posis))
        case (Some(n), Some(o)) => (true, Index(o), Index(n))
        case _ => (false, 0, 0)
  }

  lemma {:induction false} PosOfInCells(a: Grid, c: Cell, k: int, n: nat)
    requires 0 <= k < 9 && n <= 9
    ensures PosOf(k) in CellsOf(a, c, n) <==> k < n && a[k] == c
  {
    if n > 0 {
      PosOfInCells(a, c, k, n - 1);
      assert PosOf(k) == PosOf(n - 1) <==> k == n - 1;
    }
  }

  lemma EgoMember(a: Grid, k: int)
    requires 0 <= k < 9
    ensures PosOf(k) in EgoPositions(a) <==> a[k] == O
  {
    PosOfInCells(a, O, k, 9);
  }

  /** `r` is the row-major-last cell below `k` that `b` gained over `a`,
      and `None` exactly when there is none. */
  predicate LastGainedBelow(a: Grid, b: Grid, k: nat, r: Option<Pos>)
  {
    && (r.None? <==> forall j | 0 <= j < k :: !Gained(a, b, j))
    && (r.Some? ==> OnBoard(r.value) && Index(r.value) < k && Gained(a, b, Index(r.value)))
    && (r.Some? ==> forall j | Index(r.value) < j < k :: !Gained(a, b, j))
  }

  lemma LastGainedSkip(a: Grid, b: Grid, k: nat, r: Option<Pos>)
    requires LastGainedBelow(a, b, k, r) && !Gained(a, b, k)
    ensures LastGainedBelow(a, b, k + 1, r)
  {
  }

  lemma LastGainedHere(a: Grid, b: Grid, k: nat)
    requires k < 9 && Gained(a, b, k)
    ensures LastGainedBelow(a, b, k + 1, Some(PosOf(k)))
  {
    IndexOfPos(k);
  }

  lemma LastNotInSnoc(ps: seq<Pos>, p: Pos, qs: seq<Pos>)
    ensures LastNotIn(ps + [p], qs) == if p in qs then LastNotIn(ps, qs) else Some(p)
  {
    assert (ps + [p])[..|ps + [p]| - 1] == ps;
  }

  lemma LastGainedStep(a: Grid, b: Grid, i: nat, qs: seq<Pos>)
    requires i < 9
    requires PosOf(i) in qs <==> a[i] == O
    requires LastGainedBelow(a, b, i, LastNotIn(CellsOf(b, O, i), qs))
    ensures LastGainedBelow(a, b, i + 1, LastNotIn(CellsOf(b, O, i + 1), qs))
  {
    var prev := CellsOf(b, O, i);
    if b[i] == O {
      assert CellsOf(b, O, i + 1) == prev + [PosOf(i)];
      LastNotInSnoc(prev, PosOf(i), qs);
      if a[i] == O {
        LastGainedSkip(a, b, i, LastNotIn(prev, qs));
      } else {
        LastGainedHere(a, b, i);
      }
    } else {
      assert CellsOf(b, O, i + 1) == prev;
      LastGainedSkip(a, b, i, LastNotIn(prev, qs));
    }
  }

  /** The overwriting loop over `find_ego(board)` leaves the row-major-last
      cell that holds an "O" now and did not before. */
  lemma {:induction false} LastGained(a: Grid, b: Grid, k: nat)
    requires k <= 9
    ensures LastGainedBelow(a, b, k, LastNotIn(CellsOf(b, O, k), EgoPositions(a)))
  {
    if k > 0 {
      LastGained(a, b, k - 1);
      EgoMember(a, k - 1);
      LastGainedStep(a, b, k - 1, EgoPositions(a));
    }
  }

  lemma NoEgoNoGain(a: Grid, b: Grid)
    ensures |EgoPositions(b)| == 0 ==> forall k :: !Gained(a, b, k)
    ensures |EgoPositions(a)| == 0 ==> forall k :: !Gained(b, a, k)
  {
    forall k | 0 <= k < 9
      ensures PosOf(k) in EgoPositions(a) <==> a[k] == O
      ensures PosOf(k) in EgoPositions(b) <==> b[k] == O
    {
      EgoMember(a, k);
      EgoMember(b, k);
    }
  }

  /** `anti_cheat` accuses only when the piece count did not rise by exactly
      one and some "O" both appeared and vanished; it then reports the
      row-major-last vanished cell as `old_pos` and the row-major-last
      appeared cell as `new_pos`, and otherwise returns (False, 0, 0). */
  lemma AntiCheatSpec(last: Grid, board: Grid)
    ensures var (cheat, oldPos, newPos) := AntiCheatVerdict(last, board);
      && (PieceCount(board) - PieceCount(last) == 1 ==> !cheat)
      && (cheat <==> PieceCount(board) - PieceCount(last) != 1
                     && (exists k :: Gained(last, board, k)) && (exists k :: Gained(board, last, k)))
      && (cheat ==> Gained(last, board, newPos) && forall k | newPos < k < 9 :: !Gained(last, board, k))
      && (cheat ==> Gained(board, last, oldPos) && forall k | oldPos < k < 9 :: !Gained(board, last, k))
      && (!cheat ==> oldPos == 0 && newPos == 0)
  {
    LastGained(last, board, 9);
    LastGained(board, last, 9);
    NoEgoNoGain(last, board);
  }

  // ---------------------------------------------------------------------
  // The engine's loops over the mutable board

  /** `get_available_moves`. */
  method GetAvailableMoves(board: array<Cell>) returns (moves: seq<Pos>)
    requires board.Length == 9
    ensures moves == AvailableMoves(board[..])
  {
    moves := [];
    for i := 0 to 3
      invariant moves == CellsOf(board[..], Empty, i * 3)
    {
      for j := 0 to 3
        invariant moves == CellsOf(board[..], Empty, i * 3 + j)
      {
        PosOfIndex(Pos(i, j));
        if board[i * 3 + j] == Empty {
          moves := moves + [Pos(i, j)];
        }
      }
    }
  }

  /** `find_ego`. */
  method FindEgo(board: array<Cell>) returns (positions: seq<Pos>)
    requires board.Length == 9
    ensures positions == EgoPositions(board[..])
  {
    positions := [];
    for i := 0 to 3
      invariant positions == CellsOf(board[..], O, i * 3)
    {
      for j := 0 to 3
        invariant positions == CellsOf(board[..], O, i * 3 + j)
      {
        PosOfIndex(Pos(i, j));
        if board[i * 3 + j] == O {
          positions := positions + [Pos(i, j)];
        }
      }
    }
  }

  /** `count_pieces`: the number of non-blank cells, which is nine minus the
      number of available moves. */
  method CountPieces(board: array<Cell>) returns (ci: int)
    requires board.Length == 9
    ensures ci == PieceCount(board[..])
    ensures ci == 9 - |AvailableMoves(board[..])|
  {
    ci := 0;
    for i := 0 to 3
      invariant ci == PiecesUpTo(board[..], i * 3)
    {
      for j := 0 to 3
        invariant ci == PiecesUpTo(board[..], i * 3 + j)
      {
        if board[i * 3 + j] != Empty {
          ci := ci + 1;
        }
      }
    }
    PieceCountComplement(board[..]);
  }

  /** `minimax`: scores the board by placing each candidate piece, recursing
      and resetting the cell to blank, so the board is as it was on entry. */
  method MinimaxSearch(board: array<Cell>, depth: int, isMaximizing: bool) returns (score: int)
    requires board.Length == 9
    modifies board
    ensures board[..] == old(board[..])
    ensures Minimax(old(board[..]), isMaximizing) == Fin(score)
    decreases |AvailableMoves(board[..])|
  {
    if CheckWinner(board[..], X) {
      return -1;
    } else if CheckWinner(board[..], O) {
      return 1;
    }
    var available := GetAvailableMoves(board);
    if available == [] {
      return 0;
    }
    ghost var b: Grid := board[..];
    AvailableMovesSpec(b);
    var piece := if isMaximizing then O else X;
    var bestScore := if isMaximizing then NegInf else PosInf;
    var moves := GetAvailableMoves(board);
    for i := 0 to |moves|
      invariant board[..] == b
      invariant MinimaxFold(b, moves[i..], isMaximizing, bestScore) == Minimax(b, isMaximizing)
      invariant i > 0 ==> bestScore.Fin?
      invariant bestScore != (if isMaximizing then PosInf else NegInf)
    {
      var m := moves[i];
      assert m in moves;
      board[Index(m)] := piece;
      assert board[..] == Place(b, m, piece);
      MovesAfterPlace(b, m, piece);
      var s := MinimaxSearch(board, depth + 1, !isMaximizing);
      board[Index(m)] := Empty;
      assert board[..] == b;
      assert moves[i..][1..] == moves[i + 1..];
      bestScore := if isMaximizing then Max(Fin(s), bestScore) else Min(Fin(s), bestScore);
    }
    score := bestScore.n;
  }

  /** `alpha_beta`: the same set-and-undo search, narrowing the window
      (alpha, beta) and leaving the loop once beta <= alpha. */
  method AlphaBetaSearch(board: array<Cell>, depth: int, alpha: Ext, beta: Ext, isMaximizing: bool) returns (score: int)
    requires board.Length == 9
    modifies board
    ensures board[..] == old(board[..])
    ensures AlphaBeta(old(board[..]), alpha, beta, isMaximizing) == Fin(score)
    decreases |AvailableMoves(board[..])|, 2
  {
    if CheckWinner(board[..], X) {
      return -1;
    } else if CheckWinner(board[..], O) {
      return 1;
    }
    var available := GetAvailableMoves(board);
    if available == [] {
      return 0;
    }
    ghost var b: Grid := board[..];
    AvailableMovesSpec(b);
    AlphaBetaRange(b, alpha, beta, isMaximizing);
    var moves := GetAvailableMoves(board);
    var best;
    if isMaximizing {
      best := AlphaBetaMaxLoop(board, depth, moves, alpha, beta);
    } else {
      best := AlphaBetaMinLoop(board, depth, moves, alpha, beta);
    }
    score := best.n;
  }

  /** The maximising loop of `alpha_beta`: raise alpha with each child's
      score and stop once beta <= alpha. */
  method AlphaBetaMaxLoop(board: array<Cell>, depth: int, moves: seq<Pos>, alpha: Ext, beta: Ext) returns (best: Ext)
    requires board.Length == 9 && forall m | m in moves :: IsBlank(board[..], m)
    modifies board
    ensures board[..] == old(board[..])
    ensures best == AlphaBetaFold(old(board[..]), moves, alpha, beta, true, NegInf)
    decreases |AvailableMoves(board[..])|, 1
  {
    ghost var b: Grid := board[..];
    var a := alpha;
    best := NegInf;
    var i := 0;
    while i < |moves|
      invariant 0 <= i <= |moves| && board[..] == b
      invariant AlphaBetaFold(b, moves[i..], a, beta, true, best) == AlphaBetaFold(b, moves, alpha, beta, true, NegInf)
    {
      var m := moves[i];
      assert m in moves;
      var s := AlphaBetaChild(board, depth, m, a, beta, true);
      assert moves[i..][0] == m && moves[i..][1..] == moves[i + 1..];
      best := Max(Fin(s), best);
      a := Max(a, Fin(s));
      if Le(beta, a) {
        return;
      }
      i := i + 1;
    }
  }

  /** The minimising loop of `alpha_beta`: lower beta with each child's
      score and stop once beta <= alpha. */
  method AlphaBetaMinLoop(board: array<Cell>, depth: int, moves: seq<Pos>, alpha: Ext, beta: Ext) returns (best: Ext)
    requires board.Length == 9 && forall m | m in moves :: IsBlank(board[..], m)
    modifies board
    ensures board[..] == old(board[..])
    ensures best == AlphaBetaFold(old(board[..]), moves, alpha, beta, false, PosInf)
    decreases |AvailableMoves(board[..])|, 1
  {
    ghost var b: Grid := board[..];
    var bt := beta;
    best := PosInf;
    var i := 0;
    while i < |moves|
      invariant 0 <= i <= |moves| && board[..] == b
      invariant AlphaBetaFold(b, moves[i..], alpha, bt, false, best) == AlphaBetaFold(b, moves, alpha, beta, false, PosInf)
    {
      var m := moves[i];
      assert m in moves;
      var s := AlphaBetaChild(board, depth, m, alpha, bt, false);
      assert moves[i..][0] == m && moves[i..][1..] == moves[i + 1..];
      best := Min(Fin(s), best);
      bt := Min(bt, Fin(s));
      if Le(bt, alpha) {
        return;
      }
      i := i + 1;
    }
  }

  /** One iteration's set-search-undo step of `alpha_beta`: put the mover's
      piece on `m`, search the child position, and blank `m` again. */
  method AlphaBetaChild(board: array<Cell>, depth: int, m: Pos, alpha: Ext, beta: Ext, isMaximizing: bool)
    returns (s: int)
    requires board.Length == 9 && IsBlank(board[..], m)
    modifies board
    ensures board[..] == old(board[..])
    ensures Fin(s) == AlphaBeta(Place(old(board[..]), m, if isMaximizing then O else X), alpha, beta, !isMaximizing)
    decreases |AvailableMoves(board[..])|, 0
  {
    ghost var b: Grid := board[..];
    var piece := if isMaximizing then O else X;
    board[Index(m)] := piece;
    assert board[..] == Place(b, m, piece);
    MovesAfterPlace(b, m, piece);
    s := AlphaBetaSearch(board, depth + 1, alpha, beta, !isMaximizing);
    board[Index(m)] := Empty;
    assert board[..] == b;
  }

  /** `best_move`: the centre if it is blank, else the first blank cell of
      maximal score; the board is left as it was. */
  method BestMove(board: array<Cell>, searchMethod: string) returns (move: Option<Pos>)
    requires board.Length == 9
    modifies board
    ensures board[..] == old(board[..])
    ensures move == ChooseMove(old(board[..]), searchMethod)
  {
    var bestScore := NegInf;
    move := None;
    if board[4] == Empty {
      return Some(Pos(1, 1));
    }
    ghost var b: Grid := board[..];
    var moves := GetAvailableMoves(board);
    AvailableMovesSpec(b);
    for i := 0 to |moves|
      invariant board[..] == b
      invariant forall m | m in moves[i..] :: IsBlank(b, m)
      invariant ChooseFold(b, moves[i..], searchMethod, bestScore, move) == ChooseMove(b, searchMethod)
    {
      var m := moves[i];
      assert m in moves;
      board[Index(m)] := O;
      assert board[..] == Place(b, m, O);
      var score: int;
      if searchMethod == "minimax" {
        score := MinimaxSearch(board, 0, false);
      } else if searchMethod == "alpha-beta" {
        score := AlphaBetaSearch(board, 0, NegInf, PosInf, false);
      } else {
        score := 0;
      }
      board[Index(m)] := Empty;
      assert board[..] == b;
      assert moves[i..][1..] == moves[i + 1..];
      if !Le(Fin(score), bestScore) {
        bestScore := Fin(score);
        move := Some(m);
      }
    }
  }

  /** `anti_cheat(last_board, board)`. */
  method AntiCheat(lastBoard: array<Cell>, board: array<Cell>) returns (cheat: bool, oldPos: int, newPos: int)
    requires lastBoard.Length == 9 && board.Length == 9
    ensures (cheat, oldPos, newPos) == AntiCheatVerdict(lastBoard[..], board[..])
  {
    var lastPieces := CountPieces(lastBoard);
    var pieces := CountPieces(board);
    if pieces - lastPieces == 1 {
      return false, 0, 0;
    }
    var lastPosis := FindEgo(lastBoard);
    var posis := FindEgo(board);
    if |lastPosis| == 0 || |posis| == 0 {
      return false, 0, 0;
    }
    // `new_pos` and `old_pos` stay unbound until some cell assigns them
    var newIdx: Option<int> := None;
    for i := 0 to |posis|
      invariant newIdx == IndexOf(LastNotIn(posis[..i], lastPosis))
    {
      assert posis[..i + 1][..i] == posis[..i];
      if posis[i] !in lastPosis {
        newIdx := Some(Index(posis[i]));
      }
    }
    assert posis[..|posis|] == posis;
    var oldIdx: Option<int> := None;
    for i := 0 to |lastPosis|
      invariant oldIdx == IndexOf(LastNotIn(lastPosis[..i], posis))
    {
      assert lastPosis[..i + 1][..i] == lastPosis[..i];
      if lastPosis[i] !in posis {
        oldIdx := Some(Index(lastPosis[i]));
      }
    }
    assert lastPosis[..|lastPosis|] == lastPosis;
    // `return True, old_pos, new_pos` sits in a `try`: reading an unbound
    // name raises and the `except` returns (False, 0, 0)
    if oldIdx.Some? && newIdx.Some? {
      return true, oldIdx.value, newIdx.value;
    }
    return false, 0, 0;
  }
}
