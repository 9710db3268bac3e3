/** The scoring used by MyPolicy to rank the root's children (our_policy.py):
    the centre preference of a column, the window heuristic of a board, and
    the weighted child score. numpy floats are modelled as exact reals. */
module Heuristic {
  import opened Board

  function Abs(x: int): nat {
    if x < 0 then -x else x
  }

  // ---------------------------------------------------------------------
  // _center_preference
  // ---------------------------------------------------------------------

  /** 1 / (1 + |a - 3|). */
  function CenterPreference(a: int): (r: real)
    ensures 0.0 < r <= 1.0
  {
    1.0 / (1 + Abs(a - 3)) as real
  }

  /** The preference is 1 exactly at the centre column. */
  lemma CenterPreferenceTop(a: int)
    ensures CenterPreference(a) == 1.0 <==> a == 3
  {
    var d := (1 + Abs(a - 3)) as real;
    assert CenterPreference(a) * d == 1.0;
  }

  /** Columns equally far from the centre are equally preferred. */
  lemma CenterPreferenceSymmetric(d: int)
    ensures CenterPreference(3 + d) == CenterPreference(3 - d)
  {
    assert Abs(3 + d - 3) == Abs(3 - d - 3);
  }

  lemma ReciprocalDecreasing(x: real, y: real)
    requires 0.0 < x < y
    ensures 1.0 / y < 1.0 / x
  {
    var u, v := 1.0 / x, 1.0 / y;
    assert u * x == 1.0 && v * y == 1.0;
    assert v * x < v * y;
  }

  /** A column nearer the centre is strictly preferred. */
  lemma CenterPreferenceDecreasing(a: int, a': int)
    requires Abs(a - 3) < Abs(a' - 3)
    ensures CenterPreference(a') < CenterPreference(a)
  {
    ReciprocalDecreasing((1 + Abs(a - 3)) as real, (1 + Abs(a' - 3)) as real);
  }

  // ---------------------------------------------------------------------
  // eval_window
  // ---------------------------------------------------------------------

  /** Counts of three different values never exceed the length. */
  lemma {:induction false} CountsOfDistinct(s: seq<int>, x: int, y: int, z: int)
    requires x != y && y != z && x != z
    ensures CountIn(s, x) + CountIn(s, y) + CountIn(s, z) <= |s|
  {
    if |s| > 0 {
      CountsOfDistinct(s[1..], x, y, z);
    }
  }

  /** A count equal to the length means every element is v. */
  lemma {:induction false} CountAll(s: seq<int>, v: int)
    requires CountIn(s, v) == |s|
    ensures forall i :: 0 <= i < |s| ==> s[i] == v
  {
    if |s| > 0 {
      CountAll(s[1..], v);
      assert forall i :: 1 <= i < |s| ==> s[i] == s[1..][i - 1];
    }
  }

  /** A sequence holding only v counts v at every position. */
  lemma {:induction false} CountEvery(s: seq<int>, v: int)
    requires forall i :: 0 <= i < |s| ==> s[i] == v
    ensures CountIn(s, v) == |s|
  {
    if |s| > 0 {
      assert forall i :: 1 <= i < |s| ==> s[i] == s[1..][i - 1];
      CountEvery(s[1..], v);
    }
  }

  /** The own-piece term of eval_window. */
  function OwnTerm(pc: nat, ec: nat): real {
    if pc == 4 then 100.0 else if pc == 3 && ec == 1 then 5.0 else if pc == 2 && ec == 2 then 2.0 else 0.0
  }

  /** The opponent term of eval_window, already negated. */
  function OppTerm(oc: nat, ec: nat): real {
    if oc == 4 then -100.0 else if oc == 3 && ec == 1 then -7.0 else if oc == 2 && ec == 2 then -1.0 else 0.0
  }

  /** For a player, own, opponent and empty counts share the window's four cells. */
  lemma WindowCounts(w: seq<int>, p: int)
    ensures p != 0 ==> CountIn(w, p) + CountIn(w, -p) + CountIn(w, 0) <= |w|
  {
    if p != 0 {
      CountsOfDistinct(w, p, -p, 0);
    }
  }

  /** eval_window(w) for player p: +100/+5/+2 for four own pieces, three
      and an empty cell, two and two empty cells; -100/-7/-1 for the
      opponent's same patterns; the two terms are added. */
  function EvalWindow(w: seq<int>, p: int): (r: real)
    requires |w| == 4
    ensures -100.0 <= r <= 100.0
    ensures p != 0 ==> (r == 100.0 <==> CountIn(w, p) == 4)
    ensures p != 0 ==> (r == -100.0 <==> CountIn(w, -p) == 4)
    ensures p != 0 ==> r in {100.0, 5.0, 2.0, 0.0, -1.0, -7.0, -100.0}
    ensures p != 0 ==> (r == 5.0 <==> CountIn(w, p) == 3 && CountIn(w, 0) == 1)
    ensures p != 0 ==> (r == 2.0 <==> CountIn(w, p) == 2 && CountIn(w, 0) == 2)
    ensures p != 0 ==> (r == -7.0 <==> CountIn(w, -p) == 3 && CountIn(w, 0) == 1)
    ensures p != 0 ==> (r == -1.0 <==> CountIn(w, -p) == 2 && CountIn(w, 0) == 2)
  {
    WindowCounts(w, p);
    var pc, oc, ec := CountIn(w, p), CountIn(w, -p), CountIn(w, 0);
    OwnTerm(pc, ec) + OppTerm(oc, ec)
  }

  /** A window holding pieces of both players scores nothing, and a window
      with a positive (negative) score holds no opponent (own) piece. */
  lemma EvalWindowOneSided(w: seq<int>, p: int)
    requires |w| == 4 && p != 0
    ensures CountIn(w, p) > 0 && CountIn(w, -p) > 0 ==> EvalWindow(w, p) == 0.0
    ensures EvalWindow(w, p) > 0.0 ==> CountIn(w, -p) == 0
    ensures EvalWindow(w, p) < 0.0 ==> CountIn(w, p) == 0
  {
    CountsOfDistinct(w, p, -p, 0);
  }

  // ---------------------------------------------------------------------
  // The windows of _heuristic_board_score
  // ---------------------------------------------------------------------

  /** Four cells starting at (r, c) with step (dr, dc). */
  datatype Window = Window(r: int, c: int, dr: int, dc: int)

  predicate WindowInBounds(w: Window) {
    && InBounds(w.r, w.c) && InBounds(w.r + w.dr, w.c + w.dc)
    && InBounds(w.r + 2 * w.dr, w.c + 2 * w.dc) && InBounds(w.r + 3 * w.dr, w.c + 3 * w.dc)
  }

  /** The values of the window's cells, in the order numpy slices them. */
  function Cells(b: Board, w: Window): (s: seq<int>)
    requires WindowInBounds(w)
    ensures |s| == 4
  {
    [b[w.r][w.c], b[w.r + w.dr][w.c + w.dc], b[w.r + 2 * w.dr][w.c + 2 * w.dc], b[w.r + 3 * w.dr][w.c + 3 * w.dc]]
  }

  /** board[r, c:c+4] for r in 0..5, c in 0..3. */
  function HorizontalWindows(): seq<Window> {
    seq(24, k => Window(k / 4, k % 4, 0, 1))
  }

  /** board[r:r+4, c] for c in 0..6, r in 0..2. */
  function VerticalWindows(): seq<Window> {
    seq(21, k => Window(k % 3, k / 3, 1, 0))
  }

  /** board[r+i, c+i] for r in 0..2, c in 0..3. */
  function DiagonalWindows(): seq<Window> {
    seq(12, k => Window(k / 4, k % 4, 1, 1))
  }

  /** board[r-i, c+i] for r in 3..5, c in 0..3. */
  function AntiDiagonalWindows(): seq<Window> {
    seq(12, k => Window(3 + k / 4, k % 4, -1, 1))
  }

  /** Every window the heuristic scores, in the order it scores them. */
  function AllWindows(): (ws: seq<Window>)
    ensures |ws| == 69
    ensures forall k :: 0 <= k < |ws| ==> WindowInBounds(ws[k])
    ensures forall k :: 0 <= k < 24 ==> ws[k].dr == 0 && ws[k].dc == 1
    ensures forall k :: 24 <= k < 45 ==> ws[k].dr == 1 && ws[k].dc == 0
    ensures forall k :: 45 <= k < 57 ==> ws[k].dr == 1 && ws[k].dc == 1
    ensures forall k :: 57 <= k < 69 ==> ws[k].dr == -1 && ws[k].dc == 1
  {
    HorizontalWindows() + VerticalWindows() + DiagonalWindows() + AntiDiagonalWindows()
  }

  /** The window index of a line of four, by its starting cell and direction. */
  function WindowIndex(r: int, c: int, d: Dir): int {
    match d
    case East => r * 4 + c
    case South => 24 + c * 3 + r
    case SouthEast => 45 + r * 4 + c
    case SouthWest => 57 + r * 4 + c - 3
  }

  /** Every line of four on the board is one of the windows. */
  lemma LineIsWindow(b: Board, p: int, r: int, c: int, d: Dir)
    requires Four(b, p, r, c, d)
    ensures 0 <= WindowIndex(r, c, d) < 69
    ensures CountIn(Cells(b, AllWindows()[WindowIndex(r, c, d)]), p) == 4
  {
    var ws := AllWindows();
    var k := WindowIndex(r, c, d);
    LineWindowCells(b, p, r, c, d);
    CountEvery(Cells(b, ws[k]), p);
  }

  /** The window of a line of four holds exactly that line's cells. */
  lemma LineWindowCells(b: Board, p: int, r: int, c: int, d: Dir)
    requires Four(b, p, r, c, d)
    ensures 0 <= WindowIndex(r, c, d) < 69
    ensures Cells(b, AllWindows()[WindowIndex(r, c, d)]) == [p, p, p, p]
  {
    var ws := AllWindows();
    var k := WindowIndex(r, c, d);
    match d
    case East =>
      assert ws[k] == HorizontalWindows()[k];
      assert ws[k] == Window(r, c, 0, 1);
    case South =>
      assert 0 <= r < 3 && (c * 3 + r) % 3 == r && (c * 3 + r) / 3 == c;
      assert ws[k] == VerticalWindows()[k - 24];
      assert ws[k] == Window(r, c, 1, 0);
    case SouthEast =>
      assert ws[k] == DiagonalWindows()[k - 45];
      assert ws[k] == Window(r, c, 1, 1);
    case SouthWest =>
      assert ws[k] == AntiDiagonalWindows()[k - 57];
      assert ws[k] == Window(r + 3, c - 3, -1, 1);
  }

  /** A window full of p's pieces is a line of four. */
  lemma FullWindowIsLine(b: Board, p: int, k: int)
    requires 0 <= k < 69 && CountIn(Cells(b, AllWindows()[k]), p) == 4
    ensures HasFour(b, p)
  {
    var w := AllWindows()[k];
    var s := Cells(b, w);
    CountAll(s, p);
    assert s[0] == p && s[1] == p && s[2] == p && s[3] == p;
    if k < 24 {
      assert w == HorizontalWindows()[k];
      assert Four(b, p, w.r, w.c, East);
    } else if k < 45 {
      assert w == VerticalWindows()[k - 24];
      assert Four(b, p, w.r, w.c, South);
    } else if k < 57 {
      assert w == DiagonalWindows()[k - 45];
      assert Four(b, p, w.r, w.c, SouthEast);
    } else {
      assert w == AntiDiagonalWindows()[k - 57];
      assert Four(b, p, w.r - 3, w.c + 3, SouthWest);
    }
  }

  /** p has four in a row exactly when one of the windows scores +100 for p. */
  lemma FourIffWindowScores100(b: Board, p: int)
    requires p != 0
    ensures HasFour(b, p) <==>
            exists k :: 0 <= k < 69 && EvalWindow(Cells(b, AllWindows()[k]), p) == 100.0
  {
    if HasFour(b, p) {
      var r, c, d :| Four(b, p, r, c, d);
      LineIsWindow(b, p, r, c, d);
      var k := WindowIndex(r, c, d);
      assert EvalWindow(Cells(b, AllWindows()[k]), p) == 100.0;
    }
    if exists k :: 0 <= k < 69 && EvalWindow(Cells(b, AllWindows()[k]), p) == 100.0 {
      var k :| 0 <= k < 69 && EvalWindow(Cells(b, AllWindows()[k]), p) == 100.0;
      FullWindowIsLine(b, p, k);
    }
  }

  // ---------------------------------------------------------------------
  // _heuristic_board_score
  // ---------------------------------------------------------------------

  /** The sum of eval_window over a list of windows. */
  function SumWindows(b: Board, p: int, ws: seq<Window>): (r: real)
    requires forall k :: 0 <= k < |ws| ==> WindowInBounds(ws[k])
    ensures -100.0 * |ws| as real <= r <= 100.0 * |ws| as real
  {
    if |ws| == 0 then 0.0
    else EvalWindow(Cells(b, ws[0]), p) + SumWindows(b, p, ws[1..])
  }

  /** The cells of column c, top to bottom. */
  function Column(b: Board, c: int): (s: seq<int>)
    requires 0 <= c < Cols
    ensures |s| == Rows
  {
    seq(Rows, r requires 0 <= r < Rows => b[r][c])
  }

  /** 0.6 per own piece in the centre column, -0.6 per opponent piece
      there, plus eval_window over the 69 windows. */
  function HeuristicBoardScore(b: Board, p: int): (r: real)
    ensures -6903.6 <= r <= 6903.6
  {
    var center := Column(b, Cols / 2);
    0.6 * CountIn(center, p) as real - 0.6 * CountIn(center, -p) as real
      + SumWindows(b, p, AllWindows())
  }

  /** Windows without pieces add nothing. */
  lemma {:induction false} SumWindowsEmpty(b: Board, p: int, ws: seq<Window>)
    requires p != 0
    requires forall k :: 0 <= k < |ws| ==> WindowInBounds(ws[k])
    requires forall r, c :: InBounds(r, c) ==> b[r][c] == 0
    ensures SumWindows(b, p, ws) == 0.0
  {
    if |ws| > 0 {
      var s := Cells(b, ws[0]);
      assert s == [0, 0, 0, 0];
      CountInAbsent(s, p);
      CountInAbsent(s, -p);
      SumWindowsEmpty(b, p, ws[1..]);
    }
  }

  /** The empty board is worth nothing to either player. */
  lemma EmptyBoardScoresZero(p: int)
    requires p != 0
    ensures HeuristicBoardScore(Empty(), p) == 0.0
  {
    EmptyCentre(p);
    EmptyWindows(p);
  }

  /** The centre column of the empty board holds no piece of either colour. */
  lemma EmptyCentre(p: int)
    requires p != 0
    ensures CountIn(Column(Empty(), Cols / 2), p) == 0 && CountIn(Column(Empty(), Cols / 2), -p) == 0
  {
    var center := Column(Empty(), Cols / 2);
    CountInAbsent(center, p);
    CountInAbsent(center, -p);
  }

  /** The 69 windows of the empty board add nothing. */
  lemma EmptyWindows(p: int)
    requires p != 0
    ensures SumWindows(Empty(), p, AllWindows()) == 0.0
  {
    var b := Empty();
    assert forall r, c :: InBounds(r, c) ==> b[r][c] == 0;
    SumWindowsEmpty(b, p, AllWindows());
  }

  // ---------------------------------------------------------------------
  // _evaluate_child
  // ---------------------------------------------------------------------

  /** The -1e9 a best score starts from in act. */
  const Floor: real := -1000000000.0

  /** w_N * log(1 + N) + w_Q * Q + w_heur * heur / 10 + 0.1 * centre
      preference, with weights 1.0, 1.5 and 2.0; log(1 + N) is the oracle
      log1p, and the heuristic is taken for the main player. */
  function EvaluateChild(action: int, n: nat, q: real, board: Board, main: int, log1p: nat -> real): (r: real)
    ensures log1p(n) >= 0.0 && -1.0 <= q <= 1.0 ==> r > Floor
  {
    1.0 * log1p(n) + 1.5 * q + 2.0 * (HeuristicBoardScore(board, main) / 10.0)
      + 0.1 * CenterPreference(action)
  }

  /** With the same visits, board and column, a higher Q scores higher. */
  lemma EvaluateChildFollowsQ(action: int, n: nat, q: real, q': real, board: Board, main: int, log1p: nat -> real)
    requires q < q'
    ensures EvaluateChild(action, n, q, board, main, log1p) < EvaluateChild(action, n, q', board, main, log1p)
  {
  }

  /** With the same statistics and board, a more central column scores
      higher. */
  lemma EvaluateChildPrefersCentre(a: int, a': int, n: nat, q: real, board: Board, main: int, log1p: nat -> real)
    requires Abs(a - 3) < Abs(a' - 3)
    ensures EvaluateChild(a', n, q, board, main, log1p) < EvaluateChild(a, n, q, board, main, log1p)
  {
    CenterPreferenceDecreasing(a, a');
  }
}
