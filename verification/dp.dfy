/** DeterministicPolicy.py: the rule-based player and its copy of the board
    logic (legal columns, gravity drop, four-direction run count). */
module DeterministicPolicy {
  import opened Board
  import opened Wrappers

  // ---------------------------------------------------------------------
  // legal_actions
  // ---------------------------------------------------------------------

  /** The columns whose top cell is empty, in ascending order. */
  function LegalActions(b: Board): (cols: seq<int>)
    ensures Ascending(cols)
    ensures forall c {:trigger c in cols} :: c in cols <==> 0 <= c < Cols && b[0][c] == 0
  {
    OpenBelow(b, |b[0]|)
  }

  /** The legal columns among 0 .. n-1; the width is passed as `|b[0]|` so
      that the scan unfolds only as far as a proof asks it to. */
  function OpenBelow(b: Board, n: int): (cols: seq<int>)
    requires 0 <= n <= Cols
    ensures Ascending(cols)
    ensures forall c {:trigger c in cols} :: c in cols <==> 0 <= c < n && b[0][c] == 0
  {
    if n == 0 then []
    else
      var rest := OpenBelow(b, n - 1);
      assert forall i :: 0 <= i < |rest| ==> rest[i] in rest;
      assert forall c :: c in rest ==> c < n - 1;
      rest + (if b[0][n - 1] == 0 then [n - 1] else [])
  }

  // ---------------------------------------------------------------------
  // drop_piece
  // ---------------------------------------------------------------------

  /** Where a piece landed and the board it landed on. */
  datatype Drop = Drop(board: Board, row: int)

  /** Put p in the lowest empty cell of col; None when the column has no
      empty cell, and then there is no new board at all. */
  function DropPiece(b: Board, col: int, p: int): (d: Option<Drop>)
    requires 0 <= col < Cols
    ensures d.None? <==> !HasEmpty(b, col)
    ensures d.Some? ==> IsLowestEmpty(b, col, d.value.row)
    ensures d.Some? ==> d.value.board == Set(b, d.value.row, col, p)
  {
    DropFrom(b, col, p, Rows - 1)
  }

  /** The scan `for r in range(5, -1, -1)`, currently at row r. */
  function DropFrom(b: Board, col: int, p: int, r: int): (d: Option<Drop>)
    requires 0 <= col < Cols && -1 <= r < Rows
    requires forall r' :: r < r' < Rows ==> b[r'][col] != 0
    ensures d.None? <==> forall r' :: 0 <= r' <= r ==> b[r'][col] != 0
    ensures d.Some? ==> IsLowestEmpty(b, col, d.value.row)
    ensures d.Some? ==> d.value.board == Set(b, d.value.row, col, p)
    decreases r + 1
  {
    if r < 0 then None
    else if b[r][col] == 0 then Some(Drop(Set(b, r, col, p), r))
    else DropFrom(b, col, p, r - 1)
  }

  // ---------------------------------------------------------------------
  // check_win
  // ---------------------------------------------------------------------

  /** A step of one of the four directions or its reverse. */
  predicate Unit(dr: int, dc: int) {
    -1 <= dr <= 1 && -1 <= dc <= 1 && (dr != 0 || dc != 0)
  }

  /** How many more steps of size dx stay inside [0, bound). */
  function Remaining(x: int, dx: int, bound: int): int {
    if dx > 0 then bound - x else if dx < 0 then x + 1 else 0
  }

  /** Length of the run of p-cells starting at (r, c) and stepping by
      (dr, dc) until the edge or another value: one `while` loop of check_win. */
  function RunLength(b: Board, r: int, c: int, dr: int, dc: int, p: int): nat
    requires Unit(dr, dc)
    decreases Remaining(r, dr, Rows) + Remaining(c, dc, Cols)
  {
    if Is(b, r, c, p) then 1 + RunLength(b, r + dr, c + dc, dr, dc, p) else 0
  }

  /** The cell itself plus the runs on both sides of it along (dr, dc). */
  function LineCount(b: Board, row: int, col: int, dr: int, dc: int, p: int): nat
    requires Unit(dr, dc)
  {
    1 + RunLength(b, row + dr, col + dc, dr, dc, p)
      + RunLength(b, row - dr, col - dc, -dr, -dc, p)
  }

  /** check_win: some direction of [(0,1), (1,0), (1,1), (1,-1)] gives a
      count of at least 4. The cell (row, col) itself always counts as 1. */
  predicate CheckWin(b: Board, row: int, col: int, p: int) {
    || LineCount(b, row, col, 0, 1, p) >= 4
    || LineCount(b, row, col, 1, 0, p) >= 4
    || LineCount(b, row, col, 1, 1, p) >= 4
    || LineCount(b, row, col, 1, -1, p) >= 4
  }

  lemma RunAtLeast(b: Board, r: int, c: int, dr: int, dc: int, p: int)
    requires Unit(dr, dc)
    ensures RunLength(b, r, c, dr, dc, p) >= 1 <==> Is(b, r, c, p)
    ensures RunLength(b, r, c, dr, dc, p) >= 2
        <==> Is(b, r, c, p) && Is(b, r + dr, c + dc, p)
    ensures RunLength(b, r, c, dr, dc, p) >= 3
        <==> Is(b, r, c, p) && Is(b, r + dr, c + dc, p) && Is(b, r + 2 * dr, c + 2 * dc, p)
  {
    var _ := RunLength(b, r + dr, c + dc, dr, dc, p);
    var _ := RunLength(b, r + 2 * dr, c + 2 * dc, dr, dc, p);
  }

  /** A count of at least 4 along d through a p-cell yields a line of four
      along d through that cell. */
  lemma LineCountToFour(b: Board, row: int, col: int, d: Dir, p: int)
    requires Is(b, row, col, p) && Unit(d.DR(), d.DC())
    requires LineCount(b, row, col, d.DR(), d.DC(), p) >= 4
    ensures exists r, c :: Four(b, p, r, c, d) && Covers(r, c, d, row, col)
  {
    var dr, dc := d.DR(), d.DC();
    RunAtLeast(b, row + dr, col + dc, dr, dc, p);
    RunAtLeast(b, row - dr, col - dc, -dr, -dc, p);
    var g := RunLength(b, row - dr, col - dc, -dr, -dc, p);
    if g >= 3 {
      assert Four(b, p, row - 3 * dr, col - 3 * dc, d) && Covers(row - 3 * dr, col - 3 * dc, d, row, col);
    } else if g == 2 {
      assert Four(b, p, row - 2 * dr, col - 2 * dc, d) && Covers(row - 2 * dr, col - 2 * dc, d, row, col);
    } else if g == 1 {
      assert Four(b, p, row - dr, col - dc, d) && Covers(row - dr, col - dc, d, row, col);
    } else {
      assert Four(b, p, row, col, d) && Covers(row, col, d, row, col);
    }
  }

  /** A line of four along d through a cell makes the count along d through
      that cell at least 4. */
  lemma FourToLineCount(b: Board, row: int, col: int, d: Dir, p: int, r: int, c: int)
    requires Unit(d.DR(), d.DC())
    requires Four(b, p, r, c, d) && Covers(r, c, d, row, col)
    ensures LineCount(b, row, col, d.DR(), d.DC(), p) >= 4
  {
    var dr, dc := d.DR(), d.DC();
    RunAtLeast(b, row + dr, col + dc, dr, dc, p);
    RunAtLeast(b, row - dr, col - dc, -dr, -dc, p);
  }

  lemma DirIsUnit(d: Dir)
    ensures Unit(d.DR(), d.DC())
  {
  }

  /** The direction list of check_win is exactly the four line directions. */
  lemma CheckWinByDir(b: Board, row: int, col: int, p: int)
    ensures CheckWin(b, row, col, p)
        <==> exists d: Dir :: LineCount(b, row, col, d.DR(), d.DC(), p) >= 4
  {
    if CheckWin(b, row, col, p) {
      if LineCount(b, row, col, 0, 1, p) >= 4 {
        assert LineCount(b, row, col, East.DR(), East.DC(), p) >= 4;
      } else if LineCount(b, row, col, 1, 0, p) >= 4 {
        assert LineCount(b, row, col, South.DR(), South.DC(), p) >= 4;
      } else if LineCount(b, row, col, 1, 1, p) >= 4 {
        assert LineCount(b, row, col, SouthEast.DR(), SouthEast.DC(), p) >= 4;
      } else {
        assert LineCount(b, row, col, SouthWest.DR(), SouthWest.DC(), p) >= 4;
      }
    }
  }

  /** check_win at a p-cell holds exactly when some line of four p-cells
      (horizontal, vertical or either diagonal) passes through that cell,
      whichever of its four cells it is. */
  lemma CheckWinIffFourThrough(b: Board, row: int, col: int, p: int)
    requires Is(b, row, col, p)
    ensures CheckWin(b, row, col, p)
        <==> exists r, c, d :: Four(b, p, r, c, d) && Covers(r, c, d, row, col)
  {
    CheckWinByDir(b, row, col, p);
    if CheckWin(b, row, col, p) {
      var d: Dir :| LineCount(b, row, col, d.DR(), d.DC(), p) >= 4;
      DirIsUnit(d);
      LineCountToFour(b, row, col, d, p);
    }
    if exists r, c, d :: Four(b, p, r, c, d) && Covers(r, c, d, row, col) {
      var r, c, d :| Four(b, p, r, c, d) && Covers(r, c, d, row, col);
      DirIsUnit(d);
      FourToLineCount(b, row, col, d, p, r, c);
    }
  }

  /** A line of four that avoids the overwritten cell was already there. */
  lemma FourSurvivesElsewhere(b: Board, row: int, col: int, x: int, p: int, r: int, c: int, d: Dir)
    requires InBounds(row, col)
    requires Four(Set(b, row, col, x), p, r, c, d) && !Covers(r, c, d, row, col)
    ensures Four(b, p, r, c, d)
  {
  }

  /** After a piece is dropped at (row, col) on a board where p had no line
      of four, check_win at that cell agrees with "p now has a line of four
      anywhere": the local check is complete for the one changed cell. */
  lemma CheckWinAfterMove(b: Board, row: int, col: int, p: int)
    requires InBounds(row, col) && !HasFour(b, p)
    ensures CheckWin(Set(b, row, col, p), row, col, p) <==> HasFour(Set(b, row, col, p), p)
  {
    var b' := Set(b, row, col, p);
    CheckWinIffFourThrough(b', row, col, p);
    if HasFour(b', p) {
      var r, c, d :| Four(b', p, r, c, d);
      if !Covers(r, c, d, row, col) {
        FourSurvivesElsewhere(b, row, col, p, p, r, c, d);
      }
    }
  }

  /** A move by p creates no line of four for any other value q. */
  lemma NoFourForOther(b: Board, row: int, col: int, p: int, q: int)
    requires InBounds(row, col) && q != p && !HasFour(b, q)
    ensures !HasFour(Set(b, row, col, p), q)
  {
    if HasFour(Set(b, row, col, p), q) {
      var r, c, d :| Four(Set(b, row, col, p), q, r, c, d);
      FourSurvivesElsewhere(b, row, col, p, q, r, c, d);
    }
  }

  // ---------------------------------------------------------------------
  // can_win
  // ---------------------------------------------------------------------

  /** Dropping p into col wins on the spot; the query works on a copy, so the
      board it is asked about is never changed. */
  predicate WinsAt(b: Board, col: int, p: int)
    requires 0 <= col < Cols
  {
    var d := DropPiece(b, col, p);
    d.Some? && CheckWin(d.value.board, d.value.row, col, p)
  }

  /** On a board where p has no line of four yet, a drop wins exactly when
      p has a line of four on the resulting board. */
  lemma WinsAtMeansFour(b: Board, col: int, p: int)
    requires 0 <= col < Cols && HasEmpty(b, col) && !HasFour(b, p)
    ensures WinsAt(b, col, p) <==> HasFour(DropPiece(b, col, p).value.board, p)
  {
    var d := DropPiece(b, col, p).value;
    CheckWinAfterMove(b, d.row, col, p);
  }

  /** can_win: the first legal column (ascending) whose drop wins for p. */
  function CanWin(b: Board, p: int): (w: Option<int>)
    ensures w.Some? ==> 0 <= w.value < Cols && b[0][w.value] == 0 && WinsAt(b, w.value, p)
    ensures w.Some? ==> forall c :: 0 <= c < w.value && b[0][c] == 0 ==> !WinsAt(b, c, p)
    ensures w.None? ==> forall c :: 0 <= c < Cols && b[0][c] == 0 ==> !WinsAt(b, c, p)
  {
    FirstWinning(b, p, LegalActions(b))
  }

  function FirstWinning(b: Board, p: int, cols: seq<int>): (w: Option<int>)
    requires forall c :: c in cols ==> 0 <= c < Cols
    requires Ascending(cols)
    ensures w.Some? ==> w.value in cols && WinsAt(b, w.value, p)
    ensures w.Some? ==> forall c :: c in cols && c < w.value ==> !WinsAt(b, c, p)
    ensures w.None? ==> forall c :: c in cols ==> !WinsAt(b, c, p)
  {
    if |cols| == 0 then None
    else
      assert cols[0] in cols;
      if WinsAt(b, cols[0], p) then Some(cols[0])
      else
        assert forall c :: c in cols[1..] ==> c in cols;
        FirstWinning(b, p, cols[1..])
  }

  // ---------------------------------------------------------------------
  // infer_player
  // ---------------------------------------------------------------------

  /** infer_player: red (1) moves when both colours have as many pieces,
      otherwise yellow (-1). */
  function InferPlayer(b: Board): (p: int)
    ensures IsPlayer(p)
  {
    if CountBoard(b, 1) == CountBoard(b, -1) then 1 else -1
  }

  // ---------------------------------------------------------------------
  // act
  // ---------------------------------------------------------------------

  /** `legal[0]` on an empty list raises IndexError. */
  datatype ActError = NoLegalColumn

  /** preferred_order: centre first, then outwards, left before right. */
  const Preference: seq<int> := [3, 2, 4, 1, 5, 0, 6]

  /** The first column of order that is legal. */
  function FirstPreferred(b: Board, order: seq<int>): (r: Option<int>)
    requires forall c :: c in order ==> 0 <= c < Cols
    ensures r.Some? ==> r.value in order && b[0][r.value] == 0
    ensures r.None? ==> forall c :: c in order ==> b[0][c] != 0
  {
    if |order| == 0 then None
    else
      assert order[0] in order;
      if b[0][order[0]] == 0 then Some(order[0])
      else
        assert forall c :: c in order[1..] ==> c in order;
        var r := FirstPreferred(b, order[1..]);
        assert r.None? ==> forall c :: c in order ==> c == order[0] || c in order[1..];
        r
  }

  /** The first i columns of order are real columns, all full. */
  predicate FullBefore(b: Board, order: seq<int>, i: int)
    requires 0 <= i <= |order|
  {
    forall j :: 0 <= j < i ==> 0 <= order[j] < Cols && b[0][order[j]] != 0
  }

  /** Every column listed before the one chosen is full. */
  lemma {:induction false} FirstPreferredIsFirst(b: Board, order: seq<int>)
    requires forall i :: 0 <= i < |order| ==> 0 <= order[i] < Cols
    requires FirstPreferred(b, order).Some?
    ensures exists i :: 0 <= i < |order| && order[i] == FirstPreferred(b, order).value
                     && FullBefore(b, order, i)
  {
    assert order[0] in order;
    if b[0][order[0]] != 0 {
      assert forall c :: c in order[1..] ==> c in order;
      FirstPreferredIsFirst(b, order[1..]);
      var i :| 0 <= i < |order[1..]| && order[1..][i] == FirstPreferred(b, order[1..]).value
               && FullBefore(b, order[1..], i);
      assert order[i + 1] == FirstPreferred(b, order).value;
      assert FullBefore(b, order, i + 1);
    } else {
      assert order[0] == FirstPreferred(b, order).value;
      assert FullBefore(b, order, 0);
    }
  }

  /** Every column appears in the preference order. */
  lemma PreferenceIsPermutation()
    ensures |Preference| == Cols
    ensures forall c :: c in Preference <==> 0 <= c < Cols
    ensures forall i :: 0 <= i < |Preference| ==> 0 <= Preference[i] < Cols
  {
  }

  /** Some column still has an empty top cell. */
  predicate AnyOpen(b: Board) {
    exists c :: 0 <= c < Cols && b[0][c] == 0
  }

  /** act: win now if possible, else block the opponent's immediate win,
      else the first legal column of the preference order; legal[0] as a
      last resort. */
  function Act(b: Board): (r: Result<int, ActError>)
    ensures r.Success? <==> AnyOpen(b)
    ensures r.Success? ==> 0 <= r.value < Cols && b[0][r.value] == 0
  {
    var player := InferPlayer(b);
    var w := CanWin(b, player);
    if w.Some? then Success(w.value)
    else
      var blk := CanWin(b, -player);
      if blk.Some? then Success(blk.value)
      else
        PreferenceIsPermutation();
        var pref := FirstPreferred(b, Preference);
        if pref.Some? then Success(pref.value)
        else FirstLegal(b)
  }

  /** The last resort `legal[0]`, which raises IndexError on a full board. */
  function FirstLegal(b: Board): (r: Result<int, ActError>)
    ensures r.Success? <==> AnyOpen(b)
    ensures r.Success? ==> 0 <= r.value < Cols && b[0][r.value] == 0
  {
    var legal := LegalActions(b);
    if |legal| > 0 then
      assert legal[0] in legal;
      Success(legal[0])
    else
      assert forall c :: 0 <= c < Cols && b[0][c] == 0 ==> c in legal;
      Failure(NoLegalColumn)
  }

  /** Rule 1 of act: when the mover has a winning column, act returns the
      smallest one. */
  lemma ActTakesWin(b: Board, c: int)
    requires 0 <= c < Cols && b[0][c] == 0 && WinsAt(b, c, InferPlayer(b))
    ensures Act(b).Success? && WinsAt(b, Act(b).value, InferPlayer(b))
    ensures forall c' :: 0 <= c' < Act(b).value && b[0][c'] == 0 ==> !WinsAt(b, c', InferPlayer(b))
  {
  }

  /** Rule 2 of act: with no winning column of its own, the mover blocks the
      opponent's smallest winning column. */
  lemma ActBlocks(b: Board, c: int)
    requires forall c' :: 0 <= c' < Cols && b[0][c'] == 0 ==> !WinsAt(b, c', InferPlayer(b))
    requires 0 <= c < Cols && b[0][c] == 0 && WinsAt(b, c, -InferPlayer(b))
    ensures Act(b).Success? && WinsAt(b, Act(b).value, -InferPlayer(b))
    ensures forall c' :: 0 <= c' < Act(b).value && b[0][c'] == 0 ==> !WinsAt(b, c', -InferPlayer(b))
  {
    assert CanWin(b, InferPlayer(b)).None?;
  }

  /** Rule 3 of act: with nothing to win or block, the answer is the first
      legal column of 3, 2, 4, 1, 5, 0, 6. */
  lemma ActFollowsPreference(b: Board)
    requires forall c {:trigger WinsAt(b, c, InferPlayer(b))} ::
               0 <= c < Cols && b[0][c] == 0 ==> !WinsAt(b, c, InferPlayer(b))
    requires forall c {:trigger WinsAt(b, c, -InferPlayer(b))} ::
               0 <= c < Cols && b[0][c] == 0 ==> !WinsAt(b, c, -InferPlayer(b))
    requires AnyOpen(b)
    ensures Act(b).Success?
    ensures exists i :: 0 <= i < |Preference| && Preference[i] == Act(b).value
                     && FullBefore(b, Preference, i)
  {
    PreferenceIsPermutation();
    NoWinningColumn(b, InferPlayer(b));
    NoWinningColumn(b, -InferPlayer(b));
    PreferredAnswer(b);
    PreferredIsFirstOpen(b);
    var v := FirstPreferred(b, Preference).value;
    var i :| 0 <= i < |Preference| && Preference[i] == v && FullBefore(b, Preference, i);
    assert Act(b).value == v;
  }

  lemma NoWinningColumn(b: Board, p: int)
    requires forall c :: 0 <= c < Cols && b[0][c] == 0 ==> !WinsAt(b, c, p)
    ensures CanWin(b, p).None?
  {
  }

  lemma PreferredAnswer(b: Board)
    requires CanWin(b, InferPlayer(b)).None? && CanWin(b, -InferPlayer(b)).None?
    requires AnyOpen(b)
    ensures FirstPreferred(b, Preference).Some?
    ensures Act(b) == Success(FirstPreferred(b, Preference).value)
  {
    ActWithoutThreats(b);
    ActNeverFallsBack(b);
  }

  lemma ActWithoutThreats(b: Board)
    requires CanWin(b, InferPlayer(b)).None? && CanWin(b, -InferPlayer(b)).None?
    ensures Act(b) == if FirstPreferred(b, Preference).Some?
                      then Success(FirstPreferred(b, Preference).value)
                      else FirstLegal(b)
  {
  }

  lemma PreferredIsFirstOpen(b: Board)
    requires AnyOpen(b)
    ensures FirstPreferred(b, Preference).Some?
    ensures exists i :: 0 <= i < |Preference| && Preference[i] == FirstPreferred(b, Preference).value
                     && FullBefore(b, Preference, i)
  {
    ActNeverFallsBack(b);
    PreferenceIsPermutation();
    FirstPreferredIsFirst(b, Preference);
  }

  /** The fallback `legal[0]` is never reached: when some column is legal
      the preference order already names it. */
  lemma ActNeverFallsBack(b: Board)
    requires AnyOpen(b)
    ensures FirstPreferred(b, Preference).Some?
  {
    var c :| 0 <= c < Cols && b[0][c] == 0;
    PreferredFindsOpen(b, c);
  }

  lemma PreferredFindsOpen(b: Board, c: int)
    requires 0 <= c < Cols && b[0][c] == 0
    ensures FirstPreferred(b, Preference).Some?
  {
    PreferenceIsPermutation();
    assert c in Preference;
  }
}
