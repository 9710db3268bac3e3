/** The board helpers of the MCTS search (mcts.py): legal_actions counts the
    pieces of every column, step drops a piece by scanning the column, and
    is_terminal_state scans the four line directions for the mover only. */
module MctsBoard {
  import opened Board
  import DP = DeterministicPolicy

  // ---------------------------------------------------------------------
  // legal_actions
  // ---------------------------------------------------------------------

  /** Number of non-zero cells of column c in rows [0, k). */
  function PiecesAbove(b: Board, c: int, k: int): (n: nat)
    requires 0 <= c < Cols && 0 <= k <= Rows
    ensures n <= k
  {
    if k == 0 then 0 else PiecesAbove(b, c, k - 1) + (if b[k - 1][c] != 0 then 1 else 0)
  }

  /** The piece counter of column c. */
  function ColumnCount(b: Board, c: int): nat
    requires 0 <= c < Cols
  {
    PiecesAbove(b, c, Rows)
  }

  /** Fewer pieces than rows in [0, k) exactly when one of those rows is empty. */
  lemma {:induction false} PiecesAboveBelowK(b: Board, c: int, k: int)
    requires 0 <= c < Cols && 0 <= k <= Rows
    ensures PiecesAbove(b, c, k) < k <==> exists r :: 0 <= r < k && b[r][c] == 0
  {
    if k > 0 {
      PiecesAboveBelowK(b, c, k - 1);
      if b[k - 1][c] == 0 {
        assert exists r :: 0 <= r < k && b[r][c] == 0;
      } else {
        assert (exists r :: 0 <= r < k && b[r][c] == 0) <==> (exists r :: 0 <= r < k - 1 && b[r][c] == 0);
      }
    }
  }

  /** A column is available exactly when it holds fewer pieces than rows. */
  lemma CountBelowRowsIffEmpty(b: Board, c: int)
    requires 0 <= c < Cols
    ensures ColumnCount(b, c) < Rows <==> HasEmpty(b, c)
  {
    PiecesAboveBelowK(b, c, Rows);
  }

  /** The columns of [0, n) whose counter is below Rows, in ascending order. */
  function AvailableBelow(b: Board, n: int): (cols: seq<int>)
    requires 0 <= n <= Cols
    ensures Ascending(cols)
    ensures forall c :: c in cols <==> 0 <= c < n && ColumnCount(b, c) < Rows
  {
    if n == 0 then []
    else
      var rest := AvailableBelow(b, n - 1);
      if ColumnCount(b, n - 1) < Rows then
        assert forall i :: 0 <= i < |rest| ==> rest[i] in rest;
        rest + [n - 1]
      else rest
  }

  /** legal_actions: the columns 0..6, ascending, that are not yet full. */
  function LegalActions(b: Board): (cols: seq<int>)
    ensures Ascending(cols)
    ensures forall c :: c in cols <==> 0 <= c < Cols && HasEmpty(b, c)
  {
    var cols := AvailableBelow(b, Cols);
    assert forall c :: 0 <= c < Cols ==> (ColumnCount(b, c) < Rows <==> HasEmpty(b, c)) by {
      forall c | 0 <= c < Cols {
        CountBelowRowsIffEmpty(b, c);
      }
    }
    cols
  }

  /** On a gravity-consistent board, counting pieces and looking at the top
      cell name the same columns in the same order. */
  lemma LegalActionsAgree(b: Board)
    requires Settled(b)
    ensures LegalActions(b) == DP.LegalActions(b)
  {
    forall c | 0 <= c < Cols {
      SettledRoomAtTop(b, c);
    }
    AscendingUnique(LegalActions(b), DP.LegalActions(b));
  }

  // ---------------------------------------------------------------------
  // step
  // ---------------------------------------------------------------------

  /** Python's negative index: s[-1] is the last row. */
  function WrapRow(r: int): (i: int)
    requires -Rows <= r < Rows
    ensures 0 <= i < Rows
    ensures i == r || i == r + Rows
  {
    if r < 0 then r + Rows else r
  }

  /** The first row, scanning down from r, whose cell in column a is not 0. */
  function FirstPiece(b: Board, a: int, r: int): (k: int)
    requires 0 <= a < Cols && 0 <= r < Rows && b[Rows - 1][a] != 0
    ensures r <= k < Rows && b[k][a] != 0
    ensures forall i :: r <= i < k ==> b[i][a] == 0
    decreases Rows - r
  {
    if b[r][a] != 0 then r else FirstPiece(b, a, r + 1)
  }

  /** step: an empty bottom cell takes the piece; otherwise the cell just
      above the topmost piece does, and on a full column that is row -1,
      which Python reads as the bottom row. */
  function Step(b: Board, a: int, p: int): (b': Board)
    requires 0 <= a < Cols
    ensures exists r :: 0 <= r < Rows && b' == Set(b, r, a, p)
  {
    if b[Rows - 1][a] == 0 then Set(b, Rows - 1, a, p)
    else Set(b, WrapRow(FirstPiece(b, a, 0) - 1), a, p)
  }

  /** On a gravity-consistent board, step fills the lowest empty cell of a
      and nothing else. */
  lemma StepFillsLowest(b: Board, a: int, r: int, p: int)
    requires Settled(b) && 0 <= a < Cols && IsLowestEmpty(b, a, r)
    ensures Step(b, a, p) == Set(b, r, a, p)
  {
    if b[Rows - 1][a] != 0 {
      assert r < Rows - 1 && b[r + 1][a] != 0;
      var k := FirstPiece(b, a, 0);
      assert b[r][a] == 0;
      assert k == r + 1;
    }
  }

  /** On a full column, step overwrites the bottom piece: the Python index
      r - 1 for r = 0 wraps to the last row. */
  lemma StepOnFullColumn(b: Board, a: int, p: int)
    requires 0 <= a < Cols && b[0][a] != 0 && b[Rows - 1][a] != 0
    ensures Step(b, a, p) == Set(b, Rows - 1, a, p)
  {
  }

  /** The MCTS step and drop_piece of the deterministic policy place the
      piece in the same cell of a legal column of a gravity-consistent board. */
  lemma StepAgreesWithDropPiece(b: Board, a: int, p: int)
    requires Settled(b) && 0 <= a < Cols && HasEmpty(b, a)
    ensures DP.DropPiece(b, a, p).Some?
    ensures DP.DropPiece(b, a, p).value.board == Step(b, a, p)
  {
    var d := DP.DropPiece(b, a, p).value;
    StepFillsLowest(b, a, d.row, p);
  }

  /** A legal step keeps the board gravity-consistent and uses up one empty cell. */
  lemma StepProgress(b: Board, a: int, p: int)
    requires Settled(b) && 0 <= a < Cols && HasEmpty(b, a) && p != 0
    ensures Settled(Step(b, a, p))
    ensures Extends(b, Step(b, a, p))
    ensures CountBoard(Step(b, a, p), 0) == CountBoard(b, 0) - 1
  {
    var d := DP.DropPiece(b, a, p).value;
    StepFillsLowest(b, a, d.row, p);
    DropKeepsSettled(b, a, d.row, p);
    FillDecreasesEmpty(b, d.row, a, p);
  }

  // ---------------------------------------------------------------------
  // is_terminal_state
  // ---------------------------------------------------------------------

  /** The cell test of the scans: player in (r, c) and the next three cells
      along the step (dr, dc). */
  predicate LineAt(b: Board, p: int, r: int, c: int, dr: int, dc: int) {
    Is(b, r, c, p) && Is(b, r + dr, c + dc, p) && Is(b, r + 2 * dr, c + 2 * dc, p)
    && Is(b, r + 3 * dr, c + 3 * dc, p)
  }

  /** Horizontal scan: rows 0..5, starting columns 0..3. */
  predicate HorizontalFour(b: Board, p: int) {
    exists r, c :: 0 <= r < Rows && 0 <= c < Cols - 3 && LineAt(b, p, r, c, 0, 1)
  }

  /** Vertical scan: columns 0..6, starting rows 0..2. */
  predicate VerticalFour(b: Board, p: int) {
    exists r, c :: 0 <= c < Cols && 0 <= r < Rows - 3 && LineAt(b, p, r, c, 1, 0)
  }

  /** Down-right diagonal scan: starting columns 0..3, starting rows 0..2. */
  predicate DiagonalFour(b: Board, p: int) {
    exists r, c :: 0 <= c < Cols - 3 && 0 <= r < Rows - 3 && LineAt(b, p, r, c, 1, 1)
  }

  /** Up-right diagonal scan: starting columns 0..3, starting rows 3..5. */
  predicate AntiDiagonalFour(b: Board, p: int) {
    exists r, c :: 0 <= c < Cols - 3 && 3 <= r < Rows && LineAt(b, p, r, c, -1, 1)
  }

  predicate AnyScanFindsFour(b: Board, p: int) {
    HorizontalFour(b, p) || VerticalFour(b, p) || DiagonalFour(b, p) || AntiDiagonalFour(b, p)
  }

  /** A line of four is found by the scan of its direction. */
  lemma FourIsScanned(b: Board, p: int, r: int, c: int, d: Dir)
    requires Four(b, p, r, c, d)
    ensures AnyScanFindsFour(b, p)
  {
    match d
    case East =>
      assert LineAt(b, p, r, c, 0, 1);
      assert HorizontalFour(b, p);
    case South =>
      assert LineAt(b, p, r, c, 1, 0);
      assert VerticalFour(b, p);
    case SouthEast =>
      assert LineAt(b, p, r, c, 1, 1);
      assert DiagonalFour(b, p);
    case SouthWest =>
      assert LineAt(b, p, r + 3, c - 3, -1, 1);
      assert AntiDiagonalFour(b, p);
  }

  /** A cell test that succeeds is a line of four of the reference. */
  lemma LineAtIsFour(b: Board, p: int, r: int, c: int, dr: int, dc: int)
    requires LineAt(b, p, r, c, dr, dc)
    requires (dr, dc) in {(0, 1), (1, 0), (1, 1), (-1, 1)}
    ensures HasFour(b, p)
  {
    if (dr, dc) == (0, 1) {
      assert Four(b, p, r, c, East);
    } else if (dr, dc) == (1, 0) {
      assert Four(b, p, r, c, South);
    } else if (dr, dc) == (1, 1) {
      assert Four(b, p, r, c, SouthEast);
    } else {
      assert Four(b, p, r - 3, c + 3, SouthWest);
    }
  }

  /** The four scans between them visit every line of four on the board. */
  lemma ScansFindEveryFour(b: Board, p: int)
    ensures AnyScanFindsFour(b, p) <==> HasFour(b, p)
  {
    if HasFour(b, p) {
      var r, c, d :| Four(b, p, r, c, d);
      FourIsScanned(b, p, r, c, d);
    }
    if HorizontalFour(b, p) {
      var r, c :| 0 <= r < Rows && 0 <= c < Cols - 3 && LineAt(b, p, r, c, 0, 1);
      LineAtIsFour(b, p, r, c, 0, 1);
    } else if VerticalFour(b, p) {
      var r, c :| 0 <= c < Cols && 0 <= r < Rows - 3 && LineAt(b, p, r, c, 1, 0);
      LineAtIsFour(b, p, r, c, 1, 0);
    } else if DiagonalFour(b, p) {
      var r, c :| 0 <= c < Cols - 3 && 0 <= r < Rows - 3 && LineAt(b, p, r, c, 1, 1);
      LineAtIsFour(b, p, r, c, 1, 1);
    } else if AntiDiagonalFour(b, p) {
      var r, c :| 0 <= c < Cols - 3 && 3 <= r < Rows && LineAt(b, p, r, c, -1, 1);
      LineAtIsFour(b, p, r, c, -1, 1);
    }
  }

  /** The pair (is_tie, is_terminal) of is_terminal_state. */
  datatype Status = Status(tie: bool, terminal: bool)

  /** is_terminal_state(s, player): a line of four for player ends the game
      with a win; otherwise seven occupied top cells end it with a tie. Only
      the given player's lines are looked at. */
  function IsTerminalState(b: Board, p: int): (st: Status)
    ensures st.terminal && !st.tie <==> HasFour(b, p)
    ensures st.tie <==> !HasFour(b, p) && TopRowFull(b)
    ensures st.tie ==> st.terminal
  {
    ScansFindEveryFour(b, p);
    if AnyScanFindsFour(b, p) then Status(false, true)
    else if b[0][0] != 0 && b[0][1] != 0 && b[0][2] != 0 && b[0][3] != 0
         && b[0][4] != 0 && b[0][5] != 0 && b[0][6] != 0 then Status(true, true)
    else Status(false, false)
  }

  /** A gravity-consistent board that is not terminal still has a legal column. */
  lemma NotTerminalHasMove(b: Board, p: int)
    requires Settled(b) && !IsTerminalState(b, p).terminal
    ensures |LegalActions(b)| > 0
  {
    var c :| 0 <= c < Cols && b[0][c] == 0;
    assert HasEmpty(b, c);
    assert c in LegalActions(b);
  }
}
