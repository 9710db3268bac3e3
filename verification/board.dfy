/** The 6x7 Connect Four grid and the reference notions every copy of the
    board logic is measured against. Row 0 is the top row; a cell holds 0
    (empty), 1 (red) or -1 (yellow). */
module Board {

  const Rows: int := 6
  const Cols: int := 7

  predicate WellFormed(b: seq<seq<int>>) {
    |b| == Rows && forall r :: 0 <= r < Rows ==> |b[r]| == Cols
  }

  /** A grid of the fixed shape; cell values are any integers, as in numpy. */
  type Board = b: seq<seq<int>> | WellFormed(b)
    witness seq(6, _ => seq(7, _ => 0))

  function Empty(): Board {
    seq(Rows, _ => seq(Cols, _ => 0))
  }

  predicate InBounds(r: int, c: int) {
    0 <= r < Rows && 0 <= c < Cols
  }

  /** Cell (r, c) exists and holds v. */
  predicate Is(b: Board, r: int, c: int, v: int) {
    InBounds(r, c) && b[r][c] == v
  }

  /** The board with cell (r, c) overwritten by v. */
  function Set(b: Board, r: int, c: int, v: int): (b': Board)
    requires InBounds(r, c)
    ensures b'[r][c] == v
    ensures forall i, j :: InBounds(i, j) && (i != r || j != c) ==> b'[i][j] == b[i][j]
  {
    b[r := b[r][c := v]]
  }

  predicate IsPlayer(p: int) {
    p == 1 || p == -1
  }

  /** Gravity consistency: below an occupied cell every cell is occupied. */
  predicate Settled(b: Board) {
    forall r, r', c :: 0 <= r <= r' < Rows && 0 <= c < Cols && b[r][c] != 0 ==> b[r'][c] != 0
  }

  /** Column c still has an empty cell somewhere. */
  predicate HasEmpty(b: Board, c: int)
    requires 0 <= c < Cols
  {
    exists r :: 0 <= r < Rows && b[r][c] == 0
  }

  /** Row r is the lowest empty cell of column c. */
  predicate IsLowestEmpty(b: Board, c: int, r: int)
    requires 0 <= c < Cols
  {
    0 <= r < Rows && b[r][c] == 0 && forall r' :: r < r' < Rows ==> b[r'][c] != 0
  }

  predicate TopRowFull(b: Board) {
    forall c :: 0 <= c < Cols ==> b[0][c] != 0
  }

  /** Every piece of b is still in place in b'. */
  ghost predicate Extends(b: Board, b': Board) {
    forall r, c :: InBounds(r, c) && b[r][c] != 0 ==> b'[r][c] == b[r][c]
  }

  predicate Ascending(s: seq<int>) {
    forall i, j :: 0 <= i < j < |s| ==> s[i] < s[j]
  }

  /** The four line directions, as (row step, column step). */
  datatype Dir = East | South | SouthEast | SouthWest {
    function DR(): int {
      match this
      case East => 0
      case South => 1
      case SouthEast => 1
      case SouthWest => 1
    }
    function DC(): int {
      match this
      case East => 1
      case South => 0
      case SouthEast => 1
      case SouthWest => -1
    }
  }

  /** Four cells of p in a line starting at (r, c) and going in direction d. */
  predicate Four(b: Board, p: int, r: int, c: int, d: Dir) {
    var dr, dc := d.DR(), d.DC();
    && Is(b, r, c, p)
    && Is(b, r + dr, c + dc, p)
    && Is(b, r + 2 * dr, c + 2 * dc, p)
    && Is(b, r + 3 * dr, c + 3 * dc, p)
  }

  /** Four cells of p in a line anywhere on the board. */
  ghost predicate HasFour(b: Board, p: int) {
    exists r, c, d :: Four(b, p, r, c, d)
  }

  /** The line of four starting at (r, c) in direction d passes through (row, col). */
  predicate Covers(r: int, c: int, d: Dir, row: int, col: int) {
    var dr, dc := d.DR(), d.DC();
    || (row == r && col == c)
    || (row == r + dr && col == c + dc)
    || (row == r + 2 * dr && col == c + 2 * dc)
    || (row == r + 3 * dr && col == c + 3 * dc)
  }

  // ---------------------------------------------------------------------
  // Counting cells
  // ---------------------------------------------------------------------

  function CountIn(s: seq<int>, v: int): (n: nat)
    ensures n <= |s|
  {
    if |s| == 0 then 0 else (if s[0] == v then 1 else 0) + CountIn(s[1..], v)
  }

  /** Number of cells equal to v in rows [0, k). */
  function CountRows(b: Board, v: int, k: int): nat
    requires 0 <= k <= Rows
  {
    if k == 0 then 0 else CountRows(b, v, k - 1) + CountIn(b[k - 1], v)
  }

  /** Number of cells of the whole board equal to v (numpy's `np.sum(b == v)`). */
  function CountBoard(b: Board, v: int): nat {
    CountRows(b, v, Rows)
  }

  /** A value that does not occur is counted zero times. */
  lemma {:induction false} CountInAbsent(s: seq<int>, v: int)
    requires forall i :: 0 <= i < |s| ==> s[i] != v
    ensures CountIn(s, v) == 0
  {
    if |s| > 0 {
      assert forall i :: 1 <= i < |s| ==> s[i] == s[1..][i - 1];
      CountInAbsent(s[1..], v);
    }
  }

  lemma {:induction false} CountInUpdate(s: seq<int>, i: int, x: int, v: int)
    requires 0 <= i < |s|
    ensures CountIn(s[i := x], v)
         == CountIn(s, v) - (if s[i] == v then 1 else 0) + (if x == v then 1 else 0)
  {
    if i > 0 {
      assert s[i := x][1..] == s[1..][i - 1 := x];
      CountInUpdate(s[1..], i - 1, x, v);
    } else {
      assert s[i := x][1..] == s[1..];
    }
  }

  lemma {:induction false} CountRowsUpdate(b: Board, r: int, c: int, x: int, v: int, k: int)
    requires InBounds(r, c) && 0 <= k <= Rows
    ensures CountRows(Set(b, r, c, x), v, k)
         == CountRows(b, v, k)
            + (if r < k then (if x == v then 1 else 0) - (if b[r][c] == v then 1 else 0) else 0)
  {
    if k > 0 {
      CountRowsUpdate(b, r, c, x, v, k - 1);
      if k - 1 == r {
        CountInUpdate(b[r], c, x, v);
      } else {
        assert Set(b, r, c, x)[k - 1] == b[k - 1];
      }
    }
  }

  /** Overwriting one cell changes every cell count by at most that cell. */
  lemma CountAfterSet(b: Board, r: int, c: int, x: int, v: int)
    requires InBounds(r, c)
    ensures CountBoard(Set(b, r, c, x), v)
         == CountBoard(b, v) - (if b[r][c] == v then 1 else 0) + (if x == v then 1 else 0)
  {
    CountRowsUpdate(b, r, c, x, v, Rows);
  }

  /** Filling an empty cell with a piece leaves one empty cell fewer; this is
      what makes every game and every rollout end. */
  lemma FillDecreasesEmpty(b: Board, r: int, c: int, p: int)
    requires InBounds(r, c) && b[r][c] == 0 && p != 0
    ensures CountBoard(Set(b, r, c, p), 0) == CountBoard(b, 0) - 1
  {
    CountAfterSet(b, r, c, p, 0);
  }

  // ---------------------------------------------------------------------
  // Gravity
  // ---------------------------------------------------------------------

  /** On a settled board a column has room exactly when its top cell is empty. */
  lemma SettledRoomAtTop(b: Board, c: int)
    requires Settled(b) && 0 <= c < Cols
    ensures HasEmpty(b, c) <==> b[0][c] == 0
  {
  }

  /** Placing a piece on the lowest empty cell keeps the board settled. */
  lemma DropKeepsSettled(b: Board, c: int, r: int, p: int)
    requires Settled(b) && 0 <= c < Cols && IsLowestEmpty(b, c, r) && p != 0
    ensures Settled(Set(b, r, c, p))
    ensures Extends(b, Set(b, r, c, p))
  {
  }

  /** A column has at most one lowest empty cell. */
  lemma LowestEmptyUnique(b: Board, c: int, r1: int, r2: int)
    requires 0 <= c < Cols && IsLowestEmpty(b, c, r1) && IsLowestEmpty(b, c, r2)
    ensures r1 == r2
  {
  }

  /** Two ascending sequences with the same elements are equal. */
  lemma {:induction false} AscendingUnique(s: seq<int>, t: seq<int>)
    requires Ascending(s) && Ascending(t)
    requires forall x :: x in s <==> x in t
    ensures s == t
  {
    assert |s| > 0 ==> s[0] in s && s[0] in t;
    assert |t| > 0 ==> t[0] in t && t[0] in s;
    if |s| > 0 && |t| > 0 {
      assert s[0] in s && t[0] in t;
      var i :| 0 <= i < |s| && s[i] == t[0];
      var k :| 0 <= k < |t| && t[k] == s[0];
      assert s[0] <= s[i] && t[0] <= t[k];
      forall x
        ensures x in s[1..] <==> x in t[1..]
      {
        if x in s[1..] {
          assert x in t && x != t[0];
        }
        if x in t[1..] {
          assert x in s && x != s[0];
        }
      }
      AscendingUnique(s[1..], t[1..]);
      assert s == [s[0]] + s[1..];
      assert t == [t[0]] + t[1..];
    }
  }
}
