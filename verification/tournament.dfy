/** The tournament driver (tournament.py): its own copy of the board rules
    written as loops, one game between a red and a yellow player, and a
    series of games with alternating colours. Each loop is measured against
    the recursive reference definitions of DeterministicPolicy. */
module Tournament {
  import opened Wrappers
  import opened Board
  import DP = DeterministicPolicy

  // ---------------------------------------------------------------------
  // Board rules, as loops
  // ---------------------------------------------------------------------

  /** legal_actions: the columns whose top cell is empty, scanned left to
      right. */
  method LegalActions(b: Board) returns (cols: seq<int>)
    ensures cols == DP.LegalActions(b)
    ensures forall c :: c in cols <==> 0 <= c < Cols && b[0][c] == 0
  {
    cols := [];
    var c := 0;
    while c < Cols
      invariant 0 <= c <= Cols && cols == DP.OpenBelow(b, c)
    {
      if b[0][c] == 0 {
        cols := cols + [c];
      }
      c := c + 1;
    }
  }

  /** drop_piece: scan the column from the bottom row up and fill the first
      empty cell; -1 when the column is full, the board then unchanged. */
  method DropPiece(b: Board, col: int, p: int) returns (b': Board, row: int)
    requires 0 <= col < Cols
    ensures row == -1 <==> !HasEmpty(b, col)
    ensures row == -1 ==> b' == b
    ensures row != -1 ==> IsLowestEmpty(b, col, row) && b' == Set(b, row, col, p)
    ensures row == -1 <==> DP.DropPiece(b, col, p).None?
    ensures row != -1 ==> DP.DropPiece(b, col, p) == Some(DP.Drop(b', row))
  {
    var r := Rows - 1;
    while r >= 0
      invariant -1 <= r < Rows
      invariant forall r' :: r < r' < Rows ==> b[r'][col] != 0
    {
      if b[r][col] == 0 {
        var d := DP.DropPiece(b, col, p);
        LowestEmptyUnique(b, col, r, d.value.row);
        return Set(b, r, col, p), r;
      }
      r := r - 1;
    }
    return b, -1;
  }

  /** One `while` of check_win: how many p-cells follow one another from
      (r, c) on, stepping by (dr, dc) until the edge or another value. */
  method Walk(b: Board, r: int, c: int, dr: int, dc: int, p: int) returns (n: nat)
    requires DP.Unit(dr, dc)
    ensures n == DP.RunLength(b, r, c, dr, dc, p)
  {
    n := 0;
    var i, j := r, c;
    while 0 <= i < Rows && 0 <= j < Cols && b[i][j] == p
      invariant n + DP.RunLength(b, i, j, dr, dc, p) == DP.RunLength(b, r, c, dr, dc, p)
      decreases DP.Remaining(i, dr, Rows) + DP.Remaining(j, dc, Cols)
    {
      n, i, j := n + 1, i + dr, j + dc;
    }
  }

  /** The four directions of check_win, in its order. */
  const Directions: seq<(int, int)> := [(0, 1), (1, 0), (1, 1), (1, -1)]

  /** check_win: for each direction count the cell itself plus the runs on
      both sides, and answer true at the first count of at least 4. */
  method CheckWin(b: Board, row: int, col: int, p: int) returns (win: bool)
    ensures win == DP.CheckWin(b, row, col, p)
  {
    var k := 0;
    while k < |Directions|
      invariant 0 <= k <= |Directions|
      invariant forall j :: 0 <= j < k ==> DP.LineCount(b, row, col, Directions[j].0, Directions[j].1, p) < 4
    {
      var (dr, dc) := Directions[k];
      var ahead := Walk(b, row + dr, col + dc, dr, dc, p);
      var behind := Walk(b, row - dr, col - dc, -dr, -dc, p);
      if 1 + ahead + behind >= 4 {
        return true;
      }
      k := k + 1;
    }
    assert DP.LineCount(b, row, col, Directions[0].0, Directions[0].1, p) < 4;
    assert DP.LineCount(b, row, col, Directions[1].0, Directions[1].1, p) < 4;
    assert DP.LineCount(b, row, col, Directions[2].0, Directions[2].1, p) < 4;
    assert DP.LineCount(b, row, col, Directions[3].0, Directions[3].1, p) < 4;
    return false;
  }

  // ---------------------------------------------------------------------
  // play_game
  // ---------------------------------------------------------------------

  /** A player's move as a function of the ply number and the board it is
      shown. */
  type Policy = (nat, Board) -> int

  /** The answer of the colour to move. */
  function Answer(red: Policy, yellow: Policy, player: int, ply: nat, b: Board): int {
    if player == 1 then red(ply, b) else yellow(ply, b)
  }

  /** How a game ended. */
  datatype End = IllegalMove | Won | Drawn

  /** The returned result (1 red won, -1 yellow won, 0 draw), how the game
      ended, the final board and the number of pieces played. */
  datatype Game = Game(result: int, end: End, board: Board, plies: nat)

  /** Neither colour has four in a row. */
  ghost predicate NoFour(b: Board) {
    !HasFour(b, 1) && !HasFour(b, -1)
  }

  /** Red has moved as often as yellow when red is to move, once more when
      yellow is. */
  predicate Turn(b: Board, player: int) {
    CountBoard(b, 1) == CountBoard(b, -1) + (if player == 1 then 0 else 1)
  }

  /** What one pass of the game loop leads to: the finished game, or the
      board the other colour moves on. */
  datatype Turnout = Over(game: Game) | Continue(next: Board)

  /** One pass of play_game's loop from board b with player to move at ply
      `ply`: an answer outside the legal columns loses, a four wins, a full
      top row draws, and otherwise the game goes on. */
  function Ply(red: Policy, yellow: Policy, b: Board, player: int, ply: nat): (t: Turnout)
    requires Settled(b) && IsPlayer(player)
    ensures t.Continue? ==> Settled(t.next) && CountBoard(t.next, 0) < CountBoard(b, 0)
  {
    var action := Answer(red, yellow, player, ply, b);
    if action !in DP.LegalActions(b) then Over(Game(-player, IllegalMove, b, ply))
    else
      SettledRoomAtTop(b, action);
      var d := DP.DropPiece(b, action, player).value;
      DropKeepsSettled(b, action, d.row, player);
      FillDecreasesEmpty(b, d.row, action, player);
      if DP.CheckWin(d.board, d.row, action, player) then Over(Game(player, Won, d.board, ply + 1))
      else if TopRowFull(d.board) then Over(Game(0, Drawn, d.board, ply + 1))
      else Continue(d.board)
  }

  /** The whole game from board b: passes of the loop until one ends it. */
  function Play(red: Policy, yellow: Policy, b: Board, player: int, ply: nat): Game
    requires Settled(b) && IsPlayer(player)
    decreases CountBoard(b, 0)
  {
    match Ply(red, yellow, b, player, ply)
    case Over(g) => g
    case Continue(b') => Play(red, yellow, b', -player, ply + 1)
  }

  /** The colour to move on a board reached by alternating turns is the one
      infer_player names. */
  lemma TurnIsInferred(b: Board, player: int)
    requires IsPlayer(player) && Turn(b, player)
    ensures DP.InferPlayer(b) == player
  {
  }

  /** The empty board: settled, no fours, red to move. */
  lemma EmptyStart()
    ensures Settled(Empty()) && NoFour(Empty()) && Turn(Empty(), 1)
  {
    EmptyNoFour(1);
    EmptyNoFour(-1);
    EmptyCounts(1);
    EmptyCounts(-1);
  }

  lemma EmptyNoFour(p: int)
    requires p != 0
    ensures !HasFour(Empty(), p)
  {
    forall r, c, d: Dir
      ensures !Four(Empty(), p, r, c, d)
    {
      assert !Is(Empty(), r, c, p);
    }
  }

  lemma EmptyCounts(p: int)
    requires p != 0
    ensures CountBoard(Empty(), p) == 0
  {
    forall r | 0 <= r < Rows
      ensures CountIn(Empty()[r], p) == 0
    {
      CountInAbsent(Empty()[r], p);
    }
    CountRowsAbsent(Empty(), p, Rows);
  }

  lemma {:induction false} CountRowsAbsent(b: Board, v: int, k: int)
    requires 0 <= k <= Rows
    requires forall r :: 0 <= r < Rows ==> CountIn(b[r], v) == 0
    ensures CountRows(b, v, k) == 0
  {
    if k > 0 {
      CountRowsAbsent(b, v, k - 1);
    }
  }

  /** What a finished game g, played from board b at ply `ply`, promises:
      the board stays settled and only grows; a 0 result is exactly a draw,
      and a draw comes with a full top row and no four; otherwise the result
      is a colour and it is the colour not to move on the final board, so
      the winner is the player who moved last and an illegal answer loses
      for the one who gave it; a win leaves a four of the winner and none
      of the loser, an illegal answer leaves no four at all; every ply adds
      one piece. */
  ghost predicate Sound(b: Board, ply: nat, g: Game) {
    && Settled(g.board) && Extends(b, g.board)
    && (g.end == Drawn <==> g.result == 0)
    && (g.end != Drawn ==> IsPlayer(g.result) && Turn(g.board, -g.result))
    && (g.end == Drawn ==> TopRowFull(g.board) && NoFour(g.board))
    && (g.end == Won ==> HasFour(g.board, g.result) && !HasFour(g.board, -g.result))
    && (g.end == IllegalMove ==> NoFour(g.board))
    && g.plies + CountBoard(g.board, 0) == ply + CountBoard(b, 0)
  }

  /** The positions play_game can be in before a pass of its loop. */
  ghost predicate InPlay(b: Board, player: int) {
    Settled(b) && IsPlayer(player) && NoFour(b) && Turn(b, player)
  }

  /** One pass either ends the game soundly or hands the other colour a
      position in play with one more piece. */
  lemma PlySound(red: Policy, yellow: Policy, b: Board, player: int, ply: nat)
    requires InPlay(b, player)
    ensures var t := Ply(red, yellow, b, player, ply);
      && (t.Over? ==> Sound(b, ply, t.game))
      && (t.Continue? ==> InPlay(t.next, -player) && Extends(b, t.next)
                          && CountBoard(t.next, 0) + 1 == CountBoard(b, 0))
  {
    var action := Answer(red, yellow, player, ply, b);
    if action in DP.LegalActions(b) {
      MoveKeepsInvariants(b, player, action);
    }
  }

  /** A legal move keeps the board settled, hands the turn over, adds one
      piece, gives the opponent no four, and check_win on the new piece
      tells exactly whether the mover now has four. */
  lemma MoveKeepsInvariants(b: Board, player: int, action: int)
    requires InPlay(b, player)
    requires 0 <= action < Cols && b[0][action] == 0
    ensures HasEmpty(b, action) && DP.DropPiece(b, action, player).Some?
    ensures var d := DP.DropPiece(b, action, player).value;
      && Settled(d.board) && Extends(b, d.board) && Turn(d.board, -player)
      && !HasFour(d.board, -player)
      && (DP.CheckWin(d.board, d.row, action, player) <==> HasFour(d.board, player))
      && CountBoard(d.board, 0) + 1 == CountBoard(b, 0)
  {
    SettledRoomAtTop(b, action);
    var d := DP.DropPiece(b, action, player).value;
    DropKeepsSettled(b, action, d.row, player);
    FillDecreasesEmpty(b, d.row, action, player);
    CountAfterSet(b, d.row, action, player, 1);
    CountAfterSet(b, d.row, action, player, -1);
    DP.CheckWinAfterMove(b, d.row, action, player);
    DP.NoFourForOther(b, d.row, action, player, -player);
  }

  /** A game that is sound from the board after one more piece is sound
      from the board before it. */
  lemma SoundBack(b: Board, b': Board, ply: nat, g: Game)
    requires Extends(b, b') && CountBoard(b', 0) + 1 == CountBoard(b, 0)
    requires Sound(b', ply + 1, g)
    ensures Sound(b, ply, g)
  {
  }

  /** Every game played from a position in play is sound. */
  lemma {:induction false} PlayOutcome(red: Policy, yellow: Policy, b: Board, player: int, ply: nat)
    requires InPlay(b, player)
    ensures Sound(b, ply, Play(red, yellow, b, player, ply))
    decreases CountBoard(b, 0)
  {
    PlySound(red, yellow, b, player, ply);
    match Ply(red, yellow, b, player, ply)
    case Over(g) =>
    case Continue(b') =>
      PlayOutcome(red, yellow, b', -player, ply + 1);
      SoundBack(b, b', ply, Play(red, yellow, b', -player, ply + 1));
  }

  /** The colour not to move on the final board is the one infer_player
      does not name. */
  lemma ResultIsLastMover(b: Board, ply: nat, g: Game)
    requires Sound(b, ply, g) && g.end != Drawn
    ensures g.result == -DP.InferPlayer(g.board)
  {
    TurnIsInferred(g.board, -g.result);
  }

  /** The body of play_game's loop, with the loop-written board rules. */
  method PlyStep(red: Policy, yellow: Policy, board: Board, player: int, ply: nat) returns (t: Turnout)
    requires Settled(board) && IsPlayer(player)
    ensures t == Ply(red, yellow, board, player, ply)
  {
    var action := Answer(red, yellow, player, ply, board);
    var legal := LegalActions(board);
    if action !in legal {
      assert action !in DP.LegalActions(board);
      return Over(Game(-player, IllegalMove, board, ply));
    }
    SettledRoomAtTop(board, action);
    var next, row := DropPiece(board, action, player);
    var won := CheckWin(next, row, action, player);
    if won {
      return Over(Game(player, Won, next, ply + 1));
    }
    if TopRowFull(next) {
      return Over(Game(0, Drawn, next, ply + 1));
    }
    return Continue(next);
  }

  /** The game from the empty board keeps the promises of a finished game:
      its result is the colour that moved last, or 0 for a draw. */
  lemma GameFromEmpty(red: Policy, yellow: Policy, g: Game)
    requires g == Play(red, yellow, Empty(), 1, 0)
    ensures g.end == Drawn <==> g.result == 0
    ensures g.end == Won ==> HasFour(g.board, g.result) && !HasFour(g.board, -g.result)
    ensures g.end == Drawn ==> TopRowFull(g.board) && NoFour(g.board)
    ensures g.end == IllegalMove ==> NoFour(g.board)
    ensures g.end != Drawn ==> g.result == -DP.InferPlayer(g.board)
    ensures g.plies + CountBoard(g.board, 0) == CountBoard(Empty(), 0)
  {
    EmptyStart();
    PlayOutcome(red, yellow, Empty(), 1, 0);
    if g.end != Drawn {
      ResultIsLastMover(Empty(), 0, g);
    }
  }

  /** play_game's loop from a given position: passes until one ends the
      game. */
  method PlayFrom(red: Policy, yellow: Policy, b: Board, p: int, k: nat) returns (g: Game)
    requires Settled(b) && IsPlayer(p)
    ensures g == Play(red, yellow, b, p, k)
  {
    var board, player, ply := b, p, k;
    while true
      invariant Settled(board) && IsPlayer(player)
      invariant Play(red, yellow, board, player, ply) == Play(red, yellow, b, p, k)
      decreases CountBoard(board, 0)
    {
      var t := PlyStep(red, yellow, board, player, ply);
      if t.Over? {
        return t.game;
      }
      board, player, ply := t.next, -player, ply + 1;
    }
  }

  /** play_game: red (1) opens on the empty board and the colours
      alternate; the loop computes the game loop's outcome. */
  method PlayGame(red: Policy, yellow: Policy) returns (g: Game)
    ensures g == Play(red, yellow, Empty(), 1, 0)
    ensures g.end == Drawn <==> g.result == 0
    ensures g.end == Won ==> HasFour(g.board, g.result) && !HasFour(g.board, -g.result)
    ensures g.end == Drawn ==> TopRowFull(g.board) && NoFour(g.board)
    ensures g.end == IllegalMove ==> NoFour(g.board)
    ensures g.end != Drawn ==> g.result == -DP.InferPlayer(g.board)
    ensures g.plies + CountBoard(g.board, 0) == CountBoard(Empty(), 0)
  {
    EmptyStart();
    g := PlayFrom(red, yellow, Empty(), 1, 0);
    GameFromEmpty(red, yellow, g);
  }

  // ---------------------------------------------------------------------
  // tournament
  // ---------------------------------------------------------------------

  /** An entrant's move as a function of the game number, the ply number
      and the board. */
  type Entrant = (nat, nat, Board) -> int

  /** The entrant as a player of game i. */
  function Seat(e: Entrant, i: nat): Policy {
    (k: nat, b: Board) => e(i, k, b)
  }

  /** The colour A plays in game i: red in even games, yellow in odd ones. */
  function ColourOfA(i: nat): int {
    if i % 2 == 0 then 1 else -1
  }

  /** Game i of the series, with A as red when i is even and B as red
      otherwise. */
  function GameOf(pa: Entrant, pb: Entrant, i: nat): Game {
    EmptyStart();
    if i % 2 == 0 then Play(Seat(pa, i), Seat(pb, i), Empty(), 1, 0)
    else Play(Seat(pb, i), Seat(pa, i), Empty(), 1, 0)
  }

  /** The result of game i as the series records it: odd games have 1 and
      -1 swapped. */
  function Tally(pa: Entrant, pb: Entrant, i: nat): int {
    var res := GameOf(pa, pb, i).result;
    if i % 2 == 0 then res
    else if res == 1 then -1
    else if res == -1 then 1
    else res
  }

  /** The recorded result is from A's side: 1 when A's colour won, -1 when
      B's colour won, 0 exactly on a draw. */
  lemma TallyFromA(pa: Entrant, pb: Entrant, i: nat)
    ensures -1 <= Tally(pa, pb, i) <= 1
    ensures Tally(pa, pb, i) == 1 <==> GameOf(pa, pb, i).result == ColourOfA(i)
    ensures Tally(pa, pb, i) == -1 <==> GameOf(pa, pb, i).result == -ColourOfA(i)
    ensures Tally(pa, pb, i) == 0 <==> GameOf(pa, pb, i).end == Drawn
  {
    EmptyStart();
    if i % 2 == 0 {
      PlayOutcome(Seat(pa, i), Seat(pb, i), Empty(), 1, 0);
    } else {
      PlayOutcome(Seat(pb, i), Seat(pa, i), Empty(), 1, 0);
    }
  }

  lemma {:induction false} CountInSnoc(s: seq<int>, x: int, v: int)
    ensures CountIn(s + [x], v) == CountIn(s, v) + (if x == v then 1 else 0)
  {
    if |s| > 0 {
      assert (s + [x])[1..] == s[1..] + [x];
      CountInSnoc(s[1..], x, v);
    }
  }

  lemma LogSnoc(pa: Entrant, pb: Entrant, log: seq<int>, res: int)
    requires forall j :: 0 <= j < |log| ==> log[j] == Tally(pa, pb, j)
    requires res == Tally(pa, pb, |log|)
    ensures forall j :: 0 <= j < |log| + 1 ==> (log + [res])[j] == Tally(pa, pb, j)
  {
    forall j | 0 <= j < |log| + 1
      ensures (log + [res])[j] == Tally(pa, pb, j)
    {
      if j < |log| {
        assert (log + [res])[j] == log[j];
      }
    }
  }

  /** One game of the series as the loop of tournament plays and records
      it. */
  method RecordedGame(pa: Entrant, pb: Entrant, i: nat) returns (res: int)
    ensures res == Tally(pa, pb, i) && -1 <= res <= 1
  {
    if i % 2 == 0 {
      var g := PlayGame(Seat(pa, i), Seat(pb, i));
      res := g.result;
    } else {
      var g := PlayGame(Seat(pb, i), Seat(pa, i));
      res := g.result;
      if res == 1 {
        res := -1;
      } else if res == -1 {
        res := 1;
      }
    }
    TallyFromA(pa, pb, i);
  }

  /** tournament: play the games in order, swap the result of the odd ones
      to A's side, and count A's wins, B's wins and the rest as draws. The
      three counts add up to the number of games. */
  method RunTournament(pa: Entrant, pb: Entrant, games: nat) returns (a: nat, b: nat, draw: nat, log: seq<int>)
    ensures |log| == games && forall i :: 0 <= i < games ==> log[i] == Tally(pa, pb, i)
    ensures a == CountIn(log, 1) && b == CountIn(log, -1) && draw == CountIn(log, 0)
    ensures a + b + draw == games
  {
    a, b, draw, log := 0, 0, 0, [];
    var i := 0;
    while i < games
      invariant 0 <= i <= games && |log| == i
      invariant forall j :: 0 <= j < i ==> log[j] == Tally(pa, pb, j)
      invariant a == CountIn(log, 1) && b == CountIn(log, -1) && draw == CountIn(log, 0)
      invariant a + b + draw == i
    {
      var res := RecordedGame(pa, pb, i);
      if res == 1 {
        a := a + 1;
      } else if res == -1 {
        b := b + 1;
      } else {
        draw := draw + 1;
      }
      CountInSnoc(log, res, 1);
      CountInSnoc(log, res, -1);
      CountInSnoc(log, res, 0);
      LogSnoc(pa, pb, log, res);
      log := log + [res];
      i := i + 1;
    }
  }
}
