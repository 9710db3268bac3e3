# Connect Four MCTS agent — a Dafny model

This project models the core of a Connect Four player built on Monte Carlo
Tree Search, together with the scripted opponent and the tournament driver
that pits two players against each other. The board is a 6 x 7 grid with
row 0 at the top. A cell holds 0 (empty), 1 (red, who opens) or -1 (yellow).

The modules follow the program's files:

- `Board` (`board.dfy`) holds the reference notions that every copy of the
  board rules is measured against:
  - a settled board, with no piece floating above an empty cell;
  - the lowest empty cell of a column;
  - four in a row along one of four directions;
  - cell counts.
- `DeterministicPolicy` (`dp.dfy`) models `DeterministicPolicy.py`: legal
  columns, `drop_piece`, `check_win`, `can_win`, `infer_player` and `act`
  (win, else block, else the fixed centre-first order).
- `MctsBoard` (`mcts_board.dfy`) models the search's own board rules in
  `mcts.py`:
  - `legal_actions` counts the pieces of each column;
  - `step` keeps its behaviour on a full column, where `r - 1` becomes Python's index -1;
  - `is_terminal_state` scans for one player only.
- `MctsTree` (`mcts_tree.dfy`) models the search tree and the four phases
  of `mcts.py`:
  - `select` with unvisited-first and UCB;
  - `expand` with a random untried column;
  - `simulate`, the random playout;
  - `backpropagate` along the parent links;
  - `run`.

  Nodes live in a map from ids to nodes, so that parent links and dict
  identity can be stated. The tree invariant `Valid` says the nodes form
  the tree `expand` builds:
  - ids grow from parent to child, and the root is the one node without a parent;
  - every edge leads to a node whose parent link points back, and every parent link is one of the parent's edges;
  - a node's edges lead to distinct children, and each child holds `step(parent board, action, parent player)` with the other player to move;
  - each node's untried and tried columns are legal and disjoint, and its N, W and Q are consistent.
- `Heuristic` (`heuristic.dfy`) models the scoring helpers of
  `our_policy.py`: `_center_preference`, `eval_window`, the 69 windows of
  `_heuristic_board_score`, and `_evaluate_child`.
- `OurPolicy` (`our_policy.dfy`) covers three steps: reusing the matching child as the new root, resetting the root, and
  choosing the best root child in `act`.
- `Tournament` (`tournament.dfy`) models `tournament.py`. Its board rules
  are written as loops and proved equal to the recursive definitions. It
  also covers one game (`play_game`) and a series of games with alternating
  colours (`tournament`).

Randomness is a stream `rng: nat -> nat` read at a cursor.
`rng.randint(0, n)` and `rng.choice` become `rng(k) mod n`. The UCB
exploration term `c * sqrt(log(N) / n)` is a parameter `bonus`, and
`log(1 + N)` in `_evaluate_child` is a parameter `log1p`. The wall-clock
loop of `run` becomes a number of iterations. A player in the tournament
is a function of the game number, the ply number and the board it is shown.

## Model

| member | source | states |
|---|---|---|
| Board.SettledRoomAtTop | DeterministicPolicy.py:8-9 | on a settled board a column has an empty cell exactly when its top cell is empty, so "top cell empty" is the right legality test |
| Board.DropKeepsSettled | DeterministicPolicy.py:11-16 | filling the lowest empty cell keeps the board settled and changes no occupied cell |
| Board.FillDecreasesEmpty | tournament.py:25-30 | filling an empty cell leaves exactly one empty cell fewer, which is what ends every game |
| Board.CountInAbsent | our_policy.py:49-53 | a value that does not occur in a row or window is counted zero times |
| Board.CountAfterSet | DeterministicPolicy.py:43-49 | overwriting one cell changes the count of any value only by that cell |
| DeterministicPolicy.LegalActions | DeterministicPolicy.py:8-9 | the columns, ascending, whose top cell is empty, and only those |
| DeterministicPolicy.DropPiece | DeterministicPolicy.py:11-16 | None exactly when the column is full; otherwise the piece lands on the lowest empty cell and nothing else changes |
| DeterministicPolicy.DropFrom | DeterministicPolicy.py:12-15 | scanning upwards from row r finds the lowest empty cell of the column, given that the cells below r are full |
| DeterministicPolicy.RunAtLeast | DeterministicPolicy.py:22-29 | a walk counts at least 1, 2 or 3 exactly when that many consecutive cells hold the player |
| DeterministicPolicy.LineCountToFour | DeterministicPolicy.py:18-32 | a count of 4 along a direction through a player's cell yields four in a row through that cell |
| DeterministicPolicy.FourToLineCount | DeterministicPolicy.py:18-32 | four in a row covering the cell makes the count along that direction at least 4 |
| DeterministicPolicy.CheckWinByDir | DeterministicPolicy.py:18-32 | check_win holds exactly when some direction has a count of at least 4 |
| DeterministicPolicy.CheckWinIffFourThrough | DeterministicPolicy.py:18-32 | on the player's cell, check_win holds exactly when some four in a row passes through that cell |
| DeterministicPolicy.FourSurvivesElsewhere | DeterministicPolicy.py:18-32 | a four that does not cover the changed cell was already there before the change |
| DeterministicPolicy.CheckWinAfterMove | DeterministicPolicy.py:18-32 | after a move on a board without a four for the mover, check_win on the new piece tells exactly whether the mover now has four anywhere |
| DeterministicPolicy.NoFourForOther | DeterministicPolicy.py:18-32 | a move never creates a four for the other colour |
| DeterministicPolicy.WinsAtMeansFour | DeterministicPolicy.py:34-41 | the can_win test on a column holds exactly when dropping there gives the player four in a row |
| DeterministicPolicy.CanWin | DeterministicPolicy.py:34-41 | the first legal column that wins; None exactly when no legal column wins |
| DeterministicPolicy.FirstWinning | DeterministicPolicy.py:36-41 | the first winning column of an ascending list; no earlier listed column wins; None when none does |
| DeterministicPolicy.NoWinningColumn | DeterministicPolicy.py:34-41 | when no legal column wins, can_win returns None |
| DeterministicPolicy.InferPlayer | DeterministicPolicy.py:43-49 | the inferred player is always a colour |
| DeterministicPolicy.FirstPreferred | DeterministicPolicy.py:70-72 | the first column of the order that is open; None only when every listed column is full |
| DeterministicPolicy.FirstPreferredIsFirst | DeterministicPolicy.py:70-72 | the chosen column sits at a position of the order before which every column is full |
| DeterministicPolicy.PreferenceIsPermutation | DeterministicPolicy.py:68 | the preference order lists every column exactly once |
| DeterministicPolicy.Act | DeterministicPolicy.py:51-75 | act answers exactly when some column is open, and the answer is an open column; IndexError otherwise |
| DeterministicPolicy.FirstLegal | DeterministicPolicy.py:74-75 | legal[0] exists exactly when some column is open and is an open column |
| DeterministicPolicy.ActTakesWin | DeterministicPolicy.py:57-60 | when the player to move has a winning column, act plays the first such column |
| DeterministicPolicy.ActBlocks | DeterministicPolicy.py:62-65 | with no own win but an opponent win, act plays the first column where the opponent would win |
| DeterministicPolicy.ActFollowsPreference | DeterministicPolicy.py:67-72 | without wins for either side, act plays the first open column of the order 3, 2, 4, 1, 5, 0, 6 |
| DeterministicPolicy.PreferredAnswer | DeterministicPolicy.py:67-72 | when can_win finds nothing for either colour, act is the first open column of the order |
| DeterministicPolicy.ActWithoutThreats | DeterministicPolicy.py:67-75 | when can_win finds nothing for either colour, act is the order's pick, or legal[0] if the order finds nothing |
| DeterministicPolicy.PreferredIsFirstOpen | DeterministicPolicy.py:67-72 | with an open column, the order's pick is open and every column listed before it is full |
| DeterministicPolicy.ActNeverFallsBack | DeterministicPolicy.py:74-75 | the fallback legal[0] is never reached: with an open column the order always finds one |
| DeterministicPolicy.PreferredFindsOpen | DeterministicPolicy.py:70-72 | any open column makes the order find an open column |
| MctsBoard.PiecesAboveBelowK | mcts.py:176-178 | the pieces counted in the first k rows are fewer than k exactly when one of those rows is empty |
| MctsBoard.CountBelowRowsIffEmpty | mcts.py:175-180 | a column's piece count is below the row count exactly when the column has an empty cell |
| MctsBoard.AvailableBelow | mcts.py:174-181 | the columns below n, ascending, whose piece count is below the row count |
| MctsBoard.LegalActions | mcts.py:170-183 | the ascending list of columns that have an empty cell, and only those |
| MctsBoard.LegalActionsAgree | mcts.py:170-183 | on a settled board the counting legal_actions equals the top-row test of DeterministicPolicy.py:8-9 |
| MctsBoard.WrapRow | mcts.py:195 | Python's index r - 1 lands in the board, wrapping -1 to the bottom row |
| MctsBoard.FirstPiece | mcts.py:193-196 | the first occupied row from r down, with only empty cells between |
| MctsBoard.Step | mcts.py:185-198 | step writes the player into exactly one cell of column a |
| MctsBoard.StepFillsLowest | mcts.py:185-198 | on a settled board, step fills the lowest empty cell of the column |
| MctsBoard.StepOnFullColumn | mcts.py:193-196 | on a full column, step overwrites the bottom cell through the index -1 |
| MctsBoard.StepAgreesWithDropPiece | mcts.py:185-198 | on a settled board with room in the column, step gives the board drop_piece gives |
| MctsBoard.StepProgress | mcts.py:185-198 | a legal step keeps the board settled, keeps every piece, and leaves one empty cell fewer |
| MctsBoard.FourIsScanned | mcts.py:205-227 | every four in a row, in any direction, is met by one of the four scans |
| MctsBoard.LineAtIsFour | mcts.py:205-227 | what a scan finds is a real four in a row |
| MctsBoard.ScansFindEveryFour | mcts.py:205-227 | the scans find a line exactly when the player has four in a row |
| MctsBoard.IsTerminalState | mcts.py:201-232 | terminal without tie exactly when the player has four; tie exactly when the player has none and the top row is full; a tie is terminal |
| MctsBoard.NotTerminalHasMove | mcts.py:229-232 | a settled board that is not terminal has a legal column |
| MctsTree.QInUnitRange | mcts.py:161-162 | Q = W / N stays within [-1, 1] |
| MctsTree.ChildAfterParent | mcts.py:106-119 | a child exists and has a larger id than its parent, and a smaller one than the next fresh id |
| MctsTree.Chain | mcts.py:148-164 | the nodes the parent links visit from x: they start at x, exist, never exceed x, and end at a node without parent |
| MctsTree.RootOnChain | mcts.py:150-164 | in a valid tree every parent chain reaches the root |
| MctsTree.ChainSameLinks | mcts.py:150-164 | changing anything but the parent links leaves every chain as it was |
| MctsTree.Reward | mcts.py:154-159 | the reward is 0 exactly for a tie, 1 exactly when the main player won, otherwise -1 |
| MctsTree.Visit | mcts.py:152-162 | one visit adds 1 to N and the reward to W, sets Q = W / N, keeps everything else, and keeps the statistics consistent |
| MctsTree.Backprop | mcts.py:147-164 | every node on the leaf's parent chain is visited once, every other node is unchanged, and no node is added or removed |
| MctsTree.StatsOnlyValid | mcts.py:152-162 | changing only statistics, and keeping them consistent, keeps the tree valid |
| MctsTree.BackpropValid | mcts.py:147-164 | backpropagation keeps the tree valid and raises the root's N by exactly one, whichever leaf it starts from |
| MctsTree.RemoveFirst | mcts.py:118 | list.remove takes away one occurrence of the value |
| MctsTree.RemoveFirstAscending | mcts.py:118 | removing from an ascending list keeps it ascending and removes exactly the value |
| MctsTree.Expand | mcts.py:93-121 | with no untried column nothing changes; otherwise a fresh leaf is added below x for some untried column a: a leaves the untried list and gains an edge to the leaf, and the leaf holds step(board, a), the other player, that board's legal actions, zero statistics and parent x |
| MctsTree.ExpandMovesOneAction | mcts.py:118-119 | expansion moves exactly one column from the untried list to the children, as a multiset |
| MctsTree.NewLeafOk | mcts.py:104-116 | the new leaf satisfies the node invariant |
| MctsTree.ExpandedNodeOk | mcts.py:118-119 | the expanded node still satisfies the node invariant |
| MctsTree.ChildBoardsDistinct | mcts.py:104-119 | two edges of one node lead to children with different boards, so at most one child holds a given board |
| MctsTree.StepsDiffer | mcts.py:104 | stepping into two different open columns gives two different boards |
| MctsTree.GrowShape | mcts.py:104-119 | expansion keeps every other node, adds the leaf under the next id with parent x, the stepped board and the other player, and changes only the untried list and children of x |
| MctsTree.GrowLinked | mcts.py:104-119 | after expansion ids still grow from parent to child and the root is still the only node without a parent |
| MctsTree.GrowEdgesBack | mcts.py:104-119 | after expansion every edge still leads to a node whose parent link points back |
| MctsTree.GrowEdgesStep | mcts.py:104-119 | after expansion every edge's child still holds the parent's board stepped with the edge's column, with the other player to move |
| MctsTree.GrowEdgesDistinct | mcts.py:104-119 | after expansion the edges of a node still lead to distinct children |
| MctsTree.GrowParentsBacked | mcts.py:104-119 | after expansion every parent link is still one of the parent's edges |
| MctsTree.ExpandValid | mcts.py:93-121 | expansion keeps the tree valid, keeps the root, its board and its N, and loses no node |
| MctsTree.ArgMax | mcts.py:89 | np.argmax: a maximal score, and the first one |
| MctsTree.FirstUnvisited | mcts.py:79-82 | the first child with N = 0; None exactly when every child was visited |
| MctsTree.SelectFrom | mcts.py:62-89 | the descent stops at an existing node where select stops, and that node descends from x |
| MctsTree.ChainThrough | mcts.py:62-89 | a chain that passes through a child also passes through its parent |
| MctsTree.Select | mcts.py:62-89 | select returns a node of the tree where the descent stops, lying below the root |
| MctsTree.Simulate | mcts.py:125-144 | the playout fails exactly when the start board has no legal column; otherwise the winner is 0 or one of the two players, a nonzero winner has four in a row, a 0 winner leaves a full top row, and the final board extends the start |
| MctsTree.SimulateFailsOnFullBoard | mcts.py:129-131 | on a board with a full top row, the playout fails in rng.choice |
| MctsTree.ExpandOnlyAction | mcts.py:101-116 | expanding a node whose one untried column has its lowest empty cell at the top hangs a new leaf whose board is the parent's with that cell filled by the node's player |
| MctsTree.ExpandThenSimulateFails | mcts.py:93-131 | expanding a root whose only empty cell tops column a yields a full leaf, and the playout from it fails |
| MctsTree.SimulatePlaysOnDecidedBoard | mcts.py:125-144 | from a board the last mover has already won, with a column left, the as-written playout succeeds and draws at least one more move, where the corrected playout reports that win without drawing |
| MctsTree.SimulateWinnerDiffers | mcts.py:125-144 | when the last mover already has four and the one empty cell, at the top of a column, gives the node's player no four, the as-written playout fills it and reports a tie while the corrected playout reports the last mover's win |
| MctsTree.Rollout | mcts.py:125-144 | the corrected playout never fails; its winner is 0 or a player, a winner has four, a 0 winner leaves a full top row, and the board only grows |
| MctsTree.RolloutSeesDecidedBoard | mcts.py:125-144 | on a board the last mover has already won, the corrected playout reports that winner without playing on |
| MctsTree.Run | mcts.py:42-53 | after k iterations the tree is valid and still has the same root and root board; no node is lost; the root's N has grown by exactly k |
| Heuristic.CenterPreference | our_policy.py:31-33 | the centre preference is in (0, 1] |
| Heuristic.CenterPreferenceTop | our_policy.py:31-33 | the preference is 1 exactly for the centre column 3 |
| Heuristic.CenterPreferenceSymmetric | our_policy.py:31-33 | columns at equal distance from the centre are preferred equally |
| Heuristic.CenterPreferenceDecreasing | our_policy.py:31-33 | a column closer to the centre is strictly preferred |
| Heuristic.EvalWindow | our_policy.py:49-69 | a window scores within ±100 and only seven values occur; exactly 100 when all four cells are the player's; exactly 5 for three own and one empty; exactly 2 for two own and two empty; exactly -100 for four of the opponent's; exactly -7 for three of the opponent's and one empty; exactly -1 for two of the opponent's and two empty |
| Heuristic.EvalWindowOneSided | our_policy.py:49-69 | a window holding both colours scores 0; a positive score means no opponent piece, a negative one no own piece |
| Heuristic.Cells | our_policy.py:74-90 | a window has four cells |
| Heuristic.AllWindows | our_policy.py:71-91 | 69 windows, all inside the board: the first 24 horizontal, the next 21 vertical, then 12 down-right diagonals and 12 up-right diagonals |
| Heuristic.LineIsWindow | our_policy.py:71-91 | every four in a row is one of the scored windows, with all four cells the player's |
| Heuristic.LineWindowCells | our_policy.py:71-91 | the window of a four in a row holds the player's colour in all four cells |
| Heuristic.FullWindowIsLine | our_policy.py:71-91 | a scored window full of the player's pieces is a four in a row |
| Heuristic.FourIffWindowScores100 | our_policy.py:49-91 | some window scores 100 exactly when the player has four in a row |
| Heuristic.SumWindows | our_policy.py:71-91 | the sum over n windows lies within ±100 n |
| Heuristic.Column | our_policy.py:45 | the centre column slice has one cell per row |
| Heuristic.HeuristicBoardScore | our_policy.py:35-93 | the board score lies within ±6903.6 (centre term plus 69 windows) |
| Heuristic.SumWindowsEmpty | our_policy.py:71-91 | windows of an empty board add nothing |
| Heuristic.EmptyCentre | our_policy.py:44-46 | the centre column of the empty board holds no piece of either colour |
| Heuristic.EmptyWindows | our_policy.py:71-91 | the windows of the empty board add nothing |
| Heuristic.EmptyBoardScoresZero | our_policy.py:35-93 | the empty board is worth 0 to either colour |
| Heuristic.EvaluateChild | our_policy.py:95-115 | with log(1 + N) >= 0 and Q in [-1, 1], every child scores above the -1e9 starting value of act |
| Heuristic.EvaluateChildFollowsQ | our_policy.py:95-115 | with everything else equal, a higher Q scores strictly higher |
| Heuristic.EvaluateChildPrefersCentre | our_policy.py:95-115 | with everything else equal, a more central column scores strictly higher |
| OurPolicy.FirstMatch | our_policy.py:123-124 | the first child, in insertion order, whose board equals s; None exactly when no child's board does |
| OurPolicy.MatchingChild | our_policy.py:120-129 | a matching root child exists exactly when some root child's board equals s, and it is a root child with that board |
| OurPolicy.Transplant | our_policy.py:125-127 | the promoted subtree holds exactly the nodes whose chain passes through c; c keeps its contents without a parent; the other nodes are unchanged |
| OurPolicy.BelowHasParent | our_policy.py:125-127 | a node of the subtree other than its top has a parent inside the subtree |
| OurPolicy.TransplantEdges | our_policy.py:125-127 | the promoted subtree keeps the labelled moves, the distinct children and the edges behind the parent links |
| OurPolicy.TransplantValid | our_policy.py:125-127 | the promoted subtree is a valid tree |
| OurPolicy.MatchIsUnique | our_policy.py:122-129 | the matching root child is the only root child whose board is s, so the first match is the only one |
| OurPolicy.MoveRootToMatchingChild | our_policy.py:120-129 | found exactly when a root child's board equals s; then the new root is that child with its N, W, Q, untried list and children, without a parent, in a valid tree; otherwise the tree is unchanged |
| OurPolicy.MoveRootAsWritten | our_policy.py:120-129 | the shallow copy: found under the same condition; the new root, at a fresh id, is the matching child with its board, N, W, Q, untried list and children and no parent, and every other node is kept as it was |
| OurPolicy.CopyAsRoot | our_policy.py:125-127 | the new root is node c with its parent link dropped and everything else (board, N, W, Q, untried list, children) kept; all old nodes are kept |
| OurPolicy.CopyLinked | our_policy.py:125-127 | the parentless copy under the fresh id keeps the parent links in order |
| OurPolicy.CopyMissesBackprop | our_policy.py:125-127 | backpropagation from an old node never reaches the parentless copy and leaves it unchanged |
| OurPolicy.ChainOfAddedNode | our_policy.py:125-127 | adding a node leaves every existing parent chain as it was |
| OurPolicy.AsWrittenRootMissesBackprop | our_policy.py:125-127 | after the shallow copy, backpropagation from any older node never reaches the new root and leaves its statistics frozen |
| OurPolicy.TransplantRootGetsBackprop | our_policy.py:125-127 | after the corrected move, backpropagation from any node of the reused subtree raises the new root's N by one |
| OurPolicy.ResetRoot | our_policy.py:143-154 | the fresh root is a valid one-node tree for s with the main player to move, s's legal columns untried, no children and zero statistics |
| OurPolicy.Kept | our_policy.py:159-175 | the child the choice loop keeps after the first k children has a score above -1e9 and at least every earlier score; none is kept only while every score so far is at most -1e9 |
| OurPolicy.KeptIsBest | our_policy.py:163-175 | the kept child is a best one: a greatest score, the first of that score unless it won the tie-break (more N, else more Q, else more central) against an earlier child of the same score, and no later child of equal score wins the tie-break against it |
| OurPolicy.ChooseBest | our_policy.py:159-175 | the loop returns exactly the child the fold keeps, which is a best child with a score above -1e9; None only when every score is below -1e9; KeyError only when a score equals -1e9; with all scores above -1e9 there is no error, and None exactly when there are no children |
| OurPolicy.ScoresAboveFloor | our_policy.py:160-169 | with consistent statistics every child's score is above -1e9, so the KeyError branch cannot be taken |
| OurPolicy.Reroot | our_policy.py:139-154 | after the first step of act the tree is valid and its root holds s; a reused root has no parent, a reset root is alone with N = 0 |
| OurPolicy.RootChildrenLegal | our_policy.py:162-175 | every root child is a legal column of s and carries consistent statistics |
| OurPolicy.Fallback | our_policy.py:177-180 | the random fallback answers exactly when s has an open column, and answers with one; otherwise rng.choice fails |
| OurPolicy.Act | our_policy.py:134-182 | act answers exactly when s has an open column, the answer is an open column, and the tree it leaves is valid and rooted at s; when the root has children the answer is the column of the root child the choice loop keeps, which is a best one (greatest score, ties settled by the tie-break), and only a childless root falls back on a random legal column |
| Tournament.LegalActions | tournament.py:21-22 | the loop returns the columns whose top cell is empty, equal to the recursive definition |
| Tournament.DropPiece | tournament.py:25-30 | -1 exactly when the column is full, with the board unchanged; otherwise the piece lands on the lowest empty cell; agrees with drop_piece of DeterministicPolicy.py:11-16 |
| Tournament.Walk | tournament.py:38-46 | one while loop counts exactly the run of the player's cells in its direction |
| Tournament.CheckWin | tournament.py:33-50 | the loops answer exactly what the recursive check_win answers |
| Tournament.Ply | tournament.py:74-94 | a pass that does not end the game leaves a settled board with fewer empty cells |
| Tournament.TurnIsInferred | DeterministicPolicy.py:43-49 | on a board reached by alternating turns, infer_player names the colour to move |
| Tournament.EmptyStart | tournament.py:67-72 | the opening position is settled, has no four, and has red to move |
| Tournament.MoveKeepsInvariants | tournament.py:84-94 | a legal move keeps the board settled and hands the turn over; it gives the opponent no four and adds one piece; check_win then holds exactly when the mover has four |
| Tournament.PlySound | tournament.py:74-94 | one pass either ends the game with a sound outcome or hands the other colour a position in play with one more piece |
| Tournament.SoundBack | tournament.py:74-94 | an outcome that is sound after a move is sound before it |
| Tournament.PlayOutcome | tournament.py:56-94 | every game has a sound outcome: the board stays settled; 0 exactly on a draw, which has a full top row and no four; a win leaves the winner's four and no four for the loser; an illegal answer loses for the player who gave it; every ply adds a piece |
| Tournament.ResultIsLastMover | tournament.py:80-88 | a decided game's result is the colour that infer_player says is not to move on the final board |
| Tournament.PlyStep | tournament.py:74-94 | the loop body, with the looping board rules, makes the same pass as the reference |
| Tournament.PlayFrom | tournament.py:74-94 | the game loop run from any settled position reaches the reference game from that position |
| Tournament.GameFromEmpty | tournament.py:56-94 | the game from the empty board ends with 0 exactly on a draw, a four for the winner only, no four after an illegal answer, the colour not to move as the decided result, and one piece per ply |
| Tournament.PlayGame | tournament.py:56-94 | play_game returns the reference game from the empty board; 0 exactly on a draw, which has a full top row and no four; a win leaves the winner's four only; a decided result is the colour not to move; the plies count the pieces played |
| Tournament.TallyFromA | tournament.py:107-125 | the recorded result is 1 exactly when A's colour won, -1 exactly when B's colour won, and 0 exactly on a draw |
| Tournament.RecordedGame | tournament.py:107-118 | one game as the series records it, after the colour swap of odd games |
| Tournament.RunTournament | tournament.py:100-130 | one recorded result per game in order; A's wins, B's wins and draws are the counts of 1, -1 and 0 in the log and add up to the number of games |

## Left out

- Printing, `input`, the `mount` and `finalize` calls, the saved `q_values.json` and the imports of outside policies are I/O with no effect on the modelled logic.
- Floating point: scores, Q and the heuristic are exact reals, and `np.log` and `np.sqrt` are parameters.
- `Q_global` and `N_global` of the search object are stored but never read by the modelled code.
- The `"main"` and `"tie"` keys of node dicts are never read.
- `set_root` and the constructor of the search build the same root that `OurPolicy.ResetRoot` builds. They are not modelled separately.
- MctsTree.Run: the time budget `time_limit` is replaced by an iteration count, because a clock is not a function of the inputs.
- MctsTree.Run: it uses the corrected `Rollout` rather than the as-written `simulate` (see Findings).
- OurPolicy.Act: requires a settled board, as every board of the game is. On a board with floating pieces, `step`'s wrap-around can keep a playout going forever.
- OurPolicy.Act: requires `log(1 + N) >= 0`, which holds for the real logarithm.
- OurPolicy.Act: uses the corrected root move (see Findings).
- OurPolicy.Act: runs the corrected `Rollout`; as written, act raises ValueError when s has a single empty cell and no root child matches, because the fresh root's only untried column fills the board and `simulate` then calls `rng.choice([])` (see Findings).
- Tournament.PlayGame: a policy object's private state is abstracted into the game and ply numbers it is handed. Any deterministic or seeded policy is such a function, but its internal evolution is not modelled.
- Tournament.DropPiece: requires a column index in range. Every call site passes a column that the legality check has already accepted.
- MctsBoard.Step: requires a column index in range. Its callers draw from the legal columns.
- DeterministicPolicy.InferPlayer: states only that the answer is a colour. What it means on boards reached by alternating play is stated by `Tournament.TurnIsInferred`.
- Heuristic.HeuristicBoardScore: states bounds, the empty-board value and, through `Heuristic.FourIffWindowScores100`, what a 100-point window means. The exact sum is its definition.
- `play.py`, `play_2.py` and `policy.py` (interactive play and the policy base class) are not part of this model.

## Findings

| source | as written | input that shows it | evidently intended | confidence | as-written member | corrected member |
|---|---|---|---|---|---|---|
| our_policy.py:125-127 | the matching child is shallow-copied into the new root, so the grandchildren's parent links still lead to the original child | a root with a child whose board equals s and which has a child g; after the move, backpropagation from g climbs through the old child and the old root, and the new root's N, W and Q never change | the reused child itself becomes the root, so later visits through its subtree count at the root | medium, not executed (in alternating play the new state has two more pieces than the root, so no child matches and the branch stays latent) | OurPolicy.AsWrittenRootMissesBackprop | OurPolicy.TransplantRootGetsBackprop |
| mcts.py:125-131 | simulate draws from `legal_actions(board)` before asking whether the node's board is already decided or full | a root board whose only empty cell is the top of column a: expand plays a and the leaf board is full, so `rng.choice([])` raises; and from a board the last mover has already won, with a column left, simulate draws a move and plays on (MctsTree.SimulatePlaysOnDecidedBoard), and when that last cell gives the node's player no four it reports a tie instead of the earlier win (MctsTree.SimulateWinnerDiffers) | a playout from a decided or full board reports that outcome without drawing | high, not executed | MctsTree.ExpandThenSimulateFails | MctsTree.Rollout |
