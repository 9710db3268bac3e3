/** MyPolicy (our_policy.py): between turns it tries to reuse the subtree
    of the root child whose board is the new state, otherwise starts a fresh
    root; it runs the search and answers with the root child of best
    combined score. */
module OurPolicy {
  import opened Wrappers
  import opened Board
  import MB = MctsBoard
  import opened MctsTree
  import H = Heuristic

  // ---------------------------------------------------------------------
  // _move_root_to_matching_child
  // ---------------------------------------------------------------------

  /** The position of the first edge, in insertion order, whose child's
      board equals s (np.array_equal). */
  function FirstMatch(t: Tree, es: seq<Edge>, s: Board): (m: Option<nat>)
    requires forall i :: 0 <= i < |es| ==> es[i].child in t.nodes
    ensures m.Some? ==> m.value < |es| && t.nodes[es[m.value].child].board == s
    ensures m.Some? ==> forall j :: 0 <= j < m.value ==> t.nodes[es[j].child].board != s
    ensures m.None? ==> forall j :: 0 <= j < |es| ==> t.nodes[es[j].child].board != s
  {
    if |es| == 0 then None
    else if t.nodes[es[0].child].board == s then Some(0)
    else
      var m := FirstMatch(t, es[1..], s);
      assert forall j :: 1 <= j < |es| ==> es[1..][j - 1] == es[j];
      if m.Some? then Some(m.value + 1) else None
  }

  /** Whether a child matched, and the tree afterwards. */
  datatype Moved = Moved(found: bool, tree: Tree)

  /** The subtree of c, with c promoted to root: c keeps its id and
      statistics and loses its parent link; every node that does not descend
      from c is dropped. */
  function Transplant(t: Tree, c: NodeId): (t': Tree)
    requires Valid(t) && c in t.nodes
    ensures t'.root == c && t'.next == t.next
    ensures forall y :: y in t'.nodes <==> y in t.nodes && c in Chain(t, y)
    ensures c in t'.nodes
    ensures t'.nodes[c] == t.nodes[c].(parent := None)
    ensures forall y :: y in t'.nodes && y != c ==> t'.nodes[y] == t.nodes[y]
  {
    assert Chain(t, c)[0] == c;
    Tree(map y | y in t.nodes && c in Chain(t, y) :: if y == c then t.nodes[y].(parent := None) else t.nodes[y],
         c, t.next)
  }

  /** A node other than c on whose chain c lies has a parent, and c lies on
      the parent's chain too. */
  lemma BelowHasParent(t: Tree, c: NodeId, y: NodeId)
    requires Valid(t) && y in t.nodes && c in Chain(t, y) && y != c
    ensures t.nodes[y].parent.Some?
    ensures c in Chain(t, t.nodes[y].parent.value)
  {
  }

  /** The promoted subtree is a valid tree on its own. */
  lemma TransplantValid(t: Tree, c: NodeId)
    requires Valid(t) && c in t.nodes
    ensures Valid(Transplant(t, c))
  {
    var t' := Transplant(t, c);
    forall y | y in t'.nodes && y != c
      ensures t'.nodes[y].parent.Some? && t'.nodes[y].parent.value in t'.nodes
    {
      BelowHasParent(t, c, y);
    }
    assert Linked(t');
    assert Rooted(t');
    forall y, i | y in t'.nodes && 0 <= i < |t'.nodes[y].children|
      ensures t'.nodes[y].children[i].child in t'.nodes
      ensures t'.nodes[t'.nodes[y].children[i].child].parent == Some(y)
    {
      var z := t.nodes[y].children[i].child;
      assert t'.nodes[y].children == t.nodes[y].children;
      ChildAfterParent(t, y, i);
      assert Chain(t, z) == [z] + Chain(t, y);
      assert c <= y;
    }
    assert EdgesBack(t');
    TransplantEdges(t, c);
    forall y | y in t'.nodes ensures NodeOk(t'.nodes[y]) {
      assert NodeOk(t.nodes[y]);
    }
  }

  /** The promoted subtree keeps the labelled moves, the distinct children
      and the edges behind the parent links. */
  lemma TransplantEdges(t: Tree, c: NodeId)
    requires Valid(t) && c in t.nodes
    ensures EdgesStep(Transplant(t, c)) && EdgesDistinct(Transplant(t, c)) && ParentsBacked(Transplant(t, c))
  {
    var t' := Transplant(t, c);
    forall y | y in t'.nodes
      ensures t'.nodes[y].board == t.nodes[y].board && t'.nodes[y].player == t.nodes[y].player
      ensures t'.nodes[y].children == t.nodes[y].children
    {
    }
    forall y, i | y in t'.nodes && 0 <= i < |t'.nodes[y].children| && t'.nodes[y].children[i].child in t'.nodes
      ensures 0 <= t'.nodes[y].children[i].action < Cols
      ensures t'.nodes[t'.nodes[y].children[i].child].board
              == MB.Step(t'.nodes[y].board, t'.nodes[y].children[i].action, t'.nodes[y].player)
      ensures t'.nodes[t'.nodes[y].children[i].child].player == -t'.nodes[y].player
    {
      assert t'.nodes[y].children[i] == t.nodes[y].children[i];
    }
    forall y | y in t'.nodes && t'.nodes[y].parent.Some? && t'.nodes[y].parent.value in t'.nodes
      ensures IsChildOf(t'.nodes[t'.nodes[y].parent.value], y)
    {
      var pa := t'.nodes[y].parent.value;
      assert y != c && t'.nodes[y].parent == t.nodes[y].parent;
      assert IsChildOf(t.nodes[pa], y);
    }
  }

  /** At most one root child holds s, so the child the move picks is the
      only candidate. */
  lemma MatchIsUnique(t: Tree, s: Board)
    requires Valid(t) && MatchingChild(t, s).Some?
    ensures var es := t.nodes[t.root].children;
      forall i :: 0 <= i < |es| && es[i].child in t.nodes && t.nodes[es[i].child].board == s
        ==> es[i].child == MatchingChild(t, s).value
  {
    var es := t.nodes[t.root].children;
    var m := MatchingChild(t, s).value;
    forall i | 0 <= i < |es| && es[i].child in t.nodes && t.nodes[es[i].child].board == s
      ensures es[i].child == m
    {
      var k :| 0 <= k < |es| && es[k].child == m;
      if k != i {
        ChildBoardsDistinct(t, t.root, i, k);
      }
    }
  }

  /** Some child of the root has board s. */
  predicate HasMatchingChild(t: Tree, s: Board)
    requires Valid(t)
  {
    exists i :: 0 <= i < |t.nodes[t.root].children| &&
                t.nodes[t.nodes[t.root].children[i].child].board == s
  }

  /** The first root child, in insertion order, whose board is s. */
  function MatchingChild(t: Tree, s: Board): (m: Option<NodeId>)
    requires Valid(t)
    ensures m.Some? <==> HasMatchingChild(t, s)
    ensures m.Some? ==> m.value in t.nodes && t.nodes[m.value].board == s
    ensures m.Some? ==> exists i :: 0 <= i < |t.nodes[t.root].children| && t.nodes[t.root].children[i].child == m.value
  {
    var es := t.nodes[t.root].children;
    assert forall i :: 0 <= i < |es| ==> es[i].child in t.nodes by {
      forall i | 0 <= i < |es| {
        ChildAfterParent(t, t.root, i);
      }
    }
    var k := FirstMatch(t, es, s);
    if k.None? then None else Some(es[k.value].child)
  }

  /** _move_root_to_matching_child with the subtree reused: the first root
      child whose board equals s becomes the root, keeping its N, W, Q,
      untried list and children, with no parent. */
  function MoveRootToMatchingChild(t: Tree, s: Board): (m: Moved)
    requires Valid(t)
    ensures m.found <==> HasMatchingChild(t, s)
    ensures !m.found ==> m.tree == t
    ensures m.found ==> Valid(m.tree) && m.tree.nodes[m.tree.root].board == s
    ensures m.found ==> exists i :: 0 <= i < |t.nodes[t.root].children| &&
                                    m.tree.root == t.nodes[t.root].children[i].child &&
                                    m.tree.nodes[m.tree.root] == t.nodes[m.tree.root].(parent := None)
  {
    var c := MatchingChild(t, s);
    if c.None? then Moved(false, t)
    else
      TransplantValid(t, c.value);
      Moved(true, Transplant(t, c.value))
  }

  /** _move_root_to_matching_child as written: `child.copy()` is a shallow
      copy, so the new root is a separate node (here: a fresh id) while the
      grandchildren's parent links still lead to the original child. */
  function MoveRootAsWritten(t: Tree, s: Board): (m: Moved)
    requires Valid(t)
    ensures m.found <==> HasMatchingChild(t, s)
    ensures !m.found ==> m.tree == t
    ensures m.found ==> m.tree.root == t.next && m.tree.next == t.next + 1 && m.tree.root in m.tree.nodes
    ensures m.found ==> m.tree.nodes == t.nodes[t.next := m.tree.nodes[m.tree.root]]
    ensures m.found ==> m.tree.nodes[m.tree.root].parent.None? && m.tree.nodes[m.tree.root].board == s
    ensures m.found ==> m.tree.nodes[m.tree.root] == t.nodes[MatchingChild(t, s).value].(parent := None)
  {
    var c := MatchingChild(t, s);
    if c.None? then Moved(false, t)
    else Moved(true, CopyAsRoot(t, c.value))
  }

  /** A parentless copy of node c stored under the fresh id, made the root.
      The Python copy is shallow: it shares c's children dict and untried
      list, so later expansions under the new root also show up in c. The
      arena gives the copy its own lists; no property here depends on that
      sharing. */
  function CopyAsRoot(t: Tree, c: NodeId): (t': Tree)
    requires c in t.nodes
    ensures t'.root == t.next && t'.next == t.next + 1 && t'.root in t'.nodes
    ensures t'.nodes[t'.root].parent.None? && t'.nodes[t'.root].board == t.nodes[c].board
    ensures t'.nodes == t.nodes[t.next := t'.nodes[t.next]]
    ensures t'.nodes[t'.root] == t.nodes[c].(parent := None)
  {
    Tree(t.nodes[t.next := t.nodes[c].(parent := None)], t.next, t.next + 1)
  }

  /** The parentless copy keeps the parent links in order. */
  lemma CopyLinked(t: Tree, c: NodeId)
    requires Linked(t) && c in t.nodes
    ensures Linked(CopyAsRoot(t, c))
  {
    assert t.next !in t.nodes;
  }

  /** Adding a node leaves the chains of the existing nodes alone. */
  lemma {:induction false} ChainOfAddedNode(t: Tree, t': Tree, x: NodeId)
    requires Linked(t) && Linked(t') && x in t.nodes
    requires forall y :: y in t.nodes ==> y in t'.nodes && t'.nodes[y] == t.nodes[y]
    ensures Chain(t', x) == Chain(t, x)
    decreases x
  {
    match t.nodes[x].parent
    case None =>
    case Some(y) => ChainOfAddedNode(t, t', y);
  }

  /** With the as-written transplant, backpropagation from a node below the
      matched child climbs to the old root and never reaches the new root:
      its N, W and Q stay frozen. */
  lemma AsWrittenRootMissesBackprop(t: Tree, s: Board, g: NodeId, reward: int)
    requires Valid(t) && g in t.nodes
    requires MoveRootAsWritten(t, s).found
    ensures Linked(MoveRootAsWritten(t, s).tree)
    ensures var t' := MoveRootAsWritten(t, s).tree;
      && t'.root !in Chain(t', g)
      && Backprop(t', g, reward).nodes[t'.root] == t'.nodes[t'.root]
  {
    var c := MatchingChild(t, s).value;
    assert MoveRootAsWritten(t, s).tree == CopyAsRoot(t, c);
    CopyMissesBackprop(t, c, g, reward);
  }

  /** Backpropagation from an old node never reaches a parentless copy
      stored under the fresh id. */
  lemma CopyMissesBackprop(t: Tree, c: NodeId, g: NodeId, reward: int)
    requires Linked(t) && c in t.nodes && g in t.nodes
    ensures Linked(CopyAsRoot(t, c))
    ensures var t' := CopyAsRoot(t, c);
      && t'.root !in Chain(t', g)
      && Backprop(t', g, reward).nodes[t'.root] == t'.nodes[t'.root]
  {
    var t' := CopyAsRoot(t, c);
    CopyLinked(t, c);
    ChainOfAddedNode(t, t', g);
    assert t'.root !in Chain(t, g);
  }

  /** With the corrected transplant, backpropagation from any node of the
      reused subtree reaches the new root. */
  lemma TransplantRootGetsBackprop(t: Tree, s: Board, g: NodeId, reward: int)
    requires Valid(t)
    requires MoveRootToMatchingChild(t, s).found
    requires g in MoveRootToMatchingChild(t, s).tree.nodes && -1 <= reward <= 1
    ensures var t' := MoveRootToMatchingChild(t, s).tree;
      Backprop(t', g, reward).nodes[t'.root].n == t'.nodes[t'.root].n + 1
  {
    var t' := MoveRootToMatchingChild(t, s).tree;
    BackpropValid(t', g, reward);
  }

  // ---------------------------------------------------------------------
  // act
  // ---------------------------------------------------------------------

  /** A fresh root for s: the main player to move, untried = legal_actions(s),
      no children, N = W = Q = 0. */
  function ResetRoot(s: Board, main: int): (t: Tree)
    requires Settled(s) && IsPlayer(main)
    ensures Valid(t) && t.nodes.Keys == {t.root}
    ensures t.nodes[t.root].board == s && t.nodes[t.root].player == main
    ensures forall a :: a in t.nodes[t.root].untried <==> 0 <= a < Cols && HasEmpty(s, a)
    ensures t.nodes[t.root].children == [] && t.nodes[t.root].n == 0 && t.nodes[t.root].w == 0
  {
    Tree(map[0 := Node(s, main, MB.LegalActions(s), [], 0, 0, 0.0, None)], 0, 1)
  }

  /** rng.choice of an empty list, or a key lookup with no best action yet. */
  datatype ActError = EmptyChoice | MissingKey

  /** The combined score of the child behind edge j. */
  function Score(t: Tree, es: seq<Edge>, j: int, main: int, log1p: nat -> real): real
    requires 0 <= j < |es| && es[j].child in t.nodes
  {
    var nd := t.nodes[es[j].child];
    H.EvaluateChild(es[j].action, nd.n, nd.q, nd.board, main, log1p)
  }

  /** What the choice loop of act reads of a child: its combined score and
      the tie-break keys N, Q and centre preference. */
  datatype Candidate = Candidate(score: real, n: nat, q: real, centre: real)

  /** The candidates of the children behind es, in insertion order. */
  function Candidates(t: Tree, es: seq<Edge>, main: int, log1p: nat -> real): (cs: seq<Candidate>)
    requires forall j :: 0 <= j < |es| ==> es[j].child in t.nodes
    ensures |cs| == |es|
    ensures forall j :: 0 <= j < |es| ==> cs[j].score == Score(t, es, j, main, log1p)
  {
    seq(|es|, j requires 0 <= j < |es| && es[j].child in t.nodes =>
      Candidate(Score(t, es, j, main, log1p), t.nodes[es[j].child].n, t.nodes[es[j].child].q,
                H.CenterPreference(es[j].action)))
  }

  /** The tie-break of act on equal scores: more visits, else higher Q, else
      a more central column. It is not transitive. */
  predicate Prefers(a: Candidate, b: Candidate) {
    a.n > b.n || a.q > b.q || a.centre > b.centre
  }

  /** The position the choice loop of act keeps after the first k
      candidates: None before any score above -1e9; a strictly greater
      score replaces the kept one, and an equal one replaces it when it
      wins the tie-break against the kept one. */
  function Kept(cs: seq<Candidate>, k: int): (r: Option<nat>)
    requires 0 <= k <= |cs|
    ensures r.Some? ==> r.value < k && cs[r.value].score > H.Floor
    ensures r.Some? ==> forall j :: 0 <= j < k ==> cs[j].score <= cs[r.value].score
    ensures r.None? ==> forall j :: 0 <= j < k ==> cs[j].score <= H.Floor
  {
    if k == 0 then None
    else
      var kept := Kept(cs, k - 1);
      var best := if kept.None? then H.Floor else cs[kept.value].score;
      if cs[k - 1].score > best then Some(k - 1)
      else if cs[k - 1].score == best && kept.Some? && Prefers(cs[k - 1], cs[kept.value]) then Some(k - 1)
      else kept
  }

  /** A best position among the first k candidates: a greatest score; the
      first of that score, or one that won the tie-break against an earlier
      candidate of the same score; and no later candidate of the same score
      wins the tie-break against it. */
  predicate IsBestUpTo(cs: seq<Candidate>, k: int, i: int)
    requires k <= |cs|
  {
    && 0 <= i < k
    && (forall j :: 0 <= j < k ==> cs[j].score <= cs[i].score)
    && ((forall j :: 0 <= j < i ==> cs[j].score < cs[i].score)
        || exists j :: 0 <= j < i && cs[j].score == cs[i].score && Prefers(cs[i], cs[j]))
    && (forall j :: i < j < k && cs[j].score == cs[i].score ==> !Prefers(cs[j], cs[i]))
  }

  predicate IsBest(cs: seq<Candidate>, i: int) {
    IsBestUpTo(cs, |cs|, i)
  }

  /** The kept position is a best one. The tie-break is not transitive, so
      several positions can be best; the fold names the one the loop keeps. */
  lemma {:induction false} KeptIsBest(cs: seq<Candidate>, k: int)
    requires 0 <= k <= |cs|
    ensures Kept(cs, k).Some? ==> IsBestUpTo(cs, k, Kept(cs, k).value)
  {
    if k > 0 {
      KeptIsBest(cs, k - 1);
      var kept := Kept(cs, k - 1);
      var r := Kept(cs, k);
      if r.Some? && kept.Some? && r.value == kept.value {
        assert IsBestUpTo(cs, k - 1, kept.value);
      } else if r.Some? && kept.Some? && cs[k - 1].score == cs[kept.value].score {
        assert Prefers(cs[k - 1], cs[kept.value]);
      }
    }
  }

  /** The choice loop of act: scan the children in order, keep a strictly
      better score, and on an equal score let the tie-break decide. An equal
      score before any child was kept is the KeyError of
      `children[best_action]` with best_action None. */
  method ChooseBest(cs: seq<Candidate>) returns (r: Result<Option<nat>, ActError>)
    ensures r.Success? ==> r.value == Kept(cs, |cs|)
    ensures r.Success? && r.value.Some? ==> IsBest(cs, r.value.value) && cs[r.value.value].score > H.Floor
    ensures r.Success? && r.value.None? ==> forall j :: 0 <= j < |cs| ==> cs[j].score < H.Floor
    ensures r.Failure? ==> r.error == MissingKey && exists j :: 0 <= j < |cs| && cs[j].score == H.Floor
    ensures (forall j :: 0 <= j < |cs| ==> cs[j].score > H.Floor) ==>
              r.Success? && (r.value.None? <==> |cs| == 0)
  {
    var best: Option<nat> := None;
    var bestScore := H.Floor;
    var k := 0;
    while k < |cs|
      invariant 0 <= k <= |cs|
      invariant best == Kept(cs, k)
      invariant best.None? ==> bestScore == H.Floor && forall j :: 0 <= j < k ==> cs[j].score < H.Floor
      invariant best.Some? ==> bestScore == cs[best.value].score
    {
      var c := cs[k];
      if c.score > bestScore {
        best, bestScore := Some(k), c.score;
      } else if c.score == bestScore {
        if best.None? {
          return Failure(MissingKey);
        }
        if Prefers(c, cs[best.value]) {
          best := Some(k);
        }
      }
      k := k + 1;
    }
    KeptIsBest(cs, |cs|);
    if best.None? && |cs| > 0 {
      assert cs[0].score < H.Floor;
    }
    return Success(best);
  }

  /** With consistent statistics and log(1 + N) >= 0 every score is above
      the starting -1e9, so the KeyError branch is never taken. */
  lemma ScoresAboveFloor(t: Tree, es: seq<Edge>, main: int, log1p: nat -> real)
    requires forall i :: 0 <= i < |es| ==> es[i].child in t.nodes && StatsOk(t.nodes[es[i].child])
    requires forall n :: log1p(n) >= 0.0
    ensures forall j :: 0 <= j < |es| ==> Score(t, es, j, main, log1p) > H.Floor
  {
    forall j | 0 <= j < |es| ensures Score(t, es, j, main, log1p) > H.Floor {
      QInUnitRange(t.nodes[es[j].child]);
    }
  }

  /** The first step of act: reuse the matching child's subtree when there
      is one, otherwise start again from a fresh root for s. Either way the
      tree is valid and its root holds s. */
  function Reroot(t: Tree, s: Board, main: int): (t': Tree)
    requires Valid(t) && Settled(s) && IsPlayer(main)
    ensures Valid(t') && t'.nodes[t'.root].board == s
    ensures HasMatchingChild(t, s) ==> t'.nodes[t'.root].parent.None? && t'.root in t.nodes
    ensures !HasMatchingChild(t, s) ==> t'.nodes.Keys == {t'.root} && t'.nodes[t'.root].n == 0
  {
    var m := MoveRootToMatchingChild(t, s);
    if m.found then m.tree else ResetRoot(s, main)
  }

  /** The root's children carry legal columns of the root board and
      consistent statistics. */
  lemma RootChildrenLegal(t: Tree, s: Board)
    requires Valid(t) && t.nodes[t.root].board == s
    ensures var es := t.nodes[t.root].children;
      forall i :: 0 <= i < |es| ==>
        && es[i].child in t.nodes && StatsOk(t.nodes[es[i].child])
        && 0 <= es[i].action < Cols && s[0][es[i].action] == 0
  {
    var es := t.nodes[t.root].children;
    forall i | 0 <= i < |es|
      ensures es[i].child in t.nodes && StatsOk(t.nodes[es[i].child])
      ensures 0 <= es[i].action < Cols && s[0][es[i].action] == 0
    {
      ChildAfterParent(t, t.root, i);
      assert NodeOk(t.nodes[t.root]);
      SettledRoomAtTop(s, es[i].action);
    }
  }

  /** The fallback of act when the root has no children: a uniformly drawn
      legal column of s, the draw being rng(cursor) mod |legal|; with no
      legal column, rng.choice fails. */
  method Fallback(s: Board, rng: nat -> nat, cursor: nat) returns (r: Result<int, ActError>, cursor': nat)
    requires Settled(s)
    ensures r.Success? <==> exists c :: 0 <= c < Cols && s[0][c] == 0
    ensures r.Success? ==> 0 <= r.value < Cols && s[0][r.value] == 0 && cursor' == cursor + 1
    ensures r.Failure? ==> r.error == ActError.EmptyChoice && cursor' == cursor
  {
    var legal := MB.LegalActions(s);
    if |legal| == 0 {
      forall c | 0 <= c < Cols ensures s[0][c] != 0 {
        SettledRoomAtTop(s, c);
        assert c !in legal;
      }
      r, cursor' := Failure(ActError.EmptyChoice), cursor;
    } else {
      var a := legal[rng(cursor) % |legal|];
      assert a in legal;
      SettledRoomAtTop(s, a);
      r, cursor' := Success(a), cursor + 1;
    }
  }

  /** act(s): reuse or reset the root, run the search, answer with the best
      root child, and fall back on a random legal column of s when the root
      has no children. It answers exactly when s has a free column, and the
      answer is one. */
  method Act(t: Tree, s: Board, main: int, iterations: nat, rng: nat -> nat, cursor: nat,
             bonus: (Visited, Visited) -> real, log1p: nat -> real)
    returns (r: Result<int, ActError>, t': Tree, cursor': nat)
    requires Valid(t) && Settled(s) && IsPlayer(main)
    requires forall n :: log1p(n) >= 0.0
    ensures Valid(t') && t'.nodes[t'.root].board == s
    ensures r.Success? <==> exists c :: 0 <= c < Cols && s[0][c] == 0
    ensures r.Success? ==> 0 <= r.value < Cols && s[0][r.value] == 0
    ensures r.Failure? ==> r.error == ActError.EmptyChoice
    ensures var es := t'.nodes[t'.root].children;
      && (forall i :: 0 <= i < |es| ==> es[i].child in t'.nodes)
      && (|es| > 0 ==> var cs := Candidates(t', es, main, log1p);
                       && Kept(cs, |cs|).Some?
                       && r == Success(es[Kept(cs, |cs|).value].action)
                       && IsBest(cs, Kept(cs, |cs|).value))
  {
    var t1 := Reroot(t, s, main);
    t', cursor' := Run(t1, iterations, main, rng, cursor, bonus);
    var es := t'.nodes[t'.root].children;
    RootChildrenLegal(t', s);
    ScoresAboveFloor(t', es, main, log1p);
    var best := ChooseBest(Candidates(t', es, main, log1p));
    assert best.Success?;
    if best.value.Some? {
      r := Success(es[best.value.value].action);
    } else {
      r, cursor' := Fallback(s, rng, cursor');
    }
  }
}
