/** The search tree of MonteCarloTreeSearchConnectFour (mcts.py). Python
    nodes are dicts linked by object references; here they live in an arena
    map from ids to nodes, a child edge records the action key and the
    child's id, and a parent link is an optional id. The children list keeps
    the insertion order of the Python dict. */
module MctsTree {
  import opened Wrappers
  import opened Board
  import MB = MctsBoard

  type NodeId = nat

  /** A visit count the UCB formula may divide by. */
  type Visited = n: int | n > 0 witness 1

  datatype Edge = Edge(action: int, child: NodeId)

  datatype Node = Node(
    board: Board,
    player: int,
    untried: seq<int>,
    children: seq<Edge>,
    n: nat,
    w: int,
    q: real,
    parent: Option<NodeId>)

  datatype Tree = Tree(nodes: map<NodeId, Node>, root: NodeId, next: NodeId)

  // ---------------------------------------------------------------------
  // The tree invariant
  // ---------------------------------------------------------------------

  /** Every id is below the allocation counter and a parent has a smaller id
      than its child. */
  predicate Linked(t: Tree) {
    forall x :: x in t.nodes ==>
      && x < t.next
      && (t.nodes[x].parent.Some? ==> t.nodes[x].parent.value in t.nodes && t.nodes[x].parent.value < x)
  }

  /** The root is the one node without a parent. */
  predicate Rooted(t: Tree) {
    && t.root in t.nodes
    && forall x :: x in t.nodes ==> (t.nodes[x].parent.None? <==> x == t.root)
  }

  /** Each child edge leads to a node whose parent link points back. */
  predicate EdgesBack(t: Tree) {
    forall x, i :: x in t.nodes && 0 <= i < |t.nodes[x].children| ==>
      t.nodes[x].children[i].child in t.nodes && t.nodes[t.nodes[x].children[i].child].parent == Some(x)
  }

  /** Each edge is the move it is labelled with: the child holds the
      parent's board stepped with the edge's action by the parent's player,
      and the opponent is to move in it. */
  predicate EdgesStep(t: Tree) {
    forall x, i :: x in t.nodes && 0 <= i < |t.nodes[x].children| && t.nodes[x].children[i].child in t.nodes ==>
      && 0 <= t.nodes[x].children[i].action < Cols
      && t.nodes[t.nodes[x].children[i].child].board
         == MB.Step(t.nodes[x].board, t.nodes[x].children[i].action, t.nodes[x].player)
      && t.nodes[t.nodes[x].children[i].child].player == -t.nodes[x].player
  }

  /** No two edges of a node lead to the same child. */
  predicate EdgesDistinct(t: Tree) {
    forall x, i, j :: x in t.nodes && 0 <= i < j < |t.nodes[x].children| ==>
      t.nodes[x].children[i].child != t.nodes[x].children[j].child
  }

  /** Every parent link is one of the parent's edges. */
  predicate ParentsBacked(t: Tree) {
    forall x :: x in t.nodes && t.nodes[x].parent.Some? && t.nodes[x].parent.value in t.nodes ==>
      IsChildOf(t.nodes[t.nodes[x].parent.value], x)
  }

  predicate IsChildOf(nd: Node, x: NodeId) {
    exists i :: 0 <= i < |nd.children| && nd.children[i].child == x
  }

  /** N counts the visits, W sums rewards of at most 1 in size, Q = W / N. */
  predicate StatsOk(nd: Node) {
    && (nd.n == 0 ==> nd.w == 0 && nd.q == 0.0)
    && (nd.n > 0 ==> nd.q == nd.w as real / nd.n as real)
    && nd.w + nd.n >= 0 && nd.w <= nd.n
  }

  /** The action keys of a node: untried ones ascending and legal, child keys
      distinct, legal, and no longer untried. */
  predicate ActionsOk(nd: Node) {
    && Ascending(nd.untried)
    && (forall a :: a in nd.untried ==> 0 <= a < Cols && HasEmpty(nd.board, a))
    && (forall i, j :: 0 <= i < j < |nd.children| ==> nd.children[i].action != nd.children[j].action)
    && (forall i :: 0 <= i < |nd.children| ==>
          0 <= nd.children[i].action < Cols && HasEmpty(nd.board, nd.children[i].action)
          && nd.children[i].action !in nd.untried)
  }

  predicate NodeOk(nd: Node) {
    Settled(nd.board) && IsPlayer(nd.player) && ActionsOk(nd) && StatsOk(nd)
  }

  /** The nodes form the tree expand builds: linked, rooted, with every
      edge a labelled move backed by the child's parent link and every
      parent link backed by an edge. */
  predicate Valid(t: Tree) {
    && Linked(t) && Rooted(t) && EdgesBack(t)
    && EdgesStep(t) && EdgesDistinct(t) && ParentsBacked(t)
    && forall x :: x in t.nodes ==> NodeOk(t.nodes[x])
  }

  /** Q = W / N with |W| <= N keeps Q within [-1, 1]. */
  lemma QInUnitRange(nd: Node)
    requires StatsOk(nd)
    ensures -1.0 <= nd.q <= 1.0
  {
    if nd.n > 0 {
      DivUnit(nd.w as real, nd.n as real);
    }
  }

  lemma DivUnit(w: real, n: real)
    requires n > 0.0 && -n <= w <= n
    ensures -1.0 <= w / n <= 1.0
  {
    assert (w / n) * n == w;
  }

  /** Every child id is larger than its parent's. */
  lemma ChildAfterParent(t: Tree, x: NodeId, i: int)
    requires Linked(t) && EdgesBack(t) && x in t.nodes && 0 <= i < |t.nodes[x].children|
    ensures t.nodes[x].children[i].child in t.nodes
    ensures x < t.nodes[x].children[i].child < t.next
  {
  }

  // ---------------------------------------------------------------------
  // The parent chain
  // ---------------------------------------------------------------------

  /** The ids met following parent links from x, x first. */
  function Chain(t: Tree, x: NodeId): (c: seq<NodeId>)
    requires Linked(t) && x in t.nodes
    ensures |c| > 0 && c[0] == x
    ensures forall y :: y in c ==> y in t.nodes && y <= x
    ensures t.nodes[c[|c| - 1]].parent.None?
    decreases x
  {
    match t.nodes[x].parent
    case None => [x]
    case Some(y) => [x] + Chain(t, y)
  }

  /** Every parent chain of a valid tree ends at the root. */
  lemma RootOnChain(t: Tree, x: NodeId)
    requires Valid(t) && x in t.nodes
    ensures t.root in Chain(t, x)
  {
    var c := Chain(t, x);
    assert c[|c| - 1] in c;
  }

  /** Two trees with the same ids and parent links have the same chains. */
  lemma {:induction false} ChainSameLinks(t: Tree, t': Tree, x: NodeId)
    requires Linked(t) && x in t.nodes
    requires t'.nodes.Keys == t.nodes.Keys && t'.next == t.next
    requires forall y :: y in t.nodes ==> t'.nodes[y].parent == t.nodes[y].parent
    ensures Linked(t')
    ensures Chain(t', x) == Chain(t, x)
    decreases x
  {
    match t.nodes[x].parent
    case None =>
    case Some(y) => ChainSameLinks(t, t', y);
  }

  // ---------------------------------------------------------------------
  // backpropagate
  // ---------------------------------------------------------------------

  /** The reward of a playout for the main player: 0 for a tie, 1 when the
      main player won, -1 otherwise. */
  function Reward(winner: int, main: int): (r: int)
    ensures -1 <= r <= 1
    ensures r == 0 <==> winner == 0
    ensures r == 1 <==> winner != 0 && winner == main
  {
    if winner == 0 then 0 else if winner == main then 1 else -1
  }

  /** One visit: N and W grow and Q is recomputed; nothing else changes. */
  function Visit(nd: Node, reward: int): (nd': Node)
    ensures nd'.n == nd.n + 1 && nd'.w == nd.w + reward
    ensures nd'.q == nd'.w as real / nd'.n as real
    ensures nd'.(n := nd.n, w := nd.w, q := nd.q) == nd
    ensures StatsOk(nd) && -1 <= reward <= 1 ==> StatsOk(nd')
  {
    nd.(n := nd.n + 1, w := nd.w + reward, q := (nd.w + reward) as real / (nd.n + 1) as real)
  }

  /** backpropagate(leaf, winner) with the reward already chosen: every node
      on the chain from x to the root is visited once, and no other node
      changes. */
  function Backprop(t: Tree, x: NodeId, reward: int): (t': Tree)
    requires Linked(t) && x in t.nodes
    ensures t'.root == t.root && t'.next == t.next && t'.nodes.Keys == t.nodes.Keys
    ensures forall y :: y in Chain(t, x) ==> t'.nodes[y] == Visit(t.nodes[y], reward)
    ensures forall y :: y in t.nodes && y !in Chain(t, x) ==> t'.nodes[y] == t.nodes[y]
    decreases x
  {
    var t1 := t.(nodes := t.nodes[x := Visit(t.nodes[x], reward)]);
    match t.nodes[x].parent
    case None => t1
    case Some(y) =>
      ChainSameLinks(t, t1, y);
      assert x !in Chain(t, y);
      Backprop(t1, y, reward)
  }

  /** t' differs from t at most in the statistics N, W and Q. */
  predicate SameButStats(t: Tree, t': Tree) {
    && t'.root == t.root && t'.next == t.next && t'.nodes.Keys == t.nodes.Keys
    && forall y :: y in t.nodes ==>
         t'.nodes[y].(n := t.nodes[y].n, w := t.nodes[y].w, q := t.nodes[y].q) == t.nodes[y]
  }

  /** Changing statistics alone keeps a tree valid as long as they stay
      consistent. */
  lemma StatsOnlyValid(t: Tree, t': Tree)
    requires Valid(t) && SameButStats(t, t')
    requires forall y :: y in t'.nodes ==> StatsOk(t'.nodes[y])
    ensures Valid(t')
  {
    forall y | y in t.nodes
      ensures t'.nodes[y].parent == t.nodes[y].parent && t'.nodes[y].board == t.nodes[y].board
      ensures t'.nodes[y].player == t.nodes[y].player && t'.nodes[y].untried == t.nodes[y].untried
      ensures t'.nodes[y].children == t.nodes[y].children
    {
      var u := t'.nodes[y].(n := t.nodes[y].n, w := t.nodes[y].w, q := t.nodes[y].q);
      assert u.parent == t'.nodes[y].parent && u.board == t'.nodes[y].board;
    }
    assert Linked(t') && Rooted(t');
    assert EdgesBack(t');
    assert EdgesStep(t') && EdgesDistinct(t');
    forall y | y in t'.nodes && t'.nodes[y].parent.Some? && t'.nodes[y].parent.value in t'.nodes
      ensures IsChildOf(t'.nodes[t'.nodes[y].parent.value], y)
    {
      assert IsChildOf(t.nodes[t.nodes[y].parent.value], y);
    }
    forall y | y in t'.nodes ensures NodeOk(t'.nodes[y]) {
      assert NodeOk(t.nodes[y]);
    }
  }

  /** Backpropagation keeps the tree valid and adds one visit to the root. */
  lemma BackpropValid(t: Tree, x: NodeId, reward: int)
    requires Valid(t) && x in t.nodes && -1 <= reward <= 1
    ensures Valid(Backprop(t, x, reward))
    ensures Backprop(t, x, reward).nodes[t.root].n == t.nodes[t.root].n + 1
    ensures Backprop(t, x, reward).nodes[t.root].board == t.nodes[t.root].board
    ensures Backprop(t, x, reward).nodes[t.root].children == t.nodes[t.root].children
  {
    var t' := Backprop(t, x, reward);
    RootOnChain(t, x);
    forall y | y in t.nodes
      ensures t'.nodes[y].(n := t.nodes[y].n, w := t.nodes[y].w, q := t.nodes[y].q) == t.nodes[y]
      ensures StatsOk(t'.nodes[y])
    {
      if y in Chain(t, x) {
        assert t'.nodes[y] == Visit(t.nodes[y], reward);
      }
    }
    StatsOnlyValid(t, t');
    assert t'.nodes[t.root] == Visit(t.nodes[t.root], reward);
  }

  // ---------------------------------------------------------------------
  // expand
  // ---------------------------------------------------------------------

  /** list.remove: drop the first occurrence of x, if any. */
  function RemoveFirst(s: seq<int>, x: int): (r: seq<int>)
    ensures multiset(r) == multiset(s) - multiset{x}
  {
    if |s| == 0 then []
    else if s[0] == x then
      assert s == [s[0]] + s[1..];
      s[1..]
    else
      var rest := RemoveFirst(s[1..], x);
      assert s == [s[0]] + s[1..];
      [s[0]] + rest
  }

  /** The tail of an ascending list is ascending and above its head. */
  lemma AscendingTail(s: seq<int>)
    requires Ascending(s) && |s| > 0
    ensures Ascending(s[1..])
    ensures forall y :: y in s[1..] ==> y > s[0]
  {
    forall y | y in s[1..] ensures y > s[0] {
      var i :| 0 <= i < |s[1..]| && s[1..][i] == y;
      assert s[i + 1] == y;
    }
  }

  /** Removing from an ascending list keeps it ascending and drops exactly x. */
  lemma {:induction false} RemoveFirstAscending(s: seq<int>, x: int)
    requires Ascending(s)
    ensures Ascending(RemoveFirst(s, x))
    ensures forall y :: y in RemoveFirst(s, x) <==> y in s && y != x
  {
    if |s| > 0 {
      AscendingTail(s);
      assert s == [s[0]] + s[1..];
      assert forall y :: y in s <==> y == s[0] || y in s[1..];
      if s[0] != x {
        RemoveFirstAscending(s[1..], x);
        ConsAscending(s[0], RemoveFirst(s[1..], x));
        assert RemoveFirst(s, x) == [s[0]] + RemoveFirst(s[1..], x);
      } else {
        assert RemoveFirst(s, x) == s[1..];
      }
    }
  }

  /** A head below every element of an ascending list extends it. */
  lemma ConsAscending(h: int, r: seq<int>)
    requires Ascending(r) && forall y :: y in r ==> y > h
    ensures Ascending([h] + r)
  {
    assert forall j :: 0 <= j < |r| ==> r[j] in r;
  }

  /** Every entry is a column index. */
  predicate ColumnsOnly(s: seq<int>) {
    forall a :: a in s ==> 0 <= a < Cols
  }

  /** The result of expand: the expanded node, the tree after the
      expansion, and the new leaf (the node itself when nothing was left
      to try). */
  datatype Expansion = Expansion(tree: Tree, node: NodeId, leaf: NodeId)

  /** expand(s): take the untried action at index draw mod |untried| (the
      random draw of randint), step a copy of the board with it, and hang the
      new node under that action key. */
  function Expand(t: Tree, x: NodeId, draw: nat): (e: Expansion)
    requires Linked(t) && x in t.nodes && ColumnsOnly(t.nodes[x].untried)
    ensures e.node == x
    ensures |t.nodes[x].untried| == 0 ==> e == Expansion(t, x, x)
    ensures |t.nodes[x].untried| > 0 ==>
      && e.leaf == t.next && e.leaf !in t.nodes
      && e.tree.root == t.root && e.tree.next == t.next + 1
      && e.tree.nodes.Keys == t.nodes.Keys + {e.leaf}
      && (forall y :: y in t.nodes && y != x ==> e.tree.nodes[y] == t.nodes[y])
      && var nd, nd' := t.nodes[x], e.tree.nodes[x];
      && nd'.board == nd.board && nd'.player == nd.player && nd'.parent == nd.parent
      && nd'.n == nd.n && nd'.w == nd.w && nd'.q == nd.q
      && exists a ::
           && 0 <= a < Cols && a in nd.untried
           && multiset(nd'.untried) == multiset(nd.untried) - multiset{a}
           && nd'.children == nd.children + [Edge(a, e.leaf)]
           && e.tree.nodes[e.leaf] == Node(MB.Step(nd.board, a, nd.player), -nd.player,
                                           MB.LegalActions(MB.Step(nd.board, a, nd.player)),
                                           [], 0, 0, 0.0, Some(x))
  {
    var nd := t.nodes[x];
    if |nd.untried| == 0 then Expansion(t, x, x)
    else
      var a := nd.untried[draw % |nd.untried|];
      assert a in nd.untried;
      Expansion(Grow(t, x, a), x, t.next)
  }

  /** The tree with action a of node x tried: a leaves untried, the new node
      for the stepped board gets the next id and hangs under key a. */
  function Grow(t: Tree, x: NodeId, a: int): Tree
    requires x in t.nodes && 0 <= a < Cols
  {
    var nd := t.nodes[x];
    var b' := MB.Step(nd.board, a, nd.player);
    var child := Node(b', -nd.player, MB.LegalActions(b'), [], 0, 0, 0.0, Some(x));
    var nd' := nd.(untried := RemoveFirst(nd.untried, a), children := nd.children + [Edge(a, t.next)]);
    Tree(t.nodes[x := nd'][t.next := child], t.root, t.next + 1)
  }

  /** The action keys of a list of child edges, in order. */
  function ChildActions(es: seq<Edge>): seq<int> {
    seq(|es|, i requires 0 <= i < |es| => es[i].action)
  }

  /** Expansion moves exactly one action from untried to the child keys:
      together they hold the same actions as before. */
  lemma ExpandMovesOneAction(t: Tree, x: NodeId, draw: nat)
    requires Linked(t) && x in t.nodes && ColumnsOnly(t.nodes[x].untried) && |t.nodes[x].untried| > 0
    ensures var nd, nd' := t.nodes[x], Expand(t, x, draw).tree.nodes[x];
      && |nd'.untried| == |nd.untried| - 1
      && |nd'.children| == |nd.children| + 1
      && multiset(nd'.untried) + multiset(ChildActions(nd'.children))
         == multiset(nd.untried) + multiset(ChildActions(nd.children))
  {
    var nd := t.nodes[x];
    var a := nd.untried[draw % |nd.untried|];
    assert a in nd.untried;
    var nd' := Grow(t, x, a).nodes[x];
    assert nd' == nd.(untried := RemoveFirst(nd.untried, a), children := nd.children + [Edge(a, t.next)]);
    assert ChildActions(nd'.children) == ChildActions(nd.children) + [a];
    assert |multiset(nd'.untried)| == |multiset(nd.untried)| - 1;
  }

  /** The new leaf satisfies the node invariant. */
  lemma NewLeafOk(nd: Node, a: int, x: NodeId)
    requires NodeOk(nd) && a in nd.untried
    ensures NodeOk(Node(MB.Step(nd.board, a, nd.player), -nd.player,
                        MB.LegalActions(MB.Step(nd.board, a, nd.player)), [], 0, 0, 0.0, Some(x)))
  {
    MB.StepProgress(nd.board, a, nd.player);
  }

  /** The expanded node still satisfies the node invariant. */
  lemma ExpandedNodeOk(nd: Node, a: int, y: NodeId)
    requires NodeOk(nd) && a in nd.untried
    ensures NodeOk(nd.(untried := RemoveFirst(nd.untried, a), children := nd.children + [Edge(a, y)]))
  {
    RemoveFirstAscending(nd.untried, a);
    forall i | 0 <= i < |nd.children|
      ensures nd.children[i].action != a
    {
    }
  }

  /** Two edges of one node lead to different boards, so at most one child
      of a node holds a given board. */
  lemma ChildBoardsDistinct(t: Tree, x: NodeId, i: int, j: int)
    requires Valid(t) && x in t.nodes
    requires 0 <= i < |t.nodes[x].children| && 0 <= j < |t.nodes[x].children| && i != j
    ensures t.nodes[x].children[i].child in t.nodes && t.nodes[x].children[j].child in t.nodes
    ensures t.nodes[t.nodes[x].children[i].child].board != t.nodes[t.nodes[x].children[j].child].board
  {
    var nd := t.nodes[x];
    assert NodeOk(nd);
    ChildAfterParent(t, x, i);
    ChildAfterParent(t, x, j);
    StepsDiffer(nd.board, nd.children[i].action, nd.children[j].action, nd.player);
  }

  /** Steps into two different open columns give different boards. */
  lemma StepsDiffer(b: Board, a: int, a': int, p: int)
    requires Settled(b) && p != 0 && a != a'
    requires 0 <= a < Cols && 0 <= a' < Cols && HasEmpty(b, a) && HasEmpty(b, a')
    ensures MB.Step(b, a, p) != MB.Step(b, a', p)
  {
    var r :| 0 <= r < Rows && MB.Step(b, a, p) == Set(b, r, a, p);
    var r' :| 0 <= r' < Rows && MB.Step(b, a', p) == Set(b, r', a', p);
    MB.StepProgress(b, a, p);
    CountAfterSet(b, r, a, p, 0);
    assert b[r][a] == 0;
    assert MB.Step(b, a, p)[r][a] == p && MB.Step(b, a', p)[r][a] == 0;
  }

  /** Grow keeps every node but x, adds the leaf at the next id, and
      changes only the untried list and the children of x. */
  lemma GrowShape(t: Tree, x: NodeId, a: int)
    requires Linked(t) && x in t.nodes && 0 <= a < Cols
    ensures var g, nd := Grow(t, x, a), t.nodes[x];
      && t.next !in t.nodes && x != t.next
      && g.root == t.root && g.next == t.next + 1
      && g.nodes.Keys == t.nodes.Keys + {t.next}
      && (forall y :: y in t.nodes && y != x ==> g.nodes[y] == t.nodes[y])
      && g.nodes[x] == nd.(untried := RemoveFirst(nd.untried, a), children := nd.children + [Edge(a, t.next)])
      && g.nodes[t.next].parent == Some(x) && g.nodes[t.next].children == []
      && g.nodes[t.next].board == MB.Step(nd.board, a, nd.player) && g.nodes[t.next].player == -nd.player
  {
  }

  lemma GrowLinked(t: Tree, x: NodeId, a: int)
    requires Linked(t) && Rooted(t) && x in t.nodes && 0 <= a < Cols
    ensures Linked(Grow(t, x, a)) && Rooted(Grow(t, x, a))
  {
    var g := Grow(t, x, a);
    GrowShape(t, x, a);
    forall y | y in g.nodes
      ensures y < g.next
      ensures g.nodes[y].parent.Some? ==> g.nodes[y].parent.value in g.nodes && g.nodes[y].parent.value < y
      ensures g.nodes[y].parent.None? <==> y == g.root
    {
      if y != t.next {
        assert g.nodes[y].parent == t.nodes[y].parent;
      }
    }
  }

  lemma GrowEdgesBack(t: Tree, x: NodeId, a: int)
    requires Linked(t) && EdgesBack(t) && x in t.nodes && 0 <= a < Cols
    ensures EdgesBack(Grow(t, x, a))
  {
    var g := Grow(t, x, a);
    var nd := t.nodes[x];
    GrowShape(t, x, a);
    forall y, i | y in g.nodes && 0 <= i < |g.nodes[y].children|
      ensures g.nodes[y].children[i].child in g.nodes
      ensures g.nodes[g.nodes[y].children[i].child].parent == Some(y)
    {
      if y != t.next && !(y == x && i == |nd.children|) {
        assert g.nodes[y].children[i] == t.nodes[y].children[i];
        ChildAfterParent(t, y, i);
        var z := t.nodes[y].children[i].child;
        assert z != t.next;
        assert g.nodes[z].parent == t.nodes[z].parent;
      }
    }
  }

  lemma GrowEdgesStep(t: Tree, x: NodeId, a: int)
    requires Linked(t) && EdgesBack(t) && EdgesStep(t) && x in t.nodes && 0 <= a < Cols
    ensures EdgesStep(Grow(t, x, a))
  {
    var g := Grow(t, x, a);
    var nd := t.nodes[x];
    GrowShape(t, x, a);
    forall y, i | y in g.nodes && 0 <= i < |g.nodes[y].children| && g.nodes[y].children[i].child in g.nodes
      ensures 0 <= g.nodes[y].children[i].action < Cols
      ensures g.nodes[g.nodes[y].children[i].child].board
              == MB.Step(g.nodes[y].board, g.nodes[y].children[i].action, g.nodes[y].player)
      ensures g.nodes[g.nodes[y].children[i].child].player == -g.nodes[y].player
    {
      if y != t.next && !(y == x && i == |nd.children|) {
        var e := t.nodes[y].children[i];
        assert g.nodes[y].children[i] == e;
        ChildAfterParent(t, y, i);
        assert e.child != t.next;
        assert g.nodes[e.child].board == t.nodes[e.child].board && g.nodes[e.child].player == t.nodes[e.child].player;
        assert g.nodes[y].board == t.nodes[y].board && g.nodes[y].player == t.nodes[y].player;
      }
    }
  }

  lemma GrowEdgesDistinct(t: Tree, x: NodeId, a: int)
    requires Linked(t) && EdgesBack(t) && EdgesDistinct(t) && x in t.nodes && 0 <= a < Cols
    ensures EdgesDistinct(Grow(t, x, a))
  {
    var g := Grow(t, x, a);
    var nd := t.nodes[x];
    GrowShape(t, x, a);
    forall y, i, j | y in g.nodes && 0 <= i < j < |g.nodes[y].children|
      ensures g.nodes[y].children[i].child != g.nodes[y].children[j].child
    {
      if y == x && j == |nd.children| {
        ChildAfterParent(t, x, i);
        assert g.nodes[y].children[i] == nd.children[i];
      } else if y != t.next {
        assert g.nodes[y].children[i] == t.nodes[y].children[i];
        assert g.nodes[y].children[j] == t.nodes[y].children[j];
      }
    }
  }

  lemma GrowParentsBacked(t: Tree, x: NodeId, a: int)
    requires Linked(t) && ParentsBacked(t) && x in t.nodes && 0 <= a < Cols
    ensures ParentsBacked(Grow(t, x, a))
  {
    var g := Grow(t, x, a);
    var nd := t.nodes[x];
    GrowShape(t, x, a);
    forall y | y in g.nodes && g.nodes[y].parent.Some? && g.nodes[y].parent.value in g.nodes
      ensures IsChildOf(g.nodes[g.nodes[y].parent.value], y)
    {
      var pa := g.nodes[y].parent.value;
      if y == t.next {
        assert g.nodes[x].children[|nd.children|].child == y;
      } else {
        assert g.nodes[y].parent == t.nodes[y].parent;
        assert IsChildOf(t.nodes[pa], y);
        var i :| 0 <= i < |t.nodes[pa].children| && t.nodes[pa].children[i].child == y;
        assert g.nodes[pa].children[i] == t.nodes[pa].children[i];
      }
    }
  }

  lemma GrowNodesOk(t: Tree, x: NodeId, a: int)
    requires Valid(t) && x in t.nodes && a in t.nodes[x].untried
    ensures forall y :: y in Grow(t, x, a).nodes ==> NodeOk(Grow(t, x, a).nodes[y])
  {
    var nd := t.nodes[x];
    NewLeafOk(nd, a, x);
    ExpandedNodeOk(nd, a, t.next);
  }

  /** Expansion keeps the tree valid and leaves the root's board alone. */
  lemma ExpandValid(t: Tree, x: NodeId, draw: nat)
    requires Valid(t) && x in t.nodes
    ensures Valid(Expand(t, x, draw).tree)
    ensures Expand(t, x, draw).leaf in Expand(t, x, draw).tree.nodes
    ensures Expand(t, x, draw).tree.root == t.root
    ensures Expand(t, x, draw).tree.nodes[t.root].board == t.nodes[t.root].board
    ensures Expand(t, x, draw).tree.nodes[t.root].n == t.nodes[t.root].n
    ensures t.nodes.Keys <= Expand(t, x, draw).tree.nodes.Keys
  {
    var nd := t.nodes[x];
    if |nd.untried| > 0 {
      var a := nd.untried[draw % |nd.untried|];
      assert a in nd.untried;
      GrowLinked(t, x, a);
      GrowEdgesBack(t, x, a);
      GrowEdgesStep(t, x, a);
      GrowEdgesDistinct(t, x, a);
      GrowParentsBacked(t, x, a);
      GrowNodesOk(t, x, a);
    }
  }

  // ---------------------------------------------------------------------
  // select
  // ---------------------------------------------------------------------

  /** np.argmax: the first index of a largest score. */
  function ArgMax(s: seq<real>): (i: nat)
    requires |s| > 0
    ensures i < |s|
    ensures forall j :: 0 <= j < |s| ==> s[j] <= s[i]
    ensures forall j :: 0 <= j < i ==> s[j] < s[i]
  {
    if |s| == 1 then 0
    else
      var k := ArgMax(s[..|s| - 1]);
      assert forall j :: 0 <= j < |s| - 1 ==> s[..|s| - 1][j] == s[j];
      if s[|s| - 1] > s[k] then |s| - 1 else k
  }

  /** The position of the first child, in insertion order, not yet visited. */
  function FirstUnvisited(t: Tree, es: seq<Edge>): (r: Option<nat>)
    requires forall i :: 0 <= i < |es| ==> es[i].child in t.nodes
    ensures r.Some? ==> r.value < |es| && t.nodes[es[r.value].child].n == 0
    ensures r.Some? ==> forall j :: 0 <= j < r.value ==> t.nodes[es[j].child].n > 0
    ensures r.None? ==> forall j :: 0 <= j < |es| ==> t.nodes[es[j].child].n > 0
  {
    if |es| == 0 then None
    else if t.nodes[es[0].child].n == 0 then Some(0)
    else
      var r := FirstUnvisited(t, es[1..]);
      assert forall j :: 1 <= j < |es| ==> es[1..][j - 1] == es[j];
      if r.Some? then Some(r.value + 1) else None
  }

  /** The UCB scores of fully visited children: Q plus the exploration
      bonus, which receives max(1, N) of the parent and the child's N. The
      subset type makes the division in the bonus safe: no score is asked
      of an unvisited child. */
  function UcbScores(t: Tree, parentN: Visited, es: seq<Edge>, bonus: (Visited, Visited) -> real): seq<real>
    requires forall i :: 0 <= i < |es| ==> es[i].child in t.nodes && t.nodes[es[i].child].n > 0
  {
    seq(|es|, i requires 0 <= i < |es| && es[i].child in t.nodes && t.nodes[es[i].child].n > 0 =>
      t.nodes[es[i].child].q + bonus(parentN, t.nodes[es[i].child].n))
  }

  /** The three kinds of node select may stop at. */
  predicate Selectable(t: Tree, y: NodeId)
    requires y in t.nodes
  {
    |t.nodes[y].untried| > 0 || |t.nodes[y].children| == 0 || t.nodes[y].n == 0
  }

  /** select, from node x down: stop at a node with untried actions or
      without children; otherwise stop at the first unvisited child, or
      descend into the child of largest UCB score. */
  function SelectFrom(t: Tree, x: NodeId, bonus: (Visited, Visited) -> real): (y: NodeId)
    requires Valid(t) && x in t.nodes
    ensures y in t.nodes && Selectable(t, y)
    ensures x in Chain(t, y)
    decreases t.next - x
  {
    var nd := t.nodes[x];
    if |nd.untried| > 0 || |nd.children| == 0 then x
    else
      assert forall i :: 0 <= i < |nd.children| ==> nd.children[i].child in t.nodes && x < nd.children[i].child < t.next
      by {
        forall i | 0 <= i < |nd.children| {
          ChildAfterParent(t, x, i);
        }
      }
      var u := FirstUnvisited(t, nd.children);
      if u.Some? then
        var y := nd.children[u.value].child;
        assert Chain(t, y) == [y] + Chain(t, x);
        y
      else
        var parentN: Visited := if nd.n < 1 then 1 else nd.n;
        var k := ArgMax(UcbScores(t, parentN, nd.children, bonus));
        var c := nd.children[k].child;
        var y := SelectFrom(t, c, bonus);
        ChainThrough(t, y, c, x);
        y
  }

  /** When c's parent is x and c lies on y's chain, so does x. */
  lemma {:induction false} ChainThrough(t: Tree, y: NodeId, c: NodeId, x: NodeId)
    requires Linked(t) && y in t.nodes && c in t.nodes
    requires t.nodes[c].parent == Some(x) && c in Chain(t, y)
    ensures x in Chain(t, y)
    decreases y
  {
    if y != c {
      var p := t.nodes[y].parent.value;
      ChainThrough(t, p, c, x);
    }
  }

  /** select: the descent from the root. */
  function Select(t: Tree, bonus: (Visited, Visited) -> real): (y: NodeId)
    requires Valid(t)
    ensures y in t.nodes && Selectable(t, y)
    ensures t.root in Chain(t, y)
  {
    SelectFrom(t, t.root, bonus)
  }

  // ---------------------------------------------------------------------
  // simulate
  // ---------------------------------------------------------------------

  /** rng.choice on an empty list raises ValueError. */
  datatype SimError = EmptyChoice

  /** The winner of a playout (0 for a tie), the final board, and the
      position reached in the stream of random draws. */
  datatype Outcome = Outcome(winner: int, board: Board, cursor: nat)

  /** simulate, as written: play random legal moves (the draw rng(k) picks
      index rng(k) mod |actions|) for alternating players from the node's
      player on, until the player who just moved has four or the top row is
      full. It never asks whether the starting board is already decided. */
  function Simulate(b: Board, player: int, rng: nat -> nat, k: nat): (r: Result<Outcome, SimError>)
    requires Settled(b) && IsPlayer(player)
    ensures r.Failure? <==> |MB.LegalActions(b)| == 0
    ensures r.Success? ==> var o := r.value;
      && (o.winner == 0 || o.winner == player || o.winner == -player)
      && (o.winner != 0 ==> HasFour(o.board, o.winner))
      && (o.winner == 0 ==> TopRowFull(o.board))
      && Settled(o.board) && Extends(b, o.board)
      && o.cursor > k
    decreases CountBoard(b, 0)
  {
    var actions := MB.LegalActions(b);
    if |actions| == 0 then Failure(EmptyChoice)
    else
      var a := actions[rng(k) % |actions|];
      assert a in actions;
      MB.StepProgress(b, a, player);
      var b' := MB.Step(b, a, player);
      var st := MB.IsTerminalState(b', player);
      if st.terminal then Success(Outcome(if st.tie then 0 else player, b', k + 1))
      else
        MB.NotTerminalHasMove(b', player);
        Simulate(b', -player, rng, k + 1)
  }

  /** A playout from a board whose every column is full fails. */
  lemma SimulateFailsOnFullBoard(b: Board, player: int, rng: nat -> nat, k: nat)
    requires Settled(b) && IsPlayer(player) && TopRowFull(b)
    ensures Simulate(b, player, rng, k) == Failure(EmptyChoice)
  {
    if |MB.LegalActions(b)| > 0 {
      var c := MB.LegalActions(b)[0];
      assert c in MB.LegalActions(b);
      SettledRoomAtTop(b, c);
    }
  }

  /** A root whose board has one empty cell, at the top of column a: the
      only child expand can create has a full board, and the playout from
      that child fails. */
  lemma ExpandThenSimulateFails(t: Tree, draw: nat, rng: nat -> nat, k: nat, a: int)
    requires Valid(t) && 0 <= a < Cols
    requires t.nodes[t.root].untried == [a]
    requires forall r, c :: InBounds(r, c) && (r, c) != (0, a) ==> t.nodes[t.root].board[r][c] != 0
    requires t.nodes[t.root].board[0][a] == 0
    ensures var e := Expand(t, t.root, draw);
      && e.leaf != t.root
      && TopRowFull(e.tree.nodes[e.leaf].board)
      && Simulate(e.tree.nodes[e.leaf].board, e.tree.nodes[e.leaf].player, rng, k) == Failure(EmptyChoice)
  {
    var nd := t.nodes[t.root];
    assert NodeOk(nd);
    LastCellFills(nd.board, a, nd.player);
    ExpandOnlyAction(t, t.root, draw, a);
    var e := Expand(t, t.root, draw);
    var leaf := e.tree.nodes[e.leaf];
    SimulateFailsOnFullBoard(leaf.board, leaf.player, rng, k);
  }

  /** Expanding a node whose only untried action is a, with its lowest empty
      cell of a at the top, hangs a new leaf holding that cell filled. */
  lemma ExpandOnlyAction(t: Tree, x: NodeId, draw: nat, a: int)
    requires Linked(t) && x in t.nodes && 0 <= a < Cols && t.nodes[x].untried == [a]
    requires Settled(t.nodes[x].board) && IsLowestEmpty(t.nodes[x].board, a, 0)
    requires IsPlayer(t.nodes[x].player)
    ensures var e := Expand(t, x, draw);
      && e.leaf != x && e.leaf in e.tree.nodes
      && e.tree.nodes[e.leaf].board == Set(t.nodes[x].board, 0, a, t.nodes[x].player)
      && IsPlayer(e.tree.nodes[e.leaf].player)
  {
    var nd := t.nodes[x];
    assert nd.untried[draw % 1] == a;
    MB.StepFillsLowest(nd.board, a, 0, nd.player);
  }

  /** Filling the one empty cell, at the top of column a, fills the top row. */
  lemma LastCellFills(b: Board, a: int, p: int)
    requires 0 <= a < Cols && p != 0
    requires forall r, c :: InBounds(r, c) && (r, c) != (0, a) ==> b[r][c] != 0
    requires b[0][a] == 0
    ensures Settled(b) && IsLowestEmpty(b, a, 0)
    ensures Settled(Set(b, 0, a, p)) && TopRowFull(Set(b, 0, a, p))
  {
  }

  /** simulate as written does not look at the board it starts from: when
      the player who moved into the node already has four and a column is
      left, it draws a move and plays on instead of reporting that win. */
  lemma SimulatePlaysOnDecidedBoard(b: Board, player: int, rng: nat -> nat, k: nat)
    requires Settled(b) && IsPlayer(player) && HasFour(b, -player) && !TopRowFull(b)
    ensures Simulate(b, player, rng, k).Success?
    ensures Simulate(b, player, rng, k).value.cursor > k
    ensures Simulate(b, player, rng, k).value != Rollout(b, player, rng, k)
  {
    var c :| 0 <= c < Cols && b[0][c] == 0;
    assert c in MB.LegalActions(b);
    RolloutSeesDecidedBoard(b, player, rng, k);
  }

  /** The two playouts disagree on who won: the player who moved into the
      node already has four and one cell is left, at the top of column a,
      which does not give the node's player four. simulate fills it and
      reports a tie; the rollout the search uses reports the earlier win. */
  lemma SimulateWinnerDiffers(b: Board, player: int, rng: nat -> nat, k: nat, a: int)
    requires IsPlayer(player) && 0 <= a < Cols && HasFour(b, -player)
    requires forall r, c :: InBounds(r, c) && (r, c) != (0, a) ==> b[r][c] != 0
    requires b[0][a] == 0
    requires !HasFour(Set(b, 0, a, player), player)
    ensures Settled(b)
    ensures Simulate(b, player, rng, k).Success? && Simulate(b, player, rng, k).value.winner == 0
    ensures Rollout(b, player, rng, k).winner == -player
  {
    LastCellFills(b, a, player);
    var actions := MB.LegalActions(b);
    assert a in actions;
    assert forall i :: 0 <= i < |actions| ==> actions[i] == a by {
      forall i | 0 <= i < |actions|
        ensures actions[i] == a
      {
        assert actions[i] in actions;
        assert HasEmpty(b, actions[i]);
      }
    }
    MB.StepFillsLowest(b, a, 0, player);
    RolloutSeesDecidedBoard(b, player, rng, k);
  }

  /** The playout the search uses: the node's board is first checked for
      the player who moved into it; only an undecided board is played out. */
  function Rollout(b: Board, player: int, rng: nat -> nat, k: nat): (o: Outcome)
    requires Settled(b) && IsPlayer(player)
    ensures o.winner == 0 || o.winner == player || o.winner == -player
    ensures o.winner != 0 ==> HasFour(o.board, o.winner)
    ensures o.winner == 0 ==> TopRowFull(o.board)
    ensures Extends(b, o.board)
  {
    var st := MB.IsTerminalState(b, -player);
    if st.terminal then Outcome(if st.tie then 0 else -player, b, k)
    else
      MB.NotTerminalHasMove(b, -player);
      Simulate(b, player, rng, k).value
  }

  /** On a board that the last mover has already won, the rollout reports
      that win instead of playing on. */
  lemma RolloutSeesDecidedBoard(b: Board, player: int, rng: nat -> nat, k: nat)
    requires Settled(b) && IsPlayer(player) && HasFour(b, -player)
    ensures Rollout(b, player, rng, k) == Outcome(-player, b, k)
  {
  }

  // ---------------------------------------------------------------------
  // run
  // ---------------------------------------------------------------------

  /** run(), with the wall-clock loop replaced by a number of iterations:
      select, expand, play out, backpropagate. */
  method Run(t: Tree, iterations: nat, main: int, rng: nat -> nat, cursor: nat,
             bonus: (Visited, Visited) -> real)
    returns (t': Tree, cursor': nat)
    requires Valid(t)
    ensures Valid(t')
    ensures t'.root == t.root && t.nodes.Keys <= t'.nodes.Keys
    ensures t'.nodes[t.root].board == t.nodes[t.root].board
    ensures t'.nodes[t.root].n == t.nodes[t.root].n + iterations
  {
    t', cursor' := t, cursor;
    var i := 0;
    while i < iterations
      invariant 0 <= i <= iterations
      invariant Valid(t') && t'.root == t.root && t.nodes.Keys <= t'.nodes.Keys
      invariant t'.nodes[t.root].board == t.nodes[t.root].board
      invariant t'.nodes[t.root].n == t.nodes[t.root].n + i
    {
      var x := Select(t', bonus);
      var e := Expand(t', x, rng(cursor'));
      ExpandValid(t', x, rng(cursor'));
      var leaf := e.tree.nodes[e.leaf];
      var o := Rollout(leaf.board, leaf.player, rng, cursor' + 1);
      var reward := Reward(o.winner, main);
      BackpropValid(e.tree, e.leaf, reward);
      t' := Backprop(e.tree, e.leaf, reward);
      cursor' := o.cursor;
      i := i + 1;
    }
  }
}
