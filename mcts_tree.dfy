/** The search tree of game_controllers.py, as an arena.

    Every `MCTSNode` is an entry of `nodes: seq<Node>`; the root is entry 0,
    `parent` is the index of the parent entry and `children` lists the
    indices of the child entries in the order they were appended. A node
    is always added after its parent, so parents have smaller indices and
    the children of a node are listed in ascending order.
 */
module MctsTree {
  import opened Wrappers
  import opened GameStates

  datatype Node = Node(
    state: State,
    parent: Option<nat>,
    move: Option<nat>,
    plays: nat,
    score: real,
    pending: set<nat>,
    children: seq<nat>)

  /** `MCTSNode.__init__`: no plays, no score, every legal move pending,
      no children. */
  function NewNode(state: State, parent: Option<nat>, move: Option<nat>): (n: Node)
    requires ValidState(state)
    ensures n.state == state && n.parent == parent && n.move == move
    ensures n.plays == 0 && n.score == 0.0
    ensures n.pending == Moves(state) && n.children == []
  {
    Node(state, parent, move, 0, 0.0, Moves(state), [])
  }

  /** `get_score`: the credit an outcome is worth to the player to move at
      `node`. An undecided outcome compares unequal to both the draw
      sentinel and the player id, so it is worth 1.0. */
  function GetScore(node: Node, r: Outcome): (credit: real)
    ensures credit == 0.0 || credit == 0.5 || credit == 1.0
    ensures credit == 0.5 <==> r == Draw
    ensures credit == 0.0 <==> r == Win(node.state.next)
  {
    if r == Draw then 0.5
    else if r == Win(node.state.next) then 0.0
    else 1.0
  }

  /** The player who made the move into a node is the one credited when
      they win, and the two players' credits for a decided outcome add up
      to one. */
  lemma ScoreCreditsTheMover(parent: Node, child: Node, m: nat, r: Outcome)
    requires ValidState(parent.state) && m < 9 && parent.state.board[m] == Empty
    requires child.state == Play(parent.state, m)
    requires r != Undecided
    ensures r == Win(parent.state.next) ==> GetScore(child, r) == 1.0
    ensures GetScore(parent, r) + GetScore(child, r) == 1.0
  {
  }

  /* ----- shape of the tree ----- */

  /** Entry 0 is the only root; every other entry has an earlier parent. */
  ghost predicate ParentsBefore(nodes: seq<Node>) {
    && |nodes| >= 1
    && nodes[0].parent == None
    && nodes[0].move == None
    && forall i :: 0 < i < |nodes| ==>
         nodes[i].parent.Some? && nodes[i].parent.value < i && nodes[i].move.Some?
  }

  /** The children of entry `i` come after it, name it as parent, and are
      listed in ascending order (hence without repetition). */
  ghost predicate LinkedDown(nodes: seq<Node>, i: nat)
    requires i < |nodes|
  {
    var cs := nodes[i].children;
    && (forall k :: 0 <= k < |cs| ==> i < cs[k] < |nodes| && nodes[cs[k]].parent == Some(i))
    && (forall k, l :: 0 <= k < l < |cs| ==> cs[k] < cs[l])
  }

  ghost predicate ChildrenLinked(nodes: seq<Node>) {
    forall i :: 0 <= i < |nodes| ==> LinkedDown(nodes, i)
  }

  /** A non-root entry is listed among its parent's children. */
  ghost predicate Adopted(nodes: seq<Node>, i: nat)
    requires ParentsBefore(nodes) && i < |nodes|
  {
    i > 0 ==> i in nodes[nodes[i].parent.value].children
  }

  ghost predicate ParentsAdopt(nodes: seq<Node>)
    requires ParentsBefore(nodes)
  {
    forall i :: 0 <= i < |nodes| ==> Adopted(nodes, i)
  }

  /** Entry `i` holds a position whose pending moves are legal moves; a
      non-root entry holds its parent's position with its move played, and
      that move was legal there and is no longer pending. */
  ghost predicate Follows(nodes: seq<Node>, i: nat)
    requires ParentsBefore(nodes) && i < |nodes|
  {
    && ValidState(nodes[i].state)
    && nodes[i].pending <= Moves(nodes[i].state)
    && (i > 0 ==>
          var p, m := nodes[i].parent.value, nodes[i].move.value;
          && ValidState(nodes[p].state)
          && m in Moves(nodes[p].state)
          && m !in nodes[p].pending
          && nodes[i].state == Play(nodes[p].state, m))
  }

  /** Positions follow moves, and siblings were reached by different moves. */
  ghost predicate StatesFollowMoves(nodes: seq<Node>)
    requires ParentsBefore(nodes)
  {
    && (forall i :: 0 <= i < |nodes| ==> Follows(nodes, i))
    && (forall i, j :: 0 < i < j < |nodes| && nodes[i].parent == nodes[j].parent ==>
          nodes[i].move != nodes[j].move)
  }

  ghost predicate Shaped(nodes: seq<Node>) {
    && ParentsBefore(nodes)
    && ChildrenLinked(nodes)
    && ParentsAdopt(nodes)
    && StatesFollowMoves(nodes)
  }

  /** `0 <= score <= plays` at every node. */
  ghost predicate ScoresBounded(nodes: seq<Node>) {
    forall i :: 0 <= i < |nodes| ==> 0.0 <= nodes[i].score <= nodes[i].plays as real
  }

  /** The moves taken by the listed children. */
  ghost function ChildMoves(nodes: seq<Node>, cs: seq<nat>): set<nat> {
    set k | 0 <= k < |cs| && cs[k] < |nodes| && nodes[cs[k]].move.Some? :: nodes[cs[k]].move.value
  }

  /** Every legal move at entry `i` is either still pending or was taken by
      one of its children: `expand_move` only moves a move from the one to
      the other. */
  ghost predicate Accounted(nodes: seq<Node>, i: nat)
    requires i < |nodes|
  {
    && ValidState(nodes[i].state)
    && Moves(nodes[i].state) == nodes[i].pending + ChildMoves(nodes, nodes[i].children)
  }

  ghost predicate MovesAccounted(nodes: seq<Node>) {
    forall i :: 0 <= i < |nodes| ==> Accounted(nodes, i)
  }

  ghost predicate Wf(nodes: seq<Node>) {
    Shaped(nodes) && ScoresBounded(nodes) && MovesAccounted(nodes)
  }

  /** Only the moves of the listed children count. */
  lemma ChildMovesFrame(a: seq<Node>, b: seq<Node>, cs: seq<nat>)
    requires forall k :: 0 <= k < |cs| ==> cs[k] < |a| && cs[k] < |b|
    requires forall k :: 0 <= k < |cs| ==> a[cs[k]].move == b[cs[k]].move
    ensures ChildMoves(a, cs) == ChildMoves(b, cs)
  {
  }

  /** Listing one more child adds its move. */
  lemma ChildMovesAppend(nodes: seq<Node>, cs: seq<nat>, c: nat)
    requires c < |nodes| && nodes[c].move.Some?
    ensures ChildMoves(nodes, cs + [c]) == ChildMoves(nodes, cs) + {nodes[c].move.value}
  {
    var ds := cs + [c];
    assert ds[|cs|] == c;
    forall x | x in ChildMoves(nodes, cs)
      ensures x in ChildMoves(nodes, ds)
    {
      var k :| 0 <= k < |cs| && cs[k] < |nodes| && nodes[cs[k]].move.Some? && nodes[cs[k]].move.value == x;
      assert ds[k] == cs[k];
    }
  }

  /** Accounting depends only on positions, pending sets, children and
      moves. */
  lemma AccountedFrame(a: seq<Node>, b: seq<Node>)
    requires Shaped(a) && MovesAccounted(a) && SameShape(a, b)
    ensures MovesAccounted(b)
  {
    forall i | 0 <= i < |b|
      ensures Accounted(b, i)
    {
      assert LinkedDown(a, i) && Accounted(a, i);
      ChildMovesFrame(a, b, a[i].children);
    }
  }

  /** Two arenas that differ at most in plays and scores. */
  ghost predicate SameShape(a: seq<Node>, b: seq<Node>) {
    && |a| == |b|
    && forall i :: 0 <= i < |a| ==>
         && a[i].state == b[i].state && a[i].parent == b[i].parent
         && a[i].move == b[i].move && a[i].pending == b[i].pending
         && a[i].children == b[i].children
  }

  lemma ShapedFrame(a: seq<Node>, b: seq<Node>)
    requires Shaped(a) && SameShape(a, b)
    ensures Shaped(b)
  {
    assert ParentsBefore(b);
    forall i | 0 <= i < |b|
      ensures LinkedDown(b, i) && Adopted(b, i) && Follows(b, i)
    {
      assert LinkedDown(a, i) && Adopted(a, i) && Follows(a, i);
      if i > 0 {
        var p := a[i].parent.value;
        assert a[p].state == b[p].state && a[p].pending == b[p].pending;
        assert a[p].children == b[p].children;
      }
    }
  }

  /* ----- the ancestor chain ----- */

  /** `a` is `n` or one of its ancestors: the nodes `update` walks through. */
  ghost predicate OnChain(nodes: seq<Node>, n: nat, a: nat)
    requires ParentsBefore(nodes) && n < |nodes|
    ensures OnChain(nodes, n, a) ==> a <= n
    decreases n
  {
    a == n || (nodes[n].parent.Some? && OnChain(nodes, nodes[n].parent.value, a))
  }

  /** The root is an ancestor of every node. */
  lemma {:induction false} ChainReachesRoot(nodes: seq<Node>, n: nat)
    requires ParentsBefore(nodes) && n < |nodes|
    ensures OnChain(nodes, n, 0)
    decreases n
  {
    if n != 0 {
      ChainReachesRoot(nodes, nodes[n].parent.value);
    }
  }

  lemma {:induction false} OnChainFrame(a: seq<Node>, b: seq<Node>, n: nat, x: nat)
    requires ParentsBefore(a) && ParentsBefore(b) && n < |a| == |b|
    requires forall i :: 0 <= i < |a| ==> a[i].parent == b[i].parent
    ensures OnChain(a, n, x) == OnChain(b, n, x)
    decreases n
  {
    if a[n].parent.Some? {
      OnChainFrame(a, b, a[n].parent.value, x);
    }
  }

  /* ----- update ----- */

  /** One node's share of `update`: one more play and the credit for `r`. */
  function Bump(n: Node, r: Outcome): (b: Node)
    ensures b.plays == n.plays + 1 && b.score == n.score + GetScore(n, r)
    ensures b.(plays := n.plays, score := n.score) == n
  {
    n.(plays := n.plays + 1, score := n.score + GetScore(n, r))
  }

  /** The arena after `update(n, r)`: every node from `n` up to the root is
      bumped. */
  function Bumped(nodes: seq<Node>, n: nat, r: Outcome): (res: seq<Node>)
    requires ParentsBefore(nodes) && n < |nodes|
    ensures SameShape(nodes, res)
    ensures ScoresBounded(nodes) ==> ScoresBounded(res)
    decreases n
  {
    var next := nodes[n := Bump(nodes[n], r)];
    assert SameShape(nodes, next);
    match nodes[n].parent
    case None => next
    case Some(p) => Bumped(next, p, r)
  }

  /** `update` touches exactly the chain from `n` to the root. */
  lemma {:induction false} BumpedAt(nodes: seq<Node>, n: nat, r: Outcome, i: nat)
    requires ParentsBefore(nodes) && n < |nodes| && i < |nodes|
    ensures Bumped(nodes, n, r)[i] == if OnChain(nodes, n, i) then Bump(nodes[i], r) else nodes[i]
    decreases n
  {
    var next := nodes[n := Bump(nodes[n], r)];
    match nodes[n].parent
    case None =>
    case Some(p) =>
      assert SameShape(nodes, next);
      BumpedAt(next, p, r, i);
      OnChainFrame(nodes, next, p, i);
  }

  /** Each cycle's `update` adds one play to the root. */
  lemma RootBumped(nodes: seq<Node>, n: nat, r: Outcome)
    requires ParentsBefore(nodes) && n < |nodes|
    ensures Bumped(nodes, n, r)[0].plays == nodes[0].plays + 1
  {
    ChainReachesRoot(nodes, n);
    BumpedAt(nodes, n, r, 0);
  }

  lemma BumpedWf(nodes: seq<Node>, n: nat, r: Outcome)
    requires Wf(nodes) && n < |nodes|
    ensures Wf(Bumped(nodes, n, r))
  {
    ShapedFrame(nodes, Bumped(nodes, n, r));
    AccountedFrame(nodes, Bumped(nodes, n, r));
  }

  /* ----- expand_move ----- */

  /** The arena after `expand_move(m)` on node `i`: `m` leaves the pending
      set, and a new node for the position after `m` is appended to the
      arena and to `i`'s children. */
  function Expanded(nodes: seq<Node>, i: nat, m: nat): (res: seq<Node>)
    requires Wf(nodes) && i < |nodes| && m in nodes[i].pending
    ensures |res| == |nodes| + 1
    ensures res[i].pending == nodes[i].pending - {m} && res[i].pending < nodes[i].pending
    ensures res[i].children == nodes[i].children + [|nodes|]
    ensures res[i].state == nodes[i].state && res[i].plays == nodes[i].plays
    ensures res[i].score == nodes[i].score && res[i].parent == nodes[i].parent
    ensures res[i].move == nodes[i].move
    ensures forall j :: 0 <= j < |nodes| && j != i ==> res[j] == nodes[j]
    ensures res[|nodes|].parent == Some(i) && res[|nodes|].move == Some(m)
    ensures Follows(nodes, i) && res[|nodes|].state == Play(nodes[i].state, m)
    ensures res[|nodes|].plays == 0 && res[|nodes|].children == []
    ensures res[|nodes|] == NewNode(Play(nodes[i].state, m), Some(i), Some(m))
  {
    var n := nodes[i];
    assert Follows(nodes, i);
    nodes[i := n.(pending := n.pending - {m}, children := n.children + [|nodes|])]
      + [NewNode(Play(n.state, m), Some(i), Some(m))]
  }

  /** Expansion keeps the tree well formed and grows it by one node. */
  lemma ExpandedWf(nodes: seq<Node>, i: nat, m: nat)
    requires Wf(nodes) && i < |nodes| && m in nodes[i].pending
    ensures Wf(Expanded(nodes, i, m))
    ensures |Expanded(nodes, i, m)| == |nodes| + 1
  {
    var res := Expanded(nodes, i, m);
    var c := |nodes|;
    assert ParentsBefore(res);
    forall j | 0 <= j < |res|
      ensures LinkedDown(res, j) && Adopted(res, j) && Follows(res, j)
    {
      if j < c {
        ExpandedKeepsEntry(nodes, i, m, j);
      } else {
        assert Follows(nodes, i);
        assert c in res[i].children;
      }
    }
    forall j, j' | 0 < j < j' < |res| && res[j].parent == res[j'].parent
      ensures res[j].move != res[j'].move
    {
      if j' == c {
        assert Follows(nodes, j);
      }
    }
    ExpandedAccounted(nodes, i, m);
  }

  /** Expansion moves `m` from `i`'s pending set to its new child, and the
      new node has every legal move pending. */
  lemma ExpandedAccounted(nodes: seq<Node>, i: nat, m: nat)
    requires Wf(nodes) && i < |nodes| && m in nodes[i].pending
    ensures MovesAccounted(Expanded(nodes, i, m))
  {
    var res := Expanded(nodes, i, m);
    var c := |nodes|;
    forall j | 0 <= j < |res|
      ensures Accounted(res, j)
    {
      if j < c {
        assert LinkedDown(nodes, j) && Accounted(nodes, j);
        var cs := nodes[j].children;
        ChildMovesFrame(nodes, res, cs);
        if j == i {
          ChildMovesAppend(res, cs, c);
        }
      } else {
        assert ChildMoves(res, []) == {};
      }
    }
  }

  /** An entry that was already in the arena stays linked and consistent. */
  lemma ExpandedKeepsEntry(nodes: seq<Node>, i: nat, m: nat, j: nat)
    requires Wf(nodes) && i < |nodes| && m in nodes[i].pending && j < |nodes|
    requires ParentsBefore(Expanded(nodes, i, m))
    ensures LinkedDown(Expanded(nodes, i, m), j)
    ensures Adopted(Expanded(nodes, i, m), j)
    ensures Follows(Expanded(nodes, i, m), j)
  {
    var res := Expanded(nodes, i, m);
    assert LinkedDown(nodes, j) && Adopted(nodes, j) && Follows(nodes, j);
    var cs := res[j].children;
    forall k | 0 <= k < |cs|
      ensures j < cs[k] < |res| && res[cs[k]].parent == Some(j)
    {
      if k < |nodes[j].children| {
        assert cs[k] == nodes[j].children[k];
      }
    }
    if j > 0 {
      var p := nodes[j].parent.value;
      assert res[p].state == nodes[p].state;
      assert res[p].pending <= nodes[p].pending;
      assert nodes[p].children <= res[p].children;
      assert j in nodes[p].children;
    }
  }

  /** `b` keeps every node of `a` at its index with the same position and
      at most the same pending moves: expansion and update only take moves
      out of pending sets and never rewrite a position. */
  ghost predicate PendingShrinks(a: seq<Node>, b: seq<Node>) {
    && |a| <= |b|
    && forall j :: 0 <= j < |a| ==> b[j].pending <= a[j].pending && b[j].state == a[j].state
  }

  lemma ExpandedShrinks(nodes: seq<Node>, i: nat, m: nat)
    requires Wf(nodes) && i < |nodes| && m in nodes[i].pending
    ensures PendingShrinks(nodes, Expanded(nodes, i, m))
  {
  }

  lemma BumpedShrinks(nodes: seq<Node>, n: nat, r: Outcome)
    requires ParentsBefore(nodes) && n < |nodes|
    ensures PendingShrinks(nodes, Bumped(nodes, n, r))
  {
  }

  lemma PendingShrinksTrans(a: seq<Node>, b: seq<Node>, c: seq<Node>)
    requires PendingShrinks(a, b) && PendingShrinks(b, c)
    ensures PendingShrinks(a, c)
  {
  }

  /* ----- play accounting ----- */

  /** The plays of the listed children. */
  function ChildPlays(nodes: seq<Node>, cs: seq<nat>): (n: nat)
    requires forall k :: 0 <= k < |cs| ==> cs[k] < |nodes|
    ensures forall k :: 0 <= k < |cs| ==> nodes[cs[k]].plays <= n
  {
    if cs == [] then 0 else ChildPlays(nodes, cs[..|cs| - 1]) + nodes[cs[|cs| - 1]].plays
  }

  /** Only the plays of the listed children count. */
  lemma {:induction false} ChildPlaysFrame(a: seq<Node>, b: seq<Node>, cs: seq<nat>)
    requires forall k :: 0 <= k < |cs| ==> cs[k] < |a| && cs[k] < |b|
    requires forall k :: 0 <= k < |cs| ==> a[cs[k]].plays == b[cs[k]].plays
    ensures ChildPlays(a, cs) == ChildPlays(b, cs)
  {
    if cs != [] {
      ChildPlaysFrame(a, b, cs[..|cs| - 1]);
    }
  }

  /** Changing one listed child's plays changes the total by the same amount. */
  lemma {:induction false} ChildPlaysUpdate(nodes: seq<Node>, cs: seq<nat>, j: nat, x: Node)
    requires j < |nodes|
    requires forall k :: 0 <= k < |cs| ==> cs[k] < |nodes|
    requires forall k, l :: 0 <= k < l < |cs| ==> cs[k] < cs[l]
    ensures ChildPlays(nodes[j := x], cs) ==
      ChildPlays(nodes, cs) + (if j in cs then x.plays - nodes[j].plays else 0)
  {
    if cs != [] {
      var init := cs[..|cs| - 1];
      ChildPlaysUpdate(nodes, init, j, x);
      assert j in cs <==> j in init || j == cs[|cs| - 1];
      if j == cs[|cs| - 1] {
        assert j !in init;
      }
    }
  }

  /** The accounting at node `i`, short of `extra` plays: the root has as
      many plays as its children together; any other node has exactly one
      more, the playout that created it, unless it is a terminal leaf (no
      pending move, no child), which is simulated again at every visit. */
  ghost predicate CountedAt(nodes: seq<Node>, i: nat, extra: nat)
    requires i < |nodes| && LinkedDown(nodes, i)
  {
    if i == 0 then nodes[0].plays + extra == ChildPlays(nodes, nodes[0].children)
    else if nodes[i].pending == {} && nodes[i].children == [] then nodes[i].plays + extra >= 1
    else nodes[i].plays + extra == 1 + ChildPlays(nodes, nodes[i].children)
  }

  ghost predicate Counted(nodes: seq<Node>) {
    Wf(nodes) && forall i :: 0 <= i < |nodes| ==> CountedAt(nodes, i, 0)
  }

  /** The accounting between the expansion and the update of a cycle: it
      holds everywhere except at `n`, which lacks the one play the update
      is about to add. */
  ghost predicate CountedExcept(nodes: seq<Node>, n: nat) {
    && Wf(nodes) && n < |nodes|
    && CountedAt(nodes, n, 1)
    && forall i :: 0 <= i < |nodes| && i != n ==> CountedAt(nodes, i, 0)
  }

  /** Appending a fresh child keeps the accounting everywhere except at the
      new node, which still lacks its first play. */
  lemma ExpandedCounted(nodes: seq<Node>, i: nat, m: nat)
    requires Counted(nodes) && i < |nodes| && m in nodes[i].pending
    ensures CountedExcept(Expanded(nodes, i, m), |nodes|)
  {
    var res := Expanded(nodes, i, m);
    ExpandedWf(nodes, i, m);
    forall j | 0 <= j < |nodes|
      ensures CountedAt(res, j, 0)
    {
      assert LinkedDown(nodes, j);
      ChildPlaysFrame(nodes, res, nodes[j].children);
      if j == i {
        var cs := res[i].children;
        assert cs[..|cs| - 1] == nodes[i].children;
      }
      assert CountedAt(nodes, j, 0);
    }
  }

  /** One node's bump, seen from node `q`: `q`'s accounting is restored if
      `q` was the bumped node, moves one play short if `q` is its parent,
      and is otherwise untouched. */
  lemma BumpStep(nodes: seq<Node>, n: nat, r: Outcome, q: nat)
    requires Wf(nodes) && n < |nodes| && q < |nodes|
    requires CountedAt(nodes, q, if q == n then 1 else 0)
    ensures Wf(nodes[n := Bump(nodes[n], r)])
    ensures nodes[n].parent != Some(q) ==> CountedAt(nodes[n := Bump(nodes[n], r)], q, 0)
    ensures nodes[n].parent == Some(q) ==> CountedAt(nodes[n := Bump(nodes[n], r)], q, 1)
  {
    var next := nodes[n := Bump(nodes[n], r)];
    assert SameShape(nodes, next);
    ShapedFrame(nodes, next);
    AccountedFrame(nodes, next);
    assert LinkedDown(nodes, q) && Adopted(nodes, n);
    ChildPlaysUpdate(nodes, nodes[q].children, n, Bump(nodes[n], r));
    if n in nodes[q].children {
      var k :| 0 <= k < |nodes[q].children| && nodes[q].children[k] == n;
      assert nodes[n].parent == Some(q);
    }
  }

  /** `update` from a node lacking one play restores the accounting
      everywhere: each bumped node's parent gains one play among its
      children exactly when it gains one play itself. */
  lemma {:induction false} BumpedCounted(nodes: seq<Node>, n: nat, r: Outcome)
    requires CountedExcept(nodes, n)
    ensures Counted(Bumped(nodes, n, r))
    decreases n
  {
    var next := nodes[n := Bump(nodes[n], r)];
    BumpStep(nodes, n, r, n);
    forall q | 0 <= q < |nodes|
      ensures nodes[n].parent != Some(q) ==> CountedAt(next, q, 0)
      ensures nodes[n].parent == Some(q) ==> CountedAt(next, q, 1)
    {
      BumpStep(nodes, n, r, q);
    }
    match nodes[n].parent
    case None =>
      assert Bumped(nodes, n, r) == next;
      assert forall q :: 0 <= q < |next| ==> CountedAt(next, q, 0);
    case Some(p) =>
      assert Bumped(nodes, n, r) == Bumped(next, p, r);
      assert CountedExcept(next, p);
      BumpedCounted(next, p, r);
  }

  /** Under the accounting, every node other than the root has been
      played, and so has any node with a child. */
  lemma NodePlayed(nodes: seq<Node>, i: nat)
    requires Counted(nodes) && i < |nodes|
    requires i != 0 || nodes[i].children != []
    ensures nodes[i].plays >= 1
  {
    assert LinkedDown(nodes, i);
    assert CountedAt(nodes, i, 0);
    if i == 0 {
      var cs := nodes[0].children;
      var c := cs[|cs| - 1];
      assert 0 < c < |nodes|;
      assert LinkedDown(nodes, c);
      assert CountedAt(nodes, c, 0);
      assert ChildPlays(nodes, cs) == ChildPlays(nodes, cs[..|cs| - 1]) + nodes[c].plays;
    }
  }

  /* ----- a fresh tree and the step test ----- */

  /** A fresh root over the empty board is a well-formed tree with every
      cell pending. */
  lemma FreshRoot(root: seq<Node>)
    requires root == [NewNode(Initial(), None, None)]
    ensures Wf(root) && Counted(root)
    ensures root[0].pending == {0, 1, 2, 3, 4, 5, 6, 7, 8}
  {
    assert Follows(root, 0) && LinkedDown(root, 0) && Adopted(root, 0);
    assert ChildMoves(root, []) == {} && Accounted(root, 0);
    assert CountedAt(root, 0, 0);
    forall i: nat | i < 9
      ensures i in root[0].pending
    {
      assert Initial().board[i] == Empty;
    }
  }

  /** The step test of main.py: expanding moves 4 and then 1 at a fresh
      root gives it two children, in that order, each holding the position
      after its move from the root's own (unchanged) position, so player 0
      owns the cell in both. */
  lemma ExpandStepsVector(root: seq<Node>)
    requires root == [NewNode(Initial(), None, None)]
    ensures Wf(root) && 4 in root[0].pending
    ensures Wf(Expanded(root, 0, 4)) && 1 in Expanded(root, 0, 4)[0].pending
    ensures var t := Expanded(Expanded(root, 0, 4), 0, 1);
      && |t| == 3
      && t[0].pending == {0, 2, 3, 5, 6, 7, 8}
      && t[0].children == [1, 2]
      && t[0].state == Initial()
      && t[1].move == Some(4) && t[2].move == Some(1)
      && t[1].state.board[4] == Owned(0) && t[2].state.board[1] == Owned(0)
      && t[1].state.board[1] == Empty && t[2].state.board[4] == Empty
  {
    FreshRoot(root);
    ExpandedWf(root, 0, 4);
  }

  /* ----- select ----- */

  /** Every strict ancestor of `n` is fully expanded and has children: the
      only nodes `select` descends through. */
  ghost predicate DescendedThroughExpanded(nodes: seq<Node>, n: nat)
    requires ParentsBefore(nodes) && n < |nodes|
  {
    forall a :: 0 <= a < |nodes| && a != n && OnChain(nodes, n, a) ==>
      nodes[a].pending == {} && nodes[a].children != []
  }

  /* ----- the final choice ----- */

  /** Position `k` of `cs` holds a child with the most plays, and no earlier
      position does: Python's `max` keeps the first maximum. */
  ghost predicate FirstMostPlayed(nodes: seq<Node>, cs: seq<nat>, k: nat)
    requires forall j :: 0 <= j < |cs| ==> cs[j] < |nodes|
  {
    && k < |cs|
    && (forall j :: 0 <= j < |cs| ==> nodes[cs[j]].plays <= nodes[cs[k]].plays)
    && (forall j :: 0 <= j < k ==> nodes[cs[j]].plays < nodes[cs[k]].plays)
  }
}
