/** `MCTSGameController` of game_controllers.py: one search builds a fresh
    tree at the given position and repeats select, expand, simulate and
    update a given number of times (the source repeats them until a clock
    deadline), then answers with the move of the root's most played child.
 */
module GameControllers {
  import opened Wrappers
  import opened GameStates
  import opened MctsTree

  /** The default depth budget of a playout. */
  const MaxRolloutIterations: int := 1000

  /** `simulate`: a random playout on a private copy of `s`. Moves are
      played while any is left, so the board is filled even after a win;
      after each move the budget is decreased and, once it reaches zero,
      the playout is abandoned as a draw. `played` is the sequence of moves
      the playout made, alternating from the player to move at `s`, and
      `final` is the position they reach. */
  method Simulate(s: State, maxIterations: int)
    returns (r: Outcome, ghost final: State, ghost played: seq<nat>)
    requires ValidState(s)
    ensures PlayAll(s, played) == Some(final)
    ensures ValidState(final) && Extends(s, final)
    ensures |played| == CountCells(s.board, Empty) - CountCells(final.board, Empty)
    ensures |played| <= if maxIterations < 1 then 1 else maxIterations
    ensures r != Undecided
    ensures CountCells(s.board, Empty) > 0 && maxIterations <= CountCells(s.board, Empty) ==>
      r == Draw
    ensures CountCells(s.board, Empty) == 0 || maxIterations > CountCells(s.board, Empty) ==>
      Full(final.board) && r == GameResult(final)
  {
    var st := new TicTacToeState.Copy(s);
    ghost var empties := CountCells(s.board, Empty);
    var budget := maxIterations;
    played := [];
    var move := GetRandomMove(Moves(st.Value()));
    while move.Some?
      invariant st.Valid() && fresh(st.board)
      invariant PlayAll(s, played) == Some(st.Value())
      invariant |played| == empties - CountCells(st.board[..], Empty)
      invariant Extends(s, st.Value())
      invariant move.Some? ==> move.value in Moves(st.Value())
      invariant move.None? ==> Moves(st.Value()) == {}
      invariant CountCells(st.board[..], Empty) <= empties
      invariant budget == maxIterations - (empties - CountCells(st.board[..], Empty))
      invariant CountCells(st.board[..], Empty) == empties || budget > 0
      decreases CountCells(st.board[..], Empty)
    {
      PlayFillsOneCell(st.Value(), move.value);
      PlayAllSnoc(s, played, st.Value(), move.value);
      st.PlayMove(move.value);
      played := played + [move.value];
      move := GetRandomMove(Moves(st.Value()));
      budget := budget - 1;
      if budget <= 0 {
        final := st.Value();
        return Draw, final, played;
      }
    }
    final := st.Value();
    NoMovesDecided(final);
    NoMovesIffNoEmptyCells(final);
    r := GameResult(st.Value());
  }

  /** The index of the first child with the most plays, as Python's `max`
      with a key picks it. */
  method MostPlayedChild(nodes: seq<Node>, cs: seq<nat>) returns (k: nat)
    requires cs != []
    requires forall j :: 0 <= j < |cs| ==> cs[j] < |nodes|
    ensures FirstMostPlayed(nodes, cs, k)
  {
    k := 0;
    for j := 1 to |cs|
      invariant k < j
      invariant forall l :: 0 <= l < j ==> nodes[cs[l]].plays <= nodes[cs[k]].plays
      invariant forall l :: 0 <= l < k ==> nodes[cs[l]].plays < nodes[cs[k]].plays
    {
      if nodes[cs[j]].plays > nodes[cs[k]].plays {
        k := j;
      }
    }
  }

  /** One pass of the search loop from arena `a` to arena `b`, with its
      ghost witnesses: `sel` is the node `select` returned, `move` the move
      expanded there (if any), and `r` the outcome of a playout that plays
      `played` from the simulated node's position to the full board
      `final`. A node with nothing pending and no child is terminal, and
      its playout makes no move. */
  ghost predicate CycleStepVia(a: seq<Node>, b: seq<Node>, sel: nat, move: Option<nat>,
                               r: Outcome, final: State, played: seq<nat>)
  {
    && Counted(a) && Counted(b)
    && sel < |a| && DescendedThroughExpanded(a, sel) && ValidState(a[sel].state)
    && (a[sel].pending != {} || (a[sel].children == [] && Moves(a[sel].state) == {}))
    && ValidState(final) && Full(final.board) && r == GameResult(final) && r != Undecided
    && match move
       case Some(m) =>
         && m in a[sel].pending
         && Wf(Expanded(a, sel, m))
         && b == Bumped(Expanded(a, sel, m), |a|, r)
         && PlayAll(Expanded(a, sel, m)[|a|].state, played) == Some(final)
       case None =>
         && a[sel].pending == {}
         && b == Bumped(a, sel, r)
         && played == [] && final == a[sel].state
  }

  /** `b` is what one pass of the search loop can make of `a`. */
  ghost predicate CycleStep(a: seq<Node>, b: seq<Node>) {
    exists sel, move, r, final, played :: CycleStepVia(a, b, sel, move, r, final, played)
  }

  /** A pass of the search loop keeps the root's position, adds one play at
      the root, adds at most one node, and only ever takes moves out of
      pending sets. */
  lemma CycleStepGrows(a: seq<Node>, b: seq<Node>)
    requires CycleStep(a, b)
    ensures |a| <= |b| <= |a| + 1
    ensures b[0].state == a[0].state && b[0].plays == a[0].plays + 1
    ensures PendingShrinks(a, b)
  {
    var sel, move, r, final, played :| CycleStepVia(a, b, sel, move, r, final, played);
    match move
    case Some(m) =>
      var e := Expanded(a, sel, m);
      RootBumped(e, |a|, r);
      ExpandedShrinks(a, sel, m);
      BumpedShrinks(e, |a|, r);
      PendingShrinksTrans(a, e, b);
    case None =>
      RootBumped(a, sel, r);
      BumpedShrinks(a, sel, r);
  }

  /** Each arena of `trace` is what one pass of the search loop can make of
      the one before. */
  ghost predicate Traced(trace: seq<seq<Node>>) {
    forall k :: 0 <= k < |trace| - 1 ==> CycleStep(trace[k], trace[k + 1])
  }

  lemma TracedSnoc(trace: seq<seq<Node>>, b: seq<Node>)
    requires trace != [] && Traced(trace) && CycleStep(trace[|trace| - 1], b)
    ensures Traced(trace + [b])
  {
    var t := trace + [b];
    assert t[..|trace|] == trace && t[|trace|] == b;
    forall k | 0 <= k < |t| - 1
      ensures CycleStep(t[k], t[k + 1])
    {
      if k + 1 < |trace| {
        assert CycleStep(trace[k], trace[k + 1]);
      }
    }
  }

  class MctsGameController {
    /** The tree of the current search; `nodes[0]` is `root_node`. */
    var nodes: seq<Node>

    constructor ()
      ensures nodes == []
    {
      nodes := [];
    }

    /** `select_child_ucb`: the upper-confidence choice is left abstract;
        the result is one of the node's children. The key function takes the
        logarithm of the node's plays and divides by each child's plays, so
        the source needs all of them to be positive. */
    method SelectChildUcb(i: nat) returns (c: nat)
      requires Wf(nodes) && i < |nodes| && nodes[i].children != []
      requires nodes[i].plays >= 1
      requires forall c :: c in nodes[i].children ==> c < |nodes| && nodes[c].plays >= 1
      ensures c in nodes[i].children
      ensures i < c < |nodes| && nodes[c].parent == Some(i)
    {
      assert LinkedDown(nodes, i);
      assert nodes[i].children[0] in nodes[i].children;
      c :| c in nodes[i].children;
    }

    /** `select`: descend from the root while the current node has no
        pending move and has children. */
    method Select() returns (n: nat)
      requires Counted(nodes)
      ensures n < |nodes| && ValidState(nodes[n].state)
      ensures nodes[n].pending != {} || (nodes[n].children == [] && Moves(nodes[n].state) == {})
      ensures DescendedThroughExpanded(nodes, n)
      ensures nodes[0].pending != {} || nodes[0].children == [] ==> n == 0
    {
      n := 0;
      while nodes[n].pending == {} && nodes[n].children != []
        invariant n < |nodes|
        invariant DescendedThroughExpanded(nodes, n)
        invariant nodes[0].pending != {} || nodes[0].children == [] ==> n == 0
        decreases |nodes| - n
      {
        assert LinkedDown(nodes, n);
        NodePlayed(nodes, n);
        forall c | c in nodes[n].children
          ensures c < |nodes| && nodes[c].plays >= 1
        {
          NodePlayed(nodes, c);
        }
        var c := SelectChildUcb(n);
        assert forall a :: OnChain(nodes, c, a) <==> a == c || OnChain(nodes, n, a);
        n := c;
      }
      assert Accounted(nodes, n);
      if nodes[n].pending == {} {
        assert ChildMoves(nodes, []) == {};
      }
    }

    /** `expand_move`: take `m` out of node `i`'s pending moves and append
        a child for the position after `m`. A move that is not pending
        raises `KeyError` before anything changes; here it yields `None`. */
    method ExpandMove(i: nat, m: nat) returns (child: Option<nat>)
      requires Wf(nodes) && i < |nodes|
      modifies this
      ensures m in old(nodes[i].pending) ==>
        child == Some(|old(nodes)|) && nodes == Expanded(old(nodes), i, m)
      ensures m !in old(nodes[i].pending) ==> child == None && nodes == old(nodes)
      ensures Wf(nodes)
    {
      if m !in nodes[i].pending {
        return None;
      }
      ExpandedWf(nodes, i, m);
      assert Follows(nodes, i);
      child := Some(|nodes|);
      var node := nodes[i];
      nodes := nodes[i := node.(pending := node.pending - {m}, children := node.children + [|nodes|])]
        + [NewNode(Play(node.state, m), Some(i), Some(m))];
    }

    /** `expand`: some pending move of node `i` is expanded; the `assert`
        becomes the precondition. */
    method Expand(i: nat) returns (c: nat)
      requires Wf(nodes) && i < |nodes| && nodes[i].pending != {}
      modifies this
      ensures c == |old(nodes)|
      ensures exists m :: m in old(nodes[i].pending) && nodes == Expanded(old(nodes), i, m)
      ensures Wf(nodes)
    {
      var m :| m in nodes[i].pending;
      var child := ExpandMove(i, m);
      c := child.value;
    }

    /** `update`: walk the parent links from `n` to the root, adding one
        play and the node's credit for `r` at each. */
    method Update(n: nat, r: Outcome)
      requires Wf(nodes) && n < |nodes|
      modifies this
      ensures nodes == Bumped(old(nodes), n, r)
      ensures Wf(nodes)
    {
      BumpedWf(nodes, n, r);
      var cur: Option<nat> := Some(n);
      while cur.Some?
        invariant ParentsBefore(nodes) && |nodes| == |old(nodes)|
        invariant cur.Some? ==> cur.value < |nodes|
        invariant Bumped(old(nodes), n, r) == if cur.Some? then Bumped(nodes, cur.value, r) else nodes
        decreases if cur.Some? then cur.value + 1 else 0
      {
        var i := cur.value;
        var bumped := nodes[i := Bump(nodes[i], r)];
        assert SameShape(nodes, bumped);
        nodes := bumped;
        cur := nodes[i].parent;
      }
    }

    /** One pass of the search loop: select, expand if the selected node
        has a pending move, simulate from it, and update its chain. The
        tree grows by at most one node, the root gains exactly one play,
        and the play accounting is kept. `sel` is the node `select`
        returned, `move` the move expanded there (if any), and `r` the
        outcome of the playout, which plays `played` from the simulated
        node's position to the full board `final`. */
    method RunCycle()
      returns (ghost sel: nat, ghost move: Option<nat>, r: Outcome,
               ghost final: State, ghost played: seq<nat>)
      requires Counted(nodes)
      requires nodes[0].pending != {} || nodes[0].children != []
      modifies this
      ensures sel < |old(nodes)| && DescendedThroughExpanded(old(nodes), sel)
      ensures ValidState(old(nodes)[sel].state)
      ensures old(nodes)[sel].pending != {} ||
        (old(nodes)[sel].children == [] && Moves(old(nodes)[sel].state) == {})
      ensures ValidState(final) && Full(final.board) && r == GameResult(final)
      ensures r != Undecided
      ensures move.Some? ==>
        && move.value in old(nodes)[sel].pending
        && Wf(Expanded(old(nodes), sel, move.value))
        && nodes == Bumped(Expanded(old(nodes), sel, move.value), |old(nodes)|, r)
        && PlayAll(Play(old(nodes)[sel].state, move.value), played) == Some(final)
      ensures move.None? ==>
        && old(nodes)[sel].pending == {}
        && nodes == Bumped(old(nodes), sel, r)
        && played == [] && final == old(nodes)[sel].state
      ensures PendingShrinks(old(nodes), nodes)
      ensures Counted(nodes)
      ensures |old(nodes)| <= |nodes| <= |old(nodes)| + 1
      ensures nodes[0].state == old(nodes[0].state)
      ensures nodes[0].plays == old(nodes[0].plays) + 1
      ensures nodes[0].children != []
      ensures CycleStep(old(nodes), nodes)
    {
      var n := Select();
      sel := n;
      ghost var before := nodes;
      assert Follows(nodes, sel);
      if nodes[n].pending != {} {
        n := Expand(n);
        ghost var mv :| mv in before[sel].pending && nodes == Expanded(before, sel, mv);
        move := Some(mv);
        ExpandedCounted(before, sel, mv);
        ExpandedWf(before, sel, mv);
        ExpandedShrinks(before, sel, mv);
      } else {
        move := None;
        assert n != 0;
        assert CountedAt(nodes, n, 0);
        NoMovesIffNoEmptyCells(nodes[n].state);
      }
      assert CountedExcept(nodes, n);
      assert Follows(nodes, n);
      CountCellsTotal(nodes[n].state.board);
      r, final, played := Simulate(nodes[n].state, MaxRolloutIterations);
      ghost var mid := nodes;
      BumpedCounted(nodes, n, r);
      BumpedShrinks(nodes, n, r);
      RootBumped(nodes, n, r);
      Update(n, r);
      PendingShrinksTrans(before, mid, nodes);
      assert CycleStepVia(before, nodes, sel, move, r, final, played);
    }

    /** `get_next_move`: search from `state` for `iterations` cycles and
        answer with the move of the first most played root child. The
        `assert` that the game is not decided becomes the precondition, as
        does a positive iteration count (with none, `max` would be called on
        an empty list of children). `best` is that child's position among
        the root's children, and `trace` lists the tree before and after
        each cycle. */
    method GetNextMove(state: State, iterations: nat)
      returns (m: nat, best: nat, ghost trace: seq<seq<Node>>)
      requires ValidState(state) && GameResult(state) == Undecided
      requires iterations >= 1
      modifies this
      ensures Counted(nodes) && LinkedDown(nodes, 0)
      ensures nodes[0].state == state && nodes[0].plays == iterations
      ensures |nodes| <= iterations + 1
      ensures FirstMostPlayed(nodes, nodes[0].children, best)
      ensures m == nodes[nodes[0].children[best]].move.value
      ensures m in Moves(state)
      ensures |trace| == iterations + 1
      ensures trace[0] == [NewNode(state, None, None)] && trace[iterations] == nodes
      ensures forall k :: 0 <= k < iterations ==> CycleStep(trace[k], trace[k + 1])
    {
      if Moves(state) == {} {
        NoMovesDecided(state);
      }
      nodes := [NewNode(state, None, None)];
      assert Follows(nodes, 0) && LinkedDown(nodes, 0) && Adopted(nodes, 0);
      assert ChildMoves(nodes, []) == {} && Accounted(nodes, 0);
      assert CountedAt(nodes, 0, 0);
      trace := [nodes];
      var i := 0;
      while i < iterations
        invariant 0 <= i <= iterations
        invariant Counted(nodes)
        invariant nodes[0].state == state && nodes[0].plays == i
        invariant |nodes| <= i + 1
        invariant nodes[0].pending != {} || nodes[0].children != []
        invariant i > 0 ==> nodes[0].children != []
        invariant |trace| == i + 1 && trace[0] == [NewNode(state, None, None)] && trace[i] == nodes
        invariant Traced(trace)
      {
        ghost var sel, move, final, played;
        var r;
        sel, move, r, final, played := RunCycle();
        TracedSnoc(trace, nodes);
        trace := trace + [nodes];
        i := i + 1;
      }
      assert LinkedDown(nodes, 0);
      best := MostPlayedChild(nodes, nodes[0].children);
      var c := nodes[0].children[best];
      assert Follows(nodes, c);
      m := nodes[c].move.value;
    }
  }
}
