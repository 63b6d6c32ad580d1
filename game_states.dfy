/** The game-state interface and the tic-tac-toe rules of game_states.py.

    A position is modelled twice: as the value `State` (what `deepcopy`
    duplicates, and what the search tree stores), and as the class
    `TicTacToeState`, whose `board` list is updated in place by `PlayMove`
    and which is proved against the functions on `State`.
 */
module GameStates {
  import opened Wrappers

  /** The two players; player 0 always moves first. */
  type Player = p: nat | p < 2

  /** A cell index, row by row from the top-left corner. */
  type Index = i: nat | i < 9

  /** A board cell: Python's `None`, 0 or 1. */
  datatype Cell = Empty | Owned(owner: Player)

  /** What `game_result` reports: `None`, the winner's id, or the draw
      sentinel 0.5. */
  datatype Outcome = Undecided | Win(winner: Player) | Draw

  /** A snapshot of a tic-tac-toe position. */
  datatype State = State(board: seq<Cell>, next: Player)

  ghost predicate ValidState(s: State) {
    |s.board| == 9
  }

  /** The other player. */
  function Opponent(p: Player): (q: Player)
    ensures q != p
  {
    1 - p
  }

  /** The position a fresh `TicTacToeState` holds. */
  function Initial(): (s: State)
    ensures ValidState(s) && s.next == 0
    ensures forall i :: 0 <= i < 9 ==> s.board[i] == Empty
  {
    State(seq(9, _ => Empty), 0)
  }

  /* ----- game_result ----- */

  /** The eight winning lines, in the order `game_result` checks them:
      rows, then columns, then the two diagonals. */
  const Lines: seq<(Index, Index, Index)> :=
    [(0, 1, 2), (3, 4, 5), (6, 7, 8),
     (0, 3, 6), (1, 4, 7), (2, 5, 8),
     (0, 4, 8), (2, 4, 6)]

  /** The player holding all three cells of line `k`, if any. */
  function LineOwner(b: seq<Cell>, k: nat): (o: Option<Player>)
    requires |b| == 9 && k < |Lines|
    ensures o.Some? ==>
      b[Lines[k].0] == Owned(o.value) && b[Lines[k].1] == Owned(o.value) && b[Lines[k].2] == Owned(o.value)
    ensures o.None? ==> b[Lines[k].0] == Empty || b[Lines[k].0] != b[Lines[k].1] || b[Lines[k].1] != b[Lines[k].2]
  {
    var (x, y, z) := Lines[k];
    if b[x] == b[y] && b[y] == b[z] && b[x] != Empty then Some(b[x].owner) else None
  }

  ghost predicate NoLineWon(b: seq<Cell>)
    requires |b| == 9
  {
    forall k :: 0 <= k < |Lines| ==> LineOwner(b, k).None?
  }

  /** Line `k` is won by `p` and no line before it in `Lines` is won. */
  ghost predicate FirstWonBy(b: seq<Cell>, k: nat, p: Player)
    requires |b| == 9
  {
    k < |Lines| && LineOwner(b, k) == Some(p) &&
    forall j :: 0 <= j < k ==> LineOwner(b, j).None?
  }

  predicate Full(b: seq<Cell>) {
    forall i :: 0 <= i < |b| ==> b[i] != Empty
  }

  /** The first won line at position `k` or later, scanning in list order. */
  function FirstWonLine(b: seq<Cell>, k: nat): (r: Option<nat>)
    requires |b| == 9 && k <= |Lines|
    ensures r.Some? ==> k <= r.value < |Lines| && LineOwner(b, r.value).Some?
    ensures r.Some? ==> forall j :: k <= j < r.value ==> LineOwner(b, j).None?
    ensures r.None? <==> forall j :: k <= j < |Lines| ==> LineOwner(b, j).None?
    decreases |Lines| - k
  {
    if k == |Lines| then None
    else if LineOwner(b, k).Some? then Some(k)
    else FirstWonLine(b, k + 1)
  }

  /** `game_result`: the owner of the first fully owned line; otherwise a
      draw on a full board; otherwise undecided. */
  function GameResult(s: State): (r: Outcome)
    requires ValidState(s)
    ensures r.Win? <==> !NoLineWon(s.board)
    ensures r.Win? ==> exists k :: 0 <= k < |Lines| && FirstWonBy(s.board, k, r.winner)
    ensures r == Draw <==> NoLineWon(s.board) && Full(s.board)
    ensures r == Undecided <==> NoLineWon(s.board) && !Full(s.board)
  {
    match FirstWonLine(s.board, 0)
    case Some(k) =>
      assert FirstWonBy(s.board, k, LineOwner(s.board, k).value);
      Win(LineOwner(s.board, k).value)
    case None =>
      if Full(s.board) then Draw else Undecided
  }

  /* ----- get_moves, play_move ----- */

  /** `get_moves`: the empty cells, whether or not a line is already won. */
  function Moves(s: State): (ms: set<nat>)
    requires ValidState(s)
    ensures forall i :: i in ms ==> i < 9 && s.board[i] == Empty
    ensures forall i: nat :: i < 9 && s.board[i] == Empty ==> i in ms
  {
    set i: nat | i < 9 && s.board[i] == Empty
  }

  /** `play_move` on a copy: the mover takes cell `m`, the turn passes. */
  function Play(s: State, m: nat): (t: State)
    requires ValidState(s) && m < 9 && s.board[m] == Empty
    ensures ValidState(t) && t.board[m] == Owned(s.next) && t.next == Opponent(s.next)
    ensures forall i :: 0 <= i < 9 && i != m ==> t.board[i] == s.board[i]
  {
    State(s.board[m := Owned(s.next)], Opponent(s.next))
  }

  lemma MovesAfterPlay(s: State, m: nat)
    requires ValidState(s) && m < 9 && s.board[m] == Empty
    ensures ValidState(Play(s, m))
    ensures Moves(Play(s, m)) == Moves(s) - {m}
    ensures Play(s, m).next != s.next
  {
  }

  /** A position with no moves left is decided: a win or a draw. */
  lemma NoMovesDecided(s: State)
    requires ValidState(s) && Moves(s) == {}
    ensures Full(s.board) && GameResult(s) != Undecided
  {
    forall i | 0 <= i < 9
      ensures s.board[i] != Empty
    {
      assert i !in Moves(s);
    }
  }

  /** Every cell of `s` already taken keeps its owner in `t`. */
  ghost predicate Extends(s: State, t: State)
    requires ValidState(s) && ValidState(t)
  {
    forall i :: 0 <= i < 9 && s.board[i] != Empty ==> t.board[i] == s.board[i]
  }

  /* ----- counting cells ----- */

  function CountCells(b: seq<Cell>, c: Cell): (n: nat)
    ensures n <= |b|
  {
    if b == [] then 0 else (if b[0] == c then 1 else 0) + CountCells(b[1..], c)
  }

  lemma {:induction false} CountCellsZero(b: seq<Cell>, c: Cell)
    ensures CountCells(b, c) == 0 <==> forall i :: 0 <= i < |b| ==> b[i] != c
  {
    if b != [] {
      CountCellsZero(b[1..], c);
      assert forall i :: 1 <= i < |b| ==> b[i] == b[1..][i - 1];
    }
  }

  lemma {:induction false} CountCellsUpdate(b: seq<Cell>, i: nat, x: Cell, c: Cell)
    requires i < |b|
    ensures CountCells(b[i := x], c) ==
      CountCells(b, c) - (if b[i] == c then 1 else 0) + (if x == c then 1 else 0)
  {
    if i == 0 {
      assert b[i := x][1..] == b[1..];
    } else {
      assert b[i := x][1..] == b[1..][i - 1 := x];
      CountCellsUpdate(b[1..], i - 1, x, c);
    }
  }

  /** Every cell is empty or owned by one of the two players. */
  lemma {:induction false} CountCellsTotal(b: seq<Cell>)
    ensures CountCells(b, Empty) + CountCells(b, Owned(0)) + CountCells(b, Owned(1)) == |b|
  {
    if b != [] {
      CountCellsTotal(b[1..]);
    }
  }

  /** Each move fills exactly one empty cell. */
  lemma PlayFillsOneCell(s: State, m: nat)
    requires ValidState(s) && m < 9 && s.board[m] == Empty
    ensures CountCells(Play(s, m).board, Empty) == CountCells(s.board, Empty) - 1
    ensures CountCells(Play(s, m).board, Owned(s.next)) == CountCells(s.board, Owned(s.next)) + 1
    ensures CountCells(Play(s, m).board, Owned(Opponent(s.next))) ==
      CountCells(s.board, Owned(Opponent(s.next)))
  {
    CountCellsUpdate(s.board, m, Owned(s.next), Empty);
    CountCellsUpdate(s.board, m, Owned(s.next), Owned(s.next));
    CountCellsUpdate(s.board, m, Owned(s.next), Owned(Opponent(s.next)));
  }

  /** No cells left to fill exactly when there are no moves. */
  lemma NoMovesIffNoEmptyCells(s: State)
    requires ValidState(s)
    ensures Moves(s) == {} <==> CountCells(s.board, Empty) == 0
  {
    CountCellsZero(s.board, Empty);
    if CountCells(s.board, Empty) != 0 {
      var i :| 0 <= i < 9 && s.board[i] == Empty;
      assert i in Moves(s);
    }
  }

  /* ----- sequences of moves ----- */

  /** Plays `ms` in order; `None` when some move hits a taken cell or
      lies off the board (the `assert` in `play_move` fails). */
  function PlayAll(s: State, ms: seq<nat>): (r: Option<State>)
    requires ValidState(s)
    ensures r.Some? ==> ValidState(r.value)
    decreases |ms|
  {
    if ms == [] then Some(s)
    else if ms[0] < 9 && s.board[ms[0]] == Empty then PlayAll(Play(s, ms[0]), ms[1..])
    else None
  }

  /** A legal sequence followed by one more legal move is legal, and ends
      in the position after that move. */
  lemma {:induction false} PlayAllSnoc(s: State, ms: seq<nat>, t: State, m: nat)
    requires ValidState(s) && PlayAll(s, ms) == Some(t)
    requires m < 9 && t.board[m] == Empty
    ensures PlayAll(s, ms + [m]) == Some(Play(t, m))
    decreases |ms|
  {
    if ms == [] {
      assert ms + [m] == [m];
    } else {
      assert (ms + [m])[1..] == ms[1..] + [m];
      PlayAllSnoc(Play(s, ms[0]), ms[1..], t, m);
    }
  }

  /** Player 0 holds as many cells as player 1, plus one when it is
      player 1's turn. */
  ghost predicate Balanced(s: State) {
    CountCells(s.board, Owned(0)) == CountCells(s.board, Owned(1)) + s.next
  }

  lemma {:induction false} PlayAllKeepsBalance(s: State, ms: seq<nat>, t: State)
    requires ValidState(s) && Balanced(s) && PlayAll(s, ms) == Some(t)
    ensures Balanced(t)
    ensures t.next == (s.next + |ms|) % 2
    ensures CountCells(t.board, Empty) == CountCells(s.board, Empty) - |ms|
    decreases |ms|
  {
    if ms != [] {
      var s' := Play(s, ms[0]);
      PlayFillsOneCell(s, ms[0]);
      assert Balanced(s');
      PlayAllKeepsBalance(s', ms[1..], t);
    }
  }

  /** After `k` legal moves from a fresh board it is player `k mod 2`'s turn,
      player 0 holds ceil(k/2) cells and player 1 floor(k/2). */
  lemma TurnsAlternate(ms: seq<nat>, t: State)
    requires PlayAll(Initial(), ms) == Some(t)
    ensures t.next == |ms| % 2
    ensures CountCells(t.board, Owned(0)) == (|ms| + 1) / 2
    ensures CountCells(t.board, Owned(1)) == |ms| / 2
  {
    InitialCounts();
    PlayAllKeepsBalance(Initial(), ms, t);
    CountCellsTotal(t.board);
    HalfSplit(|ms|, CountCells(t.board, Owned(0)), CountCells(t.board, Owned(1)));
  }

  lemma InitialCounts()
    ensures Balanced(Initial())
    ensures CountCells(Initial().board, Empty) == 9
  {
    var b := Initial().board;
    CountCellsZero(b, Owned(0));
    CountCellsZero(b, Owned(1));
    CountCellsTotal(b);
  }

  lemma HalfSplit(k: nat, c0: nat, c1: nat)
    requires c0 + c1 == k && c0 == c1 + k % 2
    ensures c0 == (k + 1) / 2 && c1 == k / 2
  {
  }

  /* ----- fixed games ----- */

  /** The position the main.py sequence reaches, cell by cell. */
  lemma DiagonalWinPlays()
    ensures PlayAll(Initial(), [4, 2, 6, 1, 0, 3, 8]) == Some(State(
      [Owned(0), Owned(1), Owned(1), Owned(1), Owned(0), Empty, Owned(0), Empty, Owned(0)], 1))
  {
    var e, o, x := Empty, Owned(0), Owned(1);
    var s1 := State([e, e, e, e, o, e, e, e, e], 1);
    var s2 := State([e, e, x, e, o, e, e, e, e], 0);
    var s3 := State([e, e, x, e, o, e, o, e, e], 1);
    var s4 := State([e, x, x, e, o, e, o, e, e], 0);
    var s5 := State([o, x, x, e, o, e, o, e, e], 1);
    var s6 := State([o, x, x, x, o, e, o, e, e], 0);
    var t := State([o, x, x, x, o, e, o, e, o], 1);
    assert Play(Initial(), 4) == s1 && Play(s1, 2) == s2 && Play(s2, 6) == s3;
    assert Play(s3, 1) == s4 && Play(s4, 0) == s5 && Play(s5, 3) == s6 && Play(s6, 8) == t;
    assert PlayAll(s6, [8]) == Some(t);
    assert PlayAll(s5, [3, 8]) == Some(t);
    assert PlayAll(s4, [0, 3, 8]) == Some(t);
    assert PlayAll(s3, [1, 0, 3, 8]) == Some(t);
    assert PlayAll(s2, [6, 1, 0, 3, 8]) == Some(t);
    assert PlayAll(s1, [2, 6, 1, 0, 3, 8]) == Some(t);
  }

  /** The sequence played in main.py: player 0 completes the diagonal 0-4-8. */
  lemma DiagonalWinVector()
    ensures PlayAll(Initial(), [4, 2, 6, 1, 0, 3, 8]).Some?
    ensures GameResult(PlayAll(Initial(), [4, 2, 6, 1, 0, 3, 8]).value) == Win(0)
  {
    DiagonalWinPlays();
    var t := State([Owned(0), Owned(1), Owned(1), Owned(1), Owned(0), Empty, Owned(0), Empty, Owned(0)], 1);
    assert LineOwner(t.board, 6) == Some(0);
  }

  /** Player 0 on 4, 8, 6 and player 1 on 0, 2 hold no line: the game goes on. */
  lemma FiveMovesUndecidedVector()
    ensures PlayAll(Initial(), [4, 0, 8, 2, 6]).Some?
    ensures GameResult(PlayAll(Initial(), [4, 0, 8, 2, 6]).value) == Undecided
  {
    var t := PlayAll(Initial(), [4, 0, 8, 2, 6]).value;
    assert t.board[7] == Empty;
    assert forall k :: 0 <= k < |Lines| ==> LineOwner(t.board, k).None?;
  }

  /** Moves are still offered after a win, and the reported winner is the
      owner of the first won line in list order: player 0 takes the middle
      row first, then player 1 takes the top row and becomes the winner. */
  lemma FirstLineWinsVector()
    ensures PlayAll(Initial(), [3, 0, 4, 1, 5]).Some?
    ensures GameResult(PlayAll(Initial(), [3, 0, 4, 1, 5]).value) == Win(0)
    ensures 2 in Moves(PlayAll(Initial(), [3, 0, 4, 1, 5]).value)
    ensures PlayAll(Initial(), [3, 0, 4, 1, 5, 2]).Some?
    ensures GameResult(PlayAll(Initial(), [3, 0, 4, 1, 5, 2]).value) == Win(1)
  {
    var t := PlayAll(Initial(), [3, 0, 4, 1, 5]).value;
    assert LineOwner(t.board, 1) == Some(0);
    var u := PlayAll(Initial(), [3, 0, 4, 1, 5, 2]).value;
    assert LineOwner(u.board, 0) == Some(1);
  }

  /* ----- __repr__ ----- */

  /** How `__repr__` shows a cell: a dot, or the owner's mark. */
  function Glyph(c: Cell): (g: char)
    ensures g == '.' <==> c == Empty
    ensures g == 'O' <==> c == Owned(0)
    ensures g == 'X' <==> c == Owned(1)
  {
    match c
    case Empty => '.'
    case Owned(p) => if p == 0 then 'O' else 'X'
  }

  /** What follows cell `i`: a line break after the last cell of a row. */
  function Separator(i: nat): (c: char)
    ensures c == '\n' <==> i % 3 == 2
    ensures c == '\n' || c == ' '
  {
    if i % 3 == 2 then '\n' else ' '
  }

  /** The text of the first `n` cells: each glyph followed by its separator. */
  function RenderPrefix(b: seq<Cell>, n: nat): (s: string)
    requires n <= |b|
    ensures |s| == 2 * n
    ensures forall i :: 0 <= i < n ==> s[2 * i] == Glyph(b[i]) && s[2 * i + 1] == Separator(i)
  {
    if n == 0 then "" else RenderPrefix(b, n - 1) + [Glyph(b[n - 1]), Separator(n - 1)]
  }

  /** `__repr__`: three lines of three glyphs, separated by spaces. */
  function Render(s: State): (t: string)
    requires ValidState(s)
    ensures |t| == 18
    ensures forall i :: 0 <= i < 9 ==> t[2 * i] == Glyph(s.board[i]) && t[2 * i + 1] == Separator(i)
  {
    RenderPrefix(s.board, 9)
  }

  lemma EmptyBoardText()
    ensures Render(Initial()) == ". . .\n. . .\n. . .\n"
  {
  }

  /* ----- the GameState base class ----- */

  /** `get_random_move`: `None` exactly when there is no move, otherwise
      some move of the set (the random choice is left unspecified). */
  method GetRandomMove(moves: set<nat>) returns (m: Option<nat>)
    ensures m.None? <==> moves == {}
    ensures m.Some? ==> m.value in moves
  {
    if moves == {} {
      m := None;
    } else {
      var x :| x in moves;
      m := Some(x);
    }
  }

  /** The interface every game implements, with its default behaviour:
      never decided and no moves. */
  class GameState {
    var nextTurnPlayer: Player

    constructor ()
      ensures nextTurnPlayer == 0
    {
      nextTurnPlayer := 0;
    }

    function GameResult(): (r: Outcome)
      ensures r == Undecided
    {
      Undecided
    }

    function GetMoves(): (ms: set<nat>)
      ensures ms == {}
    {
      {}
    }

    method PlayMove(m: nat) {
    }
  }

  /* ----- TicTacToeState ----- */

  class TicTacToeState {
    var board: array<Cell>
    var nextTurnPlayer: Player

    ghost predicate Valid()
      reads this
    {
      board.Length == 9
    }

    /** The position this object holds, as a value. */
    function Value(): (s: State)
      reads this, board
      requires Valid()
      ensures ValidState(s)
    {
      State(board[..], nextTurnPlayer)
    }

    constructor ()
      ensures Valid() && fresh(board)
      ensures Value() == Initial()
    {
      board := new Cell[9](_ => Empty);
      nextTurnPlayer := 0;
    }

    /** A deep copy of position `s`. */
    constructor Copy(s: State)
      requires ValidState(s)
      ensures Valid() && fresh(board)
      ensures Value() == s
    {
      board := new Cell[9](i requires 0 <= i < 9 => s.board[i]);
      nextTurnPlayer := s.next;
    }

    /** `play_move`: the `assert` becomes the precondition. */
    method PlayMove(m: Index)
      requires Valid() && board[m] == Empty
      modifies this, board
      ensures Valid() && board == old(board)
      ensures Value() == Play(old(Value()), m)
    {
      board[m] := Owned(nextTurnPlayer);
      nextTurnPlayer := 1 - nextTurnPlayer;
    }

    /** `__repr__`, building the string one cell at a time. */
    method Repr() returns (s: string)
      requires Valid()
      ensures s == Render(Value())
    {
      s := "";
      for i := 0 to 9
        invariant s == RenderPrefix(board[..], i)
      {
        s := s + [Glyph(board[i]), Separator(i)];
      }
    }
  }
}
