/** The earlier draft of the tic-tac-toe rules in ttt.py. It shares the
    board, the lines and the text rendering with game_states.py; it
    differs in reporting only whether the game is over, and in listing the
    moves, in ascending order, only for a game that is not over. The draft
    repeats the final version's board handling (constructor, `play_move`,
    `__repr__`) line for line, and so does this module.
 */
module TttDraft {
  import opened Wrappers
  import opened GameStates

  /** Some line at position `k` or later in `Lines` is fully owned. */
  function LineWonFrom(b: seq<Cell>, k: nat): (r: bool)
    requires |b| == 9 && k <= |Lines|
    ensures r <==> exists j :: k <= j < |Lines| && LineOwner(b, j).Some?
    decreases |Lines| - k
  {
    if k == |Lines| then false
    else LineOwner(b, k).Some? || LineWonFrom(b, k + 1)
  }

  /** `game_over`: a line is owned by one player, or the board is full. */
  function GameOver(b: seq<Cell>): (r: bool)
    requires |b| == 9
    ensures r <==> (exists j :: 0 <= j < |Lines| && LineOwner(b, j).Some?) || Full(b)
  {
    LineWonFrom(b, 0) || Full(b)
  }

  /** The draft's `game_over` agrees with the final `game_result`: the game
      is over exactly when the result is decided. */
  lemma GameOverIffDecided(s: State)
    requires ValidState(s)
    ensures GameOver(s.board) <==> GameResult(s) != Undecided
  {
  }

  /** The draft's interface class: always over, no moves, and a move
      returns the receiver itself. */
  class GameState {
    constructor () {
    }

    function GameOver(): (r: bool)
      ensures r
    {
      true
    }

    function GetMoves(): (ms: seq<nat>)
      ensures ms == []
    {
      []
    }

    function PlayMove(m: nat): (r: GameState)
      ensures r == this
    {
      this
    }
  }

  class TicTacToeState {
    var board: array<Cell>
    var nextTurnPlayer: Player

    ghost predicate Valid()
      reads this
    {
      board.Length == 9
    }

    function Value(): (s: State)
      reads this, board
      requires Valid()
      ensures ValidState(s)
    {
      State(board[..], nextTurnPlayer)
    }

    constructor ()
      ensures Valid() && fresh(board)
      ensures Value() == Initial()
    {
      board := new Cell[9](_ => Empty);
      nextTurnPlayer := 0;
    }

    /** `get_moves`: the `assert not self.game_over` becomes the
        precondition; the empty cells are appended in board order. */
    method GetMoves() returns (ms: seq<nat>)
      requires Valid() && !GameOver(board[..])
      ensures forall k :: 0 <= k < |ms| ==> ms[k] < 9
      ensures forall k, l :: 0 <= k < l < |ms| ==> ms[k] < ms[l]
      ensures forall i :: i in ms <==> i in Moves(Value())
    {
      ms := [];
      for i := 0 to 9
        invariant forall k :: 0 <= k < |ms| ==> ms[k] < i
        invariant forall k, l :: 0 <= k < l < |ms| ==> ms[k] < ms[l]
        invariant forall j: nat :: j in ms <==> j < i && board[j] == Empty
      {
        if board[i] == Empty {
          ms := ms + [i];
        }
      }
    }

    /** `play_move`: the `assert` becomes the precondition. */
    method PlayMove(m: Index)
      requires Valid() && board[m] == Empty
      modifies this, board
      ensures Valid() && board == old(board)
      ensures Value() == Play(old(Value()), m)
    {
      board[m] := Owned(nextTurnPlayer);
      nextTurnPlayer := 1 - nextTurnPlayer;
    }

    /** `__repr__`: nine glyphs, each followed by a space or, after every
        third cell, a newline. */
    method Repr() returns (s: string)
      requires Valid()
      ensures s == Render(Value())
      ensures |s| == 18
    {
      s := "";
      for i := 0 to 9
        invariant s == RenderPrefix(board[..], i)
      {
        s := s + [Glyph(board[i]), Separator(i)];
      }
    }
  }
}
