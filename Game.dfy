/** The engine as the source runs it: the module globals as the fields of
    one object, and each engine function as a method that changes them in
    place. The methods that stand for a whole operation are proved to leave
    the state their counterpart in module Rules computes from the state
    before the call; the loops and the move are proved against the
    definitions in modules Grid and Engine. */
module Tetris {
  import opened Wrappers
  import opened Grid
  import opened Pieces
  import opened Engine
  import opened Scoring
  import opened Rules

  class Game {
    var board: Board
    var currentPiece: Option<Piece>
    var nextPiece: Option<Piece>
    var score: int
    var level: int
    var lines: int
    var dropCounter: int
    var dropInterval: int
    var gameRunning: bool
    var gamePaused: bool

    /** The fields as one value. */
    ghost function State(): GameState
      reads this
    {
      GameState(board, currentPiece, nextPiece, Session(score, level, lines, dropInterval),
                dropCounter, gameRunning, gamePaused)
    }

    /** The invariant the engine keeps between events. */
    ghost predicate Valid()
      reads this
    {
      Rules.Valid(State())
    }

    /** The initial values of the globals. */
    constructor ()
      ensures State() == Initial()
      ensures Valid()
    {
      board := [];
      currentPiece := None;
      nextPiece := None;
      score := 0;
      level := 1;
      lines := 0;
      dropCounter := 0;
      dropInterval := START_INTERVAL;
      gameRunning := false;
      gamePaused := false;
    }

    /** `startGame`. The current piece is not reset: the spawn replaces it. */
    method StartGame(first: int, second: int)
      requires Sound(State())
      requires 0 <= first < |SHAPES| && 0 <= second < |SHAPES|
      modifies this
      ensures State() == Started(old(State()), first, second)
      ensures Valid()
    {
      ghost var s0 := State();
      board := InitBoard();
      score := 0;
      level := 1;
      lines := 0;
      dropInterval := START_INTERVAL;
      dropCounter := 0;
      gameRunning := true;
      gamePaused := false;
      nextPiece := Some(CreatePiece(first));
      SpawnPiece(first, second);
      StartedFresh(s0, first, second);
    }

    /** `pauseGame`. */
    method PauseGame()
      modifies this`gamePaused
      ensures State() == Paused(old(State()))
    {
      if !gameRunning {
        return;
      }
      gamePaused := !gamePaused;
    }

    /** `gameOver`. */
    method GameOver()
      modifies this`gameRunning, this`gamePaused
      ensures State() == Over(old(State()))
    {
      gameRunning := false;
      gamePaused := false;
    }

    /** `movePiece(dx, dy)`. */
    method MovePiece(dx: int, dy: int) returns (moved: Option<bool>)
      requires Movable(State())
      modifies this`currentPiece
      ensures moved.None? <==> (old(currentPiece).None? || !gameRunning || gamePaused)
      ensures moved.Some? ==> (moved.value <==> !Collides(board, old(currentPiece).value, dx, dy))
      ensures currentPiece == if moved == Some(true)
                              then Some(Shifted(old(currentPiece).value, dx, dy)) else old(currentPiece)
    {
      if currentPiece.None? || !gameRunning || gamePaused {
        return None;
      }
      var piece := currentPiece.value;
      var hit := Collide(board, piece, dx, dy);
      if !hit {
        currentPiece := Some(piece.(x := piece.x + dx, y := piece.y + dy));
        return Some(true);
      }
      return Some(false);
    }

    /** `placePiece`: the scan over the rows of the shape, writing the
        colour id into the board cell under every occupied cell that is not
        above the top row. The piece must fit, so that every write is on
        the board. */
    method PlacePiece()
      requires currentPiece.Some? && Placeable(board, currentPiece.value)
      modifies this`board
      ensures board == Placed(old(board), currentPiece.value)
    {
      var piece := currentPiece.value;
      ghost var before := board;
      PartlyPlacedStart(before, piece);
      var y := 0;
      while y < |piece.shape|
        invariant 0 <= y <= |piece.shape|
        invariant board == PartlyPlaced(before, piece, y, 0)
      {
        PlaceRow(piece, y, before);
        y := y + 1;
      }
      PartlyPlacedDone(before, piece);
    }

    /** The inner loop of `placePiece`, over the cells of row y of the
        shape. */
    method PlaceRow(piece: Piece, y: int, ghost before: Board)
      requires Placeable(before, piece) && 0 <= y < |piece.shape|
      requires board == PartlyPlaced(before, piece, y, 0)
      modifies this`board
      ensures board == PartlyPlaced(before, piece, y + 1, 0)
    {
      var shape := piece.shape;
      var x := 0;
      while x < |shape[y]|
        invariant 0 <= x <= |shape|
        invariant board == PartlyPlaced(before, piece, y, x)
      {
        if shape[y][x] != 0 {
          var boardY := piece.y + y;
          var boardX := piece.x + x;
          if boardY >= 0 {
            PartlyPlacedWrite(before, piece, y, x);
            board := board[boardY := board[boardY][boardX := piece.kind]];
          } else {
            PartlyPlacedSkip(before, piece, y, x);
          }
        } else {
          PartlyPlacedSkip(before, piece, y, x);
        }
        x := x + 1;
      }
      PartlyPlacedRow(before, piece, y);
    }

    /** The row scan of `clearLines`: examines the rows bottom-up; a full
        row is removed, an empty row is put on top and the same index is
        examined again. Returns the number of rows removed. */
    method RemoveFullRows() returns (linesCleared: int)
      requires WellFormedBoard(board)
      modifies this`board
      ensures board == ClearedBoard(old(board))
      ensures linesCleared == FullRowCount(old(board))
    {
      ghost var original := board;
      linesCleared := 0;
      var y := ROWS - 1;
      ghost var unseen := ROWS;
      ScanStart(original);
      while y >= 0
        invariant ScanAt(original, board, unseen, linesCleared, y)
        decreases unseen, y + 1
      {
        if Full(board[y]) {
          ScanFull(original, board, unseen, linesCleared, y);
          board := [EmptyRow()] + (board[..y] + board[y + 1..]);
          linesCleared := linesCleared + 1;
          unseen := unseen - 1;
          y := y + 1;
        } else {
          ScanNotFull(original, board, unseen, linesCleared, y);
          unseen := if unseen > 0 then unseen - 1 else 0;
        }
        y := y - 1;
      }
      ScanEnd(original, board, unseen, linesCleared);
    }

    /** `clearLines`: the row scan, then the counters are updated for the
        number of rows removed. The scoring table has entries for up to
        four rows. */
    method ClearLines()
      requires WellFormedBoard(board) && FullRowCount(board) < |LINE_SCORES|
      modifies this`board, this`score, this`level, this`lines, this`dropInterval
      ensures board == ClearedBoard(old(board))
      ensures State().session == AfterClear(old(State()).session, FullRowCount(old(board)))
    {
      var linesCleared := RemoveFullRows();
      if linesCleared > 0 {
        lines := lines + linesCleared;
        score := score + LINE_SCORES[linesCleared] * level;
        var newLevel := lines / LINES_PER_LEVEL + 1;
        if newLevel > level {
          level := newLevel;
          dropInterval := IntervalFor(level);
        }
      }
    }

    /** `spawnPiece`. */
    method SpawnPiece(fallback: int, pick: int)
      requires Staged(State()) && WellFormedBoard(board)
      requires 0 <= fallback < |SHAPES| && 0 <= pick < |SHAPES|
      modifies this`currentPiece, this`nextPiece, this`gameRunning, this`gamePaused
      ensures State() == Spawned(old(State()), fallback, pick)
    {
      currentPiece := if nextPiece.Some? then nextPiece else Some(CreatePiece(fallback));
      nextPiece := Some(CreatePiece(pick));
      var hit := Collide(board, currentPiece.value, 0, 0);
      if hit {
        GameOver();
      }
    }

    /** `placePiece(); clearLines(); spawnPiece();`, the sequence the
        gravity tick and the hard drop run once the piece cannot fall. */
    method Settle(pick: int)
      requires Valid() && gameRunning && 0 <= pick < |SHAPES|
      modifies this
      ensures State() == Settled(old(State()), pick)
    {
      ghost var s0 := State();
      PlacedFullRows(board, currentPiece.value);
      assert Placeable(board, currentPiece.value);
      PlacePiece();
      ghost var locked := State();
      assert locked == Locked(s0);
      ClearLines();
      assert State() == Cleared(locked);
      SpawnPiece(pick, pick);
    }

    /** The loop of `hardDrop`: moves the piece down while it can and
        returns the number of rows it fell. */
    method DropToFloor() returns (dropDistance: int)
      requires currentPiece.Some? && WellFormedPiece(currentPiece.value) && WellFormedBoard(board)
      requires gameRunning && !gamePaused
      modifies this`currentPiece
      ensures dropDistance == DropDistance(board, old(currentPiece.value))
      ensures currentPiece == Some(Shifted(old(currentPiece.value), 0, dropDistance))
    {
      ghost var start := currentPiece.value;
      dropDistance := 0;
      assert Shifted(start, 0, 0) == start;
      while true
        invariant currentPiece == Some(Shifted(start, 0, dropDistance))
        invariant dropDistance + DropDistance(board, Shifted(start, 0, dropDistance)) == DropDistance(board, start)
        decreases DropDistance(board, Shifted(start, 0, dropDistance))
      {
        var moved := MovePiece(0, 1);
        if moved != Some(true) {
          DropStop(board, start, dropDistance);
          break;
        }
        DropAdvance(board, start, dropDistance);
        dropDistance := dropDistance + 1;
      }
    }

    /** `hardDrop`: drops the piece, scores two points per row fallen,
        then locks, clears and spawns. */
    method HardDrop(pick: int)
      requires Valid() && 0 <= pick < |SHAPES|
      modifies this
      ensures State() == HardDropped(old(State()), pick)
      ensures Valid()
    {
      if currentPiece.None? || !gameRunning || gamePaused {
        return;
      }
      ghost var s0 := State();
      var dropDistance := DropToFloor();
      score := score + dropDistance * 2;
      assert State() == Dropped(s0);
      Settle(pick);
      HardDropFacts(s0, pick);
    }

    /** One frame of `gameLoop` while the game runs, `deltaTime`
        milliseconds after the previous one. */
    method Tick(deltaTime: int, pick: int)
      requires Valid() && 0 <= pick < |SHAPES|
      modifies this
      ensures State() == Ticked(old(State()), deltaTime, pick)
      ensures Valid()
    {
      ghost var s0 := State();
      if gameRunning {
        dropCounter := dropCounter + deltaTime;
        ghost var s1 := State();
        if dropCounter > dropInterval {
          var moved := MovePiece(0, 1);
          ghost var s2 := if moved == Some(true) then Moved(s1, 0, 1) else Settled(s1, pick);
          if moved != Some(true) {
            assert State() == s1;
            Settle(pick);
          }
          assert State() == s2;
          dropCounter := 0;
          assert State() == s2.(dropCounter := 0);
        }
      }
      TickFacts(s0, deltaTime, pick);
    }

    /** `handleKeyAction(key)`. */
    method HandleKeyAction(key: Key, pick: int)
      requires Valid() && 0 <= pick < |SHAPES|
      modifies this
      ensures State() == KeyHandled(old(State()), key, pick)
      ensures Valid()
    {
      ghost var s0 := State();
      if gameRunning && !gamePaused {
        match key {
          case ArrowLeft =>
            var _ := MovePiece(-1, 0);
          case ArrowRight =>
            var _ := MovePiece(1, 0);
          case ArrowDown =>
            var moved := MovePiece(0, 1);
            if moved == Some(true) {
              score := score + 1;
            }
          case ArrowUp =>
            var rotated := RotatePiece(board, currentPiece.value);
            currentPiece := Some(rotated);
          case SpaceBar =>
            HardDrop(pick);
        }
      }
      KeyFacts(s0, key, pick);
    }
  }
}
