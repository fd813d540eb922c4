/** The game's rules on values: a snapshot of the engine's globals, the
    state each engine operation leaves behind, and the invariant every
    operation keeps. The imperative class in module Tetris is proved to
    follow these functions step by step. */
module Rules {
  import opened Wrappers
  import opened Grid
  import opened Pieces
  import opened Engine
  import opened Scoring

  /** The keys `handleKeyAction` acts on; SpaceBar is its `' '` case. */
  datatype Key = ArrowLeft | ArrowRight | ArrowDown | ArrowUp | SpaceBar

  /** The engine's globals: the board (empty before the first start), the
      current and next piece, the counters, the gravity accumulator and the
      two flags. */
  datatype GameState = GameState(
    board: Board,
    current: Option<Piece>,
    next: Option<Piece>,
    session: Session,
    dropCounter: int,
    running: bool,
    paused: bool)

  /** What `startGame` has established when it first calls `spawnPiece`:
      the board is absent or ROWS x COLS with valid colour ids, pieces are
      well formed, a running game has a next piece, only a running game is
      paused, and the counters follow the level progression. */
  predicate Staged(s: GameState) {
    && (s.board == [] || WellFormedBoard(s.board))
    && (s.current.Some? ==> WellFormedPiece(s.current.value))
    && (s.next.Some? ==> WellFormedPiece(s.next.value))
    && (s.running ==> WellFormedBoard(s.board) && s.next.Some?)
    && (s.paused ==> s.running)
    && Progression(s.session)
  }

  /** What holds between any two steps, even between the lock, the clear and
      the spawn: in addition, a running game has a current piece. */
  predicate Sound(s: GameState) {
    Staged(s) && (s.running ==> s.current.Some?)
  }

  /** What holds whenever the engine waits for input or the next frame: in
      addition, no row is full and the current piece of a running game does
      not collide. */
  predicate Valid(s: GameState) {
    && Sound(s)
    && NoFullRow(s.board)
    && (s.running ==> !Collides(s.board, s.current.value, 0, 0))
  }

  /** The module-level initial values. */
  function Initial(): (s: GameState)
    ensures Valid(s) && !s.running && !s.paused
    ensures s.board == [] && s.current.None? && s.next.None?
    ensures s.session == StartSession() && s.dropCounter == 0
  {
    GameState([], None, None, Session(0, 1, 0, START_INTERVAL), 0, false, false)
  }

  /** `gameOver`. */
  function Over(s: GameState): (t: GameState)
    ensures !t.running && !t.paused
    ensures t.board == s.board && t.current == s.current && t.next == s.next
    ensures t.session == s.session && t.dropCounter == s.dropCounter
  {
    s.(running := false, paused := false)
  }

  /** Game over keeps the invariant. */
  lemma OverValid(s: GameState)
    requires Valid(s)
    ensures Valid(Over(s))
  {
  }

  /** `spawnPiece`: the next piece, or without one a fresh piece of type
      `fallback`, becomes current; a fresh piece of type `pick` becomes the
      next one; the game ends when the new current piece collides. */
  function Spawned(s: GameState, fallback: int, pick: int): (t: GameState)
    requires Staged(s) && WellFormedBoard(s.board)
    requires 0 <= fallback < |SHAPES| && 0 <= pick < |SHAPES|
    ensures Sound(t)
    ensures t.current == Some(if s.next.Some? then s.next.value else CreatePiece(fallback))
    ensures t.next == Some(CreatePiece(pick))
    ensures t.running == (s.running && !Collides(s.board, t.current.value, 0, 0))
    ensures t.paused == (s.paused && !Collides(s.board, t.current.value, 0, 0))
    ensures t.board == s.board && t.session == s.session && t.dropCounter == s.dropCounter
  {
    var piece := if s.next.Some? then s.next.value else CreatePiece(fallback);
    var t := s.(current := Some(piece), next := Some(CreatePiece(pick)));
    if Collides(s.board, piece, 0, 0) then Over(t) else t
  }

  /** `startGame`: an empty board, reset counters, a freshly drawn next
      piece, then a spawn. */
  function Started(s: GameState, first: int, second: int): (t: GameState)
    requires Sound(s) && 0 <= first < |SHAPES| && 0 <= second < |SHAPES|
  {
    var reset := s.(board := InitBoard(), session := StartSession(), dropCounter := 0,
                    running := true, paused := false, next := Some(CreatePiece(first)));
    Spawned(reset, first, second)
  }

  /** A started game is running, unpaused and valid, with an empty board,
      reset counters, the first drawn piece current and the second next,
      whatever state it started from. */
  lemma StartedFresh(s: GameState, first: int, second: int)
    requires Sound(s) && 0 <= first < |SHAPES| && 0 <= second < |SHAPES|
    ensures var t := Started(s, first, second);
      && Valid(t) && t.running && !t.paused
      && t.board == InitBoard() && t.session == StartSession() && t.dropCounter == 0
      && t.current == Some(CreatePiece(first)) && t.next == Some(CreatePiece(second))
  {
    SpawnFitsEmptyBoard(first);
    EmptyRowNotFull();
  }

  /** `pauseGame`: a running game toggles its paused flag; otherwise nothing
      happens. */
  function Paused(s: GameState): (t: GameState)
    ensures t.running == s.running
    ensures s.running ==> t.paused == !s.paused
    ensures !s.running ==> t == s
    ensures t.board == s.board && t.current == s.current && t.next == s.next
    ensures t.session == s.session && t.dropCounter == s.dropCounter
  {
    if !s.running then s else s.(paused := !s.paused)
  }

  /** Pausing twice, i.e. pausing and resuming, gives back the same state. */
  lemma PauseResume(s: GameState)
    ensures Paused(Paused(s)) == s
  {
  }

  /** Pausing keeps the invariant. */
  lemma PausedValid(s: GameState)
    requires Valid(s)
    ensures Valid(Paused(s))
  {
  }

  /** What the collision test of a move needs: a running game's piece is
      square and its board well formed. */
  predicate Movable(s: GameState) {
    s.running && s.current.Some? ==> WellFormedBoard(s.board) && SquareShape(s.current.value.shape)
  }

  /** The return value of `movePiece(dx, dy)`: None (the source's
      `undefined`) without a piece, when not running or when paused;
      otherwise whether the displaced piece fits. */
  function MoveOutcome(s: GameState, dx: int, dy: int): (m: Option<bool>)
    requires Movable(s)
    ensures m.None? <==> (s.current.None? || !s.running || s.paused)
    ensures m.Some? ==> (m.value <==> !Collides(s.board, s.current.value, dx, dy))
  {
    if s.current.None? || !s.running || s.paused then None
    else Some(!Collides(s.board, s.current.value, dx, dy))
  }

  /** The state after `movePiece(dx, dy)`: the piece is displaced exactly
      when the move succeeds. */
  function Moved(s: GameState, dx: int, dy: int): (t: GameState)
    requires Movable(s)
    ensures Movable(t) && (Sound(s) ==> Sound(t))
  {
    if MoveOutcome(s, dx, dy) == Some(true)
    then s.(current := Some(Shifted(s.current.value, dx, dy)))
    else s
  }

  /** A move keeps the invariant: a piece only moves to where it fits. */
  lemma MovedValid(s: GameState, dx: int, dy: int)
    requires Valid(s)
    ensures Valid(Moved(s, dx, dy))
  {
    if MoveOutcome(s, dx, dy) == Some(true) {
      ShiftedCollides(s.board, s.current.value, dx, dy);
    }
  }

  /** A successful move can be undone: the opposite move succeeds too and
      gives back the state before both. */
  lemma MoveBack(s: GameState, dx: int, dy: int)
    requires Valid(s) && MoveOutcome(s, dx, dy) == Some(true)
    ensures MoveOutcome(Moved(s, dx, dy), -dx, -dy) == Some(true)
    ensures Moved(Moved(s, dx, dy), -dx, -dy) == s
  {
    MovedValid(s, dx, dy);
    var p := s.current.value;
    var q := Shifted(p, dx, dy);
    ShiftedCollides(s.board, q, -dx, -dy);
    assert Shifted(q, -dx, -dy) == p;
  }

  /** The state after `currentPiece = rotatePiece(currentPiece)`. */
  function Turned(s: GameState): (t: GameState)
    requires Sound(s) && s.running
  {
    s.(current := Some(RotateWithKick(s.board, s.current.value)))
  }

  /** A rotation keeps the invariant: the kick only accepts a free spot. */
  lemma TurnedValid(s: GameState)
    requires Valid(s) && s.running
    ensures Valid(Turned(s))
  {
  }

  /** The state after `placePiece`. */
  function Locked(s: GameState): (t: GameState)
    requires Sound(s) && s.running
    ensures Sound(t) && t.running && t.paused == s.paused
    ensures t.board == Placed(s.board, s.current.value)
    ensures t.current == s.current && t.next == s.next
    ensures t.session == s.session && t.dropCounter == s.dropCounter
  {
    s.(board := Placed(s.board, s.current.value))
  }

  /** The state after `clearLines`: the full rows are gone and the counters
      are updated for their number. */
  function Cleared(s: GameState): (t: GameState)
    requires Sound(s) && WellFormedBoard(s.board) && FullRowCount(s.board) < |LINE_SCORES|
    ensures Sound(t) && WellFormedBoard(t.board) && NoFullRow(t.board)
    ensures t.board == ClearedBoard(s.board) && t.session == AfterClear(s.session, FullRowCount(s.board))
    ensures t.current == s.current && t.next == s.next && t.dropCounter == s.dropCounter
    ensures t.running == s.running && t.paused == s.paused
  {
    ClearedBoardShape(s.board);
    s.(board := ClearedBoard(s.board), session := AfterClear(s.session, FullRowCount(s.board)))
  }

  /** Lock, clear and spawn, as the gravity tick and the hard drop do once
      the piece cannot fall further. */
  function Settled(s: GameState, pick: int): GameState
    requires Valid(s) && s.running && 0 <= pick < |SHAPES|
  {
    PlacedFullRows(s.board, s.current.value);
    Spawned(Cleared(Locked(s)), pick, pick)
  }

  /** Locking keeps the invariant and accounts for the clear: at most as
      many rows are cleared as the piece is tall, lines and score grow by
      the clear's amounts, the old next piece is current, and the game goes
      on exactly when that piece fits on the cleared board. */
  lemma SettledFacts(s: GameState, pick: int)
    requires Valid(s) && s.running && 0 <= pick < |SHAPES|
    ensures var p := s.current.value;
      var placed := Placed(s.board, p);
      var n := FullRowCount(placed);
      var t := Settled(s, pick);
      && Valid(t)
      && n <= |p.shape| <= 4
      && t.board == ClearedBoard(placed)
      && t.session == AfterClear(s.session, n)
      && t.session.lines == s.session.lines + n
      && t.session.score >= s.session.score
      && t.current == s.next && t.next == Some(CreatePiece(pick))
      && (t.running <==> !Collides(t.board, s.next.value, 0, 0))
      && t.dropCounter == s.dropCounter
  {
    var p := s.current.value;
    PlacedFullRows(s.board, p);
    var n := FullRowCount(Placed(s.board, p));
    assert n == 0 || n > 0;
  }

  /** `hardDrop`: ignored without a piece, when not running or when
      paused; otherwise the piece falls to where it lands, two points per
      row fallen are added, and lock, clear and spawn follow. */
  function HardDropped(s: GameState, pick: int): (t: GameState)
    requires Valid(s) && 0 <= pick < |SHAPES|
  {
    if s.current.None? || !s.running || s.paused then s
    else Settled(Dropped(s), pick)
  }

  /** The piece moved down to where it lands, with two points for every
      row it fell. */
  function Dropped(s: GameState): (t: GameState)
    requires Valid(s) && s.running && !s.paused
    ensures Valid(t) && t.running
    ensures t.current.value.shape == s.current.value.shape && t.current.value.x == s.current.value.x
    ensures Collides(t.board, t.current.value, 0, 1)
    ensures t.session.score == s.session.score + 2 * (t.current.value.y - s.current.value.y)
    ensures t.board == s.board && t.next == s.next
  {
    var p := s.current.value;
    var d := DropDistance(s.board, p);
    s.(current := Some(Landed(s.board, p)), session := s.session.(score := s.session.score + 2 * d))
  }

  /** A hard drop locks the piece where it rests, one more row down being
      blocked, scores at least two points per row fallen, and keeps the
      invariant. */
  lemma HardDropFacts(s: GameState, pick: int)
    requires Valid(s) && 0 <= pick < |SHAPES|
    requires s.running && !s.paused
    ensures var p := s.current.value;
      var landed := Landed(s.board, p);
      var d := DropDistance(s.board, p);
      var t := HardDropped(s, pick);
      && Collides(s.board, landed, 0, 1)
      && !Collides(s.board, landed, 0, 0)
      && Valid(t)
      && t.session.score >= s.session.score + 2 * d
      && t.board == ClearedBoard(Placed(s.board, landed))
      && t.current == s.next
  {
    SettledFacts(Dropped(s), pick);
  }

  /** One frame of `gameLoop` with `deltaTime` milliseconds elapsed. */
  function Ticked(s: GameState, deltaTime: int, pick: int): (t: GameState)
    requires Valid(s) && 0 <= pick < |SHAPES|
  {
    if !s.running then s
    else
      var s1 := s.(dropCounter := s.dropCounter + deltaTime);
      if s1.dropCounter > s1.session.dropInterval then
        var s2 := if MoveOutcome(s1, 0, 1) == Some(true) then Moved(s1, 0, 1) else Settled(s1, pick);
        s2.(dropCounter := 0)
      else s1
  }

  /** A frame keeps the invariant. Below the interval it only accumulates
      time; past it, it performs exactly one of a one-row fall and a lock,
      and restarts the accumulator. */
  lemma TickFacts(s: GameState, deltaTime: int, pick: int)
    requires Valid(s) && 0 <= pick < |SHAPES|
    ensures var t := Ticked(s, deltaTime, pick);
      && Valid(t)
      && (!s.running ==> t == s)
      && (s.running && s.dropCounter + deltaTime <= s.session.dropInterval ==>
            t == s.(dropCounter := s.dropCounter + deltaTime))
      && (s.running && s.dropCounter + deltaTime > s.session.dropInterval ==>
            && t.dropCounter == 0
            && if !s.paused && !Collides(s.board, s.current.value, 0, 1)
               then t == s.(current := Some(Shifted(s.current.value, 0, 1)), dropCounter := 0)
               else t == Settled(s, pick).(dropCounter := 0))
  {
    if s.running {
      var s1 := s.(dropCounter := s.dropCounter + deltaTime);
      if s1.dropCounter > s1.session.dropInterval {
        if MoveOutcome(s1, 0, 1) == Some(true) {
          MovedValid(s1, 0, 1);
        } else {
          SettledFacts(s1, pick);
          assert Settled(s1, pick) == Settled(s, pick).(dropCounter := s1.dropCounter);
        }
      }
    }
  }

  /** `handleKeyAction(key)`: ignored unless running and unpaused. The
      arrows move or rotate the piece, a successful soft drop scores one
      point, space hard-drops. */
  function KeyHandled(s: GameState, key: Key, pick: int): (t: GameState)
    requires Valid(s) && 0 <= pick < |SHAPES|
  {
    if !s.running || s.paused then s
    else
      match key
      case ArrowLeft => Moved(s, -1, 0)
      case ArrowRight => Moved(s, 1, 0)
      case ArrowDown =>
        var t := Moved(s, 0, 1);
        if MoveOutcome(s, 0, 1) == Some(true) then t.(session := t.session.(score := t.session.score + 1))
        else t
      case ArrowUp => Turned(s)
      case SpaceBar => HardDropped(s, pick)
  }

  /** A key keeps the invariant; a soft drop that moves the piece scores
      exactly one point, one that does not changes nothing. */
  lemma KeyFacts(s: GameState, key: Key, pick: int)
    requires Valid(s) && 0 <= pick < |SHAPES|
    ensures var t := KeyHandled(s, key, pick);
      && Valid(t)
      && (!s.running || s.paused ==> t == s)
      && (s.running && !s.paused && key == ArrowDown ==>
            if Collides(s.board, s.current.value, 0, 1) then t == s
            else && t.current == Some(Shifted(s.current.value, 0, 1))
                 && t.session == s.session.(score := s.session.score + 1))
  {
    if s.running && !s.paused {
      match key {
        case ArrowLeft => MovedValid(s, -1, 0);
        case ArrowRight => MovedValid(s, 1, 0);
        case ArrowDown => MovedValid(s, 0, 1);
        case ArrowUp => TurnedValid(s);
        case SpaceBar => HardDropFacts(s, pick);
      }
    }
  }

  /** An input to the engine: the start button (with the two pieces it
      draws), the pause button, a key (with the piece a spawn would draw),
      or an animation frame. */
  datatype Event =
    | Start(first: int, second: int)
    | Pause
    | Press(key: Key, pick: int)
    | Frame(deltaTime: int, pick: int)

  /** Every drawn piece type is in [0, 7). */
  predicate Drawable(e: Event) {
    match e
    case Start(first, second) => 0 <= first < |SHAPES| && 0 <= second < |SHAPES|
    case Pause => true
    case Press(_, pick) => 0 <= pick < |SHAPES|
    case Frame(_, pick) => 0 <= pick < |SHAPES|
  }

  /** The state after one event. */
  function Step(s: GameState, e: Event): (t: GameState)
    requires Valid(s) && Drawable(e)
    ensures Valid(t)
  {
    match e
    case Start(first, second) => StartedFresh(s, first, second); Started(s, first, second)
    case Pause => Paused(s)
    case Press(key, pick) => KeyFacts(s, key, pick); KeyHandled(s, key, pick)
    case Frame(deltaTime, pick) => TickFacts(s, deltaTime, pick); Ticked(s, deltaTime, pick)
  }

  /** The state after a sequence of events. Every state the engine can
      reach is valid: in particular no full row is ever left on the board,
      so a single lock clears at most four rows, and a running game's piece
      never overlaps the stack. */
  function Run(s: GameState, events: seq<Event>): (t: GameState)
    requires Valid(s) && forall i :: 0 <= i < |events| ==> Drawable(events[i])
    ensures Valid(t)
    decreases |events|
  {
    if events == [] then s else Run(Step(s, events[0]), events[1..])
  }
}
