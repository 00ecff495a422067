/** The Snake game (Functions/Snake.cpp, Functions/Snake.h). The board is
    width x height blocks of 10 pixels; the wall occupies row 0, row height-1,
    column 0 and column width. The display pointer becomes `hasDisplay`, the
    clock reading `now` and the values rand() returns during one call a
    sequence `rolls`. Drawing is not modelled. */
module Snakes {
  import opened CInt

  datatype Direction = Up | Down | Left | Right

  /** A Segment: one block of the body or the apple. */
  datatype Cell = Cell(x: int, y: int)

  /** speed_: milliseconds between two steps. */
  const SPEED: nat := 200

  /** The body reset() lays down, head first. */
  const START: seq<Cell> := [Cell(5, 5), Cell(4, 5), Cell(3, 5)]

  function Opposite(d: Direction): Direction
  {
    match d
    case Up => Down
    case Down => Up
    case Left => Right
    case Right => Left
  }

  /** left(): Up -> Left -> Down -> Right -> Up. A single turn is never a
      reversal, so the head cannot turn back onto the neck. */
  function TurnLeft(d: Direction): (r: Direction)
    ensures r != d && r != Opposite(d)
  {
    match d
    case Up => Left
    case Left => Down
    case Down => Right
    case Right => Up
  }

  /** right(): Up -> Right -> Down -> Left -> Up. */
  function TurnRight(d: Direction): (r: Direction)
    ensures r != d && r != Opposite(d)
  {
    match d
    case Up => Right
    case Right => Down
    case Down => Left
    case Left => Up
  }

  /** Each turn undoes the other, and two turns the same way reverse the heading. */
  lemma TurnsUndo(d: Direction)
    ensures TurnRight(TurnLeft(d)) == d && TurnLeft(TurnRight(d)) == d
    ensures TurnLeft(TurnLeft(d)) == Opposite(d) && TurnRight(TurnRight(d)) == Opposite(d)
  {
  }

  /** performStep: one block in the given direction (y grows downwards). */
  function PerformStep(c: Cell, d: Direction): (r: Cell)
    ensures Abs(r.x - c.x) + Abs(r.y - c.y) == 1
    ensures (d == Up || d == Down) <==> r.x == c.x
    ensures (d == Left || d == Right) <==> r.y == c.y
    ensures d == Up ==> r.y < c.y
    ensures d == Down ==> r.y > c.y
    ensures d == Left ==> r.x < c.x
    ensures d == Right ==> r.x > c.x
  {
    match d
    case Up => c.(y := c.y - 1)
    case Down => c.(y := c.y + 1)
    case Left => c.(x := c.x - 1)
    case Right => c.(x := c.x + 1)
  }

  /** A step followed by a step the opposite way returns to the start. */
  lemma StepBack(c: Cell, d: Direction)
    ensures PerformStep(PerformStep(c, d), Opposite(d)) == c
  {
  }

  /** Where the head may move without hitting the wall (Process's bounds test). */
  predicate InPlay(c: Cell, width: int, height: int)
  {
    1 <= c.x <= width - 1 && 1 <= c.y <= height - 2
  }

  /** Where spawnApple can put the apple. */
  predicate InAppleArea(c: Cell, width: int, height: int)
  {
    1 <= c.x <= width - 2 && 1 <= c.y <= height - 2
  }

  predicate AllInPlay(s: seq<Cell>, width: int, height: int)
  {
    forall i :: 0 <= i < |s| ==> InPlay(s[i], width, height)
  }

  predicate Distinct(s: seq<Cell>)
  {
    forall i, j :: 0 <= i < j < |s| ==> s[i] != s[j]
  }

  /** The apple trySpawn builds from the k-th pair of rand() values. */
  function Candidate(rolls: seq<nat>, k: nat, width: int, height: int): (c: Cell)
    requires 2 * k + 1 < |rolls| && width > 2 && height > 2
    ensures InAppleArea(c, width, height) && InPlay(c, width, height)
  {
    Cell(rolls[2 * k] % (width - 2) + 1, rolls[2 * k + 1] % (height - 2) + 1)
  }

  /** Some pair at index k or later gives an apple off the body, so the retry loop ends. */
  ghost predicate HasFreeFrom(rolls: seq<nat>, body: seq<Cell>, width: int, height: int, k: nat)
    requires width > 2 && height > 2
  {
    exists j: nat :: k <= j && 2 * j + 1 < |rolls| && Candidate(rolls, j, width, height) !in body
  }

  /** The pair spawnApple settles on: the first one from k on whose apple is off the body. */
  ghost function FirstFree(rolls: seq<nat>, body: seq<Cell>, width: int, height: int, k: nat): (r: nat)
    requires width > 2 && height > 2 && HasFreeFrom(rolls, body, width, height, k)
    ensures k <= r && 2 * r + 1 < |rolls|
    ensures Candidate(rolls, r, width, height) !in body
    ensures forall j :: k <= j < r ==> Candidate(rolls, j, width, height) in body
    decreases |rolls| - 2 * k
  {
    var w: nat :| k <= w && 2 * w + 1 < |rolls| && Candidate(rolls, w, width, height) !in body;
    if Candidate(rolls, k, width, height) !in body then k
    else
      assert k < w;
      assert HasFreeFrom(rolls, body, width, height, k + 1);
      FirstFree(rolls, body, width, height, k + 1)
  }

  /** The apple spawnApple places over `body` with the values `rolls`. */
  ghost function SpawnedApple(rolls: seq<nat>, body: seq<Cell>, width: int, height: int): (c: Cell)
    requires width > 2 && height > 2 && HasFreeFrom(rolls, body, width, height, 0)
    ensures InAppleArea(c, width, height) && c !in body
  {
    Candidate(rolls, FirstFree(rolls, body, width, height, 0), width, height)
  }

  /** The shape every live board keeps: a non-empty body inside the walls that
      never crosses itself, and an apple in the apple area off the body. */
  predicate Board(body: seq<Cell>, apple: Cell, width: int, height: int)
  {
    |body| >= 1 && Distinct(body) && AllInPlay(body, width, height) &&
    InAppleArea(apple, width, height) && apple !in body
  }

  /** A move onto a free cell inside the walls keeps the body a Board, whether
      the tail is dropped (ordinary move) or kept (the apple was eaten). */
  lemma MoveKeepsBody(body: seq<Cell>, next: Cell, width: int, height: int)
    requires |body| >= 1 && Distinct(body) && AllInPlay(body, width, height)
    requires InPlay(next, width, height) && next !in body
    ensures Distinct([next] + body) && AllInPlay([next] + body, width, height)
    ensures Distinct([next] + body[..|body| - 1]) && AllInPlay([next] + body[..|body| - 1], width, height)
  {
    var grown := [next] + body;
    forall i, j | 0 <= i < j < |grown|
      ensures grown[i] != grown[j]
    {
      if i == 0 {
        assert grown[j] == body[j - 1];
      }
    }
    var moved := [next] + body[..|body| - 1];
    assert moved == grown[..|body|];
  }

  /** The start body fits a board of at least 6 x 7 blocks. */
  lemma StartFits(width: int, height: int)
    requires width >= 6 && height >= 7
    ensures Distinct(START) && AllInPlay(START, width, height)
  {
  }

  class Snake {
    /** Display::width / 10 and Display::height / 10. */
    const width: int
    const height: int
    var hasDisplay: bool
    var lastTime: int
    var direction: Direction
    /** segments_, head first. */
    var segments: seq<Cell>
    var apple: Cell
    var directionChanged: bool
    var gameOver: bool

    /** The board holds the start body, and the clock reading is a uint64_t. */
    ghost predicate Geometry()
      reads this
    {
      width >= 6 && height >= 7 && IsUInt64(lastTime)
    }

    ghost predicate Valid()
      reads this
    {
      Geometry() && (hasDisplay ==> Board(segments, apple, width, height))
    }

    /** The state reset() leaves with a display attached. */
    ghost predicate IsReset(rolls: seq<nat>)
      reads this
      requires width > 2 && height > 2
    {
      direction == Right && !directionChanged && segments == START &&
      HasFreeFrom(rolls, START, width, height, 0) &&
      apple == SpawnedApple(rolls, START, width, height)
    }

    /** Snake(nullptr): without a display reset() does nothing, and the game
        starts over. */
    constructor (width: int, height: int, now: int)
      requires width >= 6 && height >= 7 && IsUInt64(now)
      ensures Valid()
      ensures this.width == width && this.height == height && !hasDisplay
      ensures lastTime == now && direction == Right && segments == [] && apple == Cell(-1, -1)
      ensures !directionChanged && gameOver
    {
      this.width := width;
      this.height := height;
      hasDisplay := false;
      lastTime := now;
      direction := Right;
      segments := [];
      apple := Cell(-1, -1);
      directionChanged := false;
      gameOver := true;
    }

    /** spawnApple(): draws pairs until the apple lands off the body. */
    method SpawnApple(rolls: seq<nat>)
      requires width > 2 && height > 2
      requires hasDisplay ==> HasFreeFrom(rolls, segments, width, height, 0)
      modifies this
      ensures hasDisplay == old(hasDisplay) && lastTime == old(lastTime) && direction == old(direction)
      ensures segments == old(segments) && directionChanged == old(directionChanged) && gameOver == old(gameOver)
      ensures !hasDisplay ==> apple == old(apple)
      ensures hasDisplay ==> apple == SpawnedApple(rolls, segments, width, height)
    {
      if !hasDisplay {
        return;
      }
      ghost var target := FirstFree(rolls, segments, width, height, 0);
      var k := 0;
      var candidate := Candidate(rolls, 0, width, height);
      while candidate in segments
        invariant k <= target
        invariant candidate == Candidate(rolls, k, width, height)
        decreases target - k
      {
        k := k + 1;
        candidate := Candidate(rolls, k, width, height);
      }
      apple := candidate;
    }

    /** reset(): with a display, the start body heading right and a new apple. */
    method Reset(rolls: seq<nat>)
      requires Geometry()
      requires hasDisplay ==> HasFreeFrom(rolls, START, width, height, 0)
      modifies this
      ensures Valid()
      ensures hasDisplay == old(hasDisplay) && lastTime == old(lastTime) && gameOver == old(gameOver)
      ensures hasDisplay ==> IsReset(rolls)
      ensures !hasDisplay ==>
        direction == old(direction) && segments == old(segments) &&
        apple == old(apple) && directionChanged == old(directionChanged)
    {
      if !hasDisplay {
        return;
      }
      direction := Right;
      directionChanged := false;
      segments := START;
      SpawnApple(rolls);
      StartFits(width, height);
    }

    /** SetDisplay(display): attach or detach the display, then reset(). */
    method SetDisplay(present: bool, rolls: seq<nat>)
      requires Valid()
      requires present ==> HasFreeFrom(rolls, START, width, height, 0)
      modifies this
      ensures Valid() && hasDisplay == present
      ensures lastTime == old(lastTime) && gameOver == old(gameOver)
      ensures present ==> IsReset(rolls)
      ensures !present ==>
        direction == old(direction) && segments == old(segments) &&
        apple == old(apple) && directionChanged == old(directionChanged)
    {
      hasDisplay := present;
      Reset(rolls);
    }

    /** left() (encoder turned left). During game over it restarts the game;
        otherwise it turns once per step. */
    method TurnLeftCall(rolls: seq<nat>)
      requires Valid()
      requires gameOver && hasDisplay ==> HasFreeFrom(rolls, START, width, height, 0)
      modifies this
      ensures Valid() && hasDisplay == old(hasDisplay) && lastTime == old(lastTime)
      ensures old(gameOver) ==> !gameOver && (hasDisplay ==> IsReset(rolls))
      ensures old(gameOver) && !hasDisplay ==>
        direction == old(direction) && segments == old(segments) &&
        apple == old(apple) && directionChanged == old(directionChanged)
      ensures !old(gameOver) && old(directionChanged) ==>
        !gameOver && directionChanged && direction == old(direction) && segments == old(segments) && apple == old(apple)
      ensures !old(gameOver) && !old(directionChanged) ==>
        !gameOver && directionChanged && direction == TurnLeft(old(direction)) &&
        segments == old(segments) && apple == old(apple)
    {
      if gameOver {
        Reset(rolls);
        gameOver := false;
        return;
      }
      if directionChanged {
        return;
      }
      directionChanged := true;
      direction := TurnLeft(direction);
    }

    /** right() (encoder turned right); the mirror of left(). */
    method TurnRightCall(rolls: seq<nat>)
      requires Valid()
      requires gameOver && hasDisplay ==> HasFreeFrom(rolls, START, width, height, 0)
      modifies this
      ensures Valid() && hasDisplay == old(hasDisplay) && lastTime == old(lastTime)
      ensures old(gameOver) ==> !gameOver && (hasDisplay ==> IsReset(rolls))
      ensures old(gameOver) && !hasDisplay ==>
        direction == old(direction) && segments == old(segments) &&
        apple == old(apple) && directionChanged == old(directionChanged)
      ensures !old(gameOver) && old(directionChanged) ==>
        !gameOver && directionChanged && direction == old(direction) && segments == old(segments) && apple == old(apple)
      ensures !old(gameOver) && !old(directionChanged) ==>
        !gameOver && directionChanged && direction == TurnRight(old(direction)) &&
        segments == old(segments) && apple == old(apple)
    {
      if gameOver {
        Reset(rolls);
        gameOver := false;
        return;
      }
      if directionChanged {
        return;
      }
      directionChanged := true;
      direction := TurnRight(direction);
    }

    /** Whether a Process call at `now` would take a step. */
    ghost predicate Steps(now: int)
      reads this
      requires IsUInt64(now) && IsUInt64(lastTime)
    {
      hasDisplay && Elapsed(now, lastTime) >= SPEED && !gameOver
    }

    /** Whether that step lands on the apple (and so needs a new one). */
    ghost predicate Eats(now: int)
      reads this
      requires IsUInt64(now) && IsUInt64(lastTime)
    {
      Steps(now) && |segments| >= 1 && PerformStep(segments[0], direction) == apple
    }

    /** Process(): at most one step every SPEED ms. Leaving the walls or running
        into any block of the body (the tail included) ends the game; the apple
        grows the body by one; otherwise the body moves with its length kept. */
    method Process(now: int, rolls: seq<nat>)
      requires Valid() && IsUInt64(now)
      requires Eats(now) ==> HasFreeFrom(rolls, [apple] + segments, width, height, 0)
      modifies this
      ensures Valid() && hasDisplay == old(hasDisplay) && direction == old(direction)
      ensures !old(Steps(now)) ==>
        lastTime == old(lastTime) && segments == old(segments) && apple == old(apple) &&
        directionChanged == old(directionChanged) && gameOver == old(gameOver)
      ensures old(Steps(now)) ==> !directionChanged && lastTime == now
      ensures old(Steps(now)) ==>
        var next := PerformStep(old(segments)[0], old(direction));
        if !InPlay(next, width, height) || next in old(segments) then
          gameOver && segments == old(segments) && apple == old(apple)
        else if next == old(apple) then
          !gameOver && segments == [next] + old(segments) &&
          apple == SpawnedApple(rolls, segments, width, height)
        else
          !gameOver && segments == [next] + old(segments)[..|old(segments)| - 1] && apple == old(apple)
    {
      if !hasDisplay {
        return;
      }
      if Elapsed(now, lastTime) < SPEED {
        return;
      }
      if gameOver {
        return;
      }
      directionChanged := false;
      lastTime := now;
      var next := PerformStep(segments[0], direction);
      if !InPlay(next, width, height) || next in segments {
        gameOver := true;
        return;
      }
      MoveKeepsBody(segments, next, width, height);
      var body := segments;
      segments := [next] + segments;
      if next == apple {
        SpawnApple(rolls);
      } else {
        segments := segments[..|segments| - 1];
        assert segments == [next] + body[..|body| - 1];
      }
    }
  }
}
