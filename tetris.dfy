/** The Tetris game (Functions/Tetris.cpp, Functions/Tetris.h). A falling
    piece is a pivot (x_, y_), a rotation and the table of four offsets of its
    tetramino; landed blocks are the list occupied_, and presentBlocks_ counts
    the landed blocks of every row. The game rules are the pure functions on
    `Game` below; the class Tetris walks the same steps with its loops and is
    proved to agree with them. The display pointer becomes `hasDisplay`, the
    clock reading `now` and the rand() value of a spawn `roll`. */
module TetrisGame {
  import opened CInt

  datatype Tetramino = I | J | L | O | S | T | Z
  datatype Offset = Offset(dx: int, dy: int)
  datatype Cell = Cell(x: int, y: int)

  /** speed_: milliseconds between two automatic steps. */
  const SPEED: nat := 500

  /** static_cast<Tetramino>(k) for k in 0..6. */
  function FromIndex(k: nat): Tetramino
    requires k < 7
  {
    [I, J, L, O, S, T, Z][k]
  }

  /** tetraminoOffsets: the four blocks of each piece around its pivot. */
  function Offsets(p: Tetramino): (os: seq<Offset>)
    ensures |os| == 4
  {
    match p
    case I => [Offset(-1, 0), Offset(0, 0), Offset(1, 0), Offset(2, 0)]
    case J => [Offset(-1, 0), Offset(0, 0), Offset(1, 0), Offset(1, 1)]
    case L => [Offset(0, 0), Offset(1, 0), Offset(2, 0), Offset(0, 1)]
    case O => [Offset(0, 0), Offset(1, 0), Offset(0, 1), Offset(1, 1)]
    case S => [Offset(-1, 1), Offset(0, 1), Offset(0, 0), Offset(1, 0)]
    case T => [Offset(-1, 0), Offset(0, 0), Offset(1, 0), Offset(0, 1)]
    case Z => [Offset(-1, 0), Offset(0, 0), Offset(0, 1), Offset(1, 1)]
  }

  /** The entry of every table row that is the pivot block itself. */
  function PivotIndex(p: Tetramino): (k: nat)
    ensures k < 4 && Offsets(p)[k] == Offset(0, 0)
  {
    match p
    case L => 0
    case O => 0
    case S => 2
    case _ => 1
  }

  /** applyOffset: the block at offset `o` from the pivot (x, y) under
      `rotation`; a rotation outside 0..3 leaves the pivot unchanged. */
  function ApplyOffset(rotation: int, o: Offset, x: int, y: int): Cell
  {
    if rotation == 0 then Cell(x + o.dx, y + o.dy)
    else if rotation == 1 then Cell(x + o.dy, y - o.dx)
    else if rotation == 2 then Cell(x - o.dx, y - o.dy)
    else if rotation == 3 then Cell(x - o.dy, y + o.dx)
    else Cell(x, y)
  }

  /** One quarter turn of an offset: (ox, oy) -> (oy, -ox). */
  function Quarter(o: Offset): Offset
  {
    Offset(o.dy, -o.dx)
  }

  /** `k` quarter turns. */
  function Turned(o: Offset, k: nat): Offset
  {
    if k == 0 then o else Quarter(Turned(o, k - 1))
  }

  /** Rotation k places the block at k quarter turns of its offset; rotation 0
      is the table itself and rotation 2 its negation. */
  lemma ApplyOffsetTurns(rotation: int, o: Offset, x: int, y: int)
    requires 0 <= rotation < 4
    ensures ApplyOffset(rotation, o, x, y) == Cell(x + Turned(o, rotation).dx, y + Turned(o, rotation).dy)
    ensures rotation == 0 ==> ApplyOffset(rotation, o, x, y) == Cell(x + o.dx, y + o.dy)
    ensures rotation == 2 ==> ApplyOffset(rotation, o, x, y) == Cell(x - o.dx, y - o.dy)
  {
  }

  /** Four quarter turns are the identity. */
  lemma FourTurns(o: Offset)
    ensures Turned(o, 4) == o
  {
    assert Turned(o, 1) == Offset(o.dy, -o.dx);
    assert Turned(o, 2) == Offset(-o.dx, -o.dy);
    assert Turned(o, 3) == Offset(-o.dy, o.dx);
  }

  /** applyOffset over a list of offsets, in order. */
  function Placed(rotation: int, os: seq<Offset>, x: int, y: int): (cs: seq<Cell>)
    ensures |cs| == |os|
  {
    if os == [] then [] else [ApplyOffset(rotation, os[0], x, y)] + Placed(rotation, os[1..], x, y)
  }

  lemma {:induction false} PlacedAt(rotation: int, os: seq<Offset>, x: int, y: int, k: int)
    requires 0 <= k < |os|
    ensures Placed(rotation, os, x, y)[k] == ApplyOffset(rotation, os[k], x, y)
    decreases |os|
  {
    if k > 0 {
      PlacedAt(rotation, os[1..], x, y, k - 1);
    }
  }

  /** The four blocks of a piece, in table order. */
  function Cells(p: Tetramino, rotation: int, x: int, y: int): (cs: seq<Cell>)
    ensures |cs| == 4
  {
    Placed(rotation, Offsets(p), x, y)
  }

  /** Block k of a piece is applyOffset of the k-th table entry. */
  lemma CellAt(p: Tetramino, rotation: int, x: int, y: int, k: int)
    requires 0 <= k < 4
    ensures Cells(p, rotation, x, y)[k] == ApplyOffset(rotation, Offsets(p)[k], x, y)
  {
    PlacedAt(rotation, Offsets(p), x, y, k);
  }

  /** The pivot is always one of the piece's blocks. */
  lemma PivotIsCell(p: Tetramino, rotation: int, x: int, y: int)
    ensures Cell(x, y) in Cells(p, rotation, x, y)
  {
    CellAt(p, rotation, x, y, PivotIndex(p));
  }

  lemma ApplyOffsetShift(rotation: int, o: Offset, x: int, y: int, dx: int, dy: int)
    ensures ApplyOffset(rotation, o, x + dx, y + dy) ==
      Cell(ApplyOffset(rotation, o, x, y).x + dx, ApplyOffset(rotation, o, x, y).y + dy)
  {
  }

  /** Moving the pivot moves every block by the same amount. */
  lemma CellsShift(p: Tetramino, rotation: int, x: int, y: int, dx: int, dy: int)
    ensures forall k :: 0 <= k < 4 ==>
      Cells(p, rotation, x + dx, y + dy)[k] == Cell(Cells(p, rotation, x, y)[k].x + dx, Cells(p, rotation, x, y)[k].y + dy)
  {
    var os := Offsets(p);
    forall k | 0 <= k < 4
      ensures Cells(p, rotation, x + dx, y + dy)[k] == Cell(Cells(p, rotation, x, y)[k].x + dx, Cells(p, rotation, x, y)[k].y + dy)
    {
      CellAt(p, rotation, x, y, k);
      CellAt(p, rotation, x + dx, y + dy, k);
      ApplyOffsetShift(rotation, os[k], x, y, dx, dy);
    }
  }

  /** The scan over occupied_: whether (px, py) is a recorded block. */
  function Recorded(occ: seq<Cell>, px: int, py: int): (r: bool)
    ensures r <==> Cell(px, py) in occ
  {
    if occ == [] then false
    else if occ[0].x == px && occ[0].y == py then true
    else Recorded(occ[1..], px, py)
  }

  /** isOccupied: outside the side walls or below the floor, or a recorded
      block; rows above the board (y < 0) count as free. */
  function IsOccupied(occ: seq<Cell>, width: int, height: int, px: int, py: int): (r: bool)
    ensures r <==> px < 0 || px >= width || py >= height || Cell(px, py) in occ
  {
    if px < 0 || px >= width || py >= height then true
    else Recorded(occ, px, py)
  }

  /** Every block is free (what movePiece and advancePiece test). */
  predicate Fits(occ: seq<Cell>, width: int, height: int, cs: seq<Cell>)
  {
    forall k :: 0 <= k < |cs| ==> !IsOccupied(occ, width, height, cs[k].x, cs[k].y)
  }

  /** Every block lies on the board (what Rotate tests). */
  predicate OnBoard(width: int, height: int, cs: seq<Cell>)
  {
    forall k :: 0 <= k < |cs| ==> 0 <= cs[k].x < width && 0 <= cs[k].y < height
  }

  /** Every block lies in a row of presentBlocks_. */
  predicate RowsIn(cs: seq<Cell>, height: int)
  {
    forall k :: 0 <= k < |cs| ==> 0 <= cs[k].y < height
  }

  /** Number of blocks in row r. */
  function Count(occ: seq<Cell>, r: int): (n: nat)
    ensures n <= |occ|
  {
    if occ == [] then 0
    else Count(occ[..|occ| - 1], r) + (if occ[|occ| - 1].y == r then 1 else 0)
  }

  /** presentBlocks_ as it should be: the count of every row. */
  function RowCounts(occ: seq<Cell>, height: nat): (c: seq<int>)
    ensures |c| == height && forall r :: 0 <= r < height ==> c[r] == Count(occ, r)
  {
    seq(height, r => Count(occ, r))
  }

  lemma CountAppend(occ: seq<Cell>, c: Cell, r: int)
    ensures Count(occ + [c], r) == Count(occ, r) + (if c.y == r then 1 else 0)
  {
    assert (occ + [c])[..|occ|] == occ;
  }

  /** A row outside the range of the blocks is empty. */
  lemma {:induction false} CountOutside(occ: seq<Cell>, height: int, r: int)
    requires RowsIn(occ, height) && (r < 0 || r >= height)
    ensures Count(occ, r) == 0
    decreases |occ|
  {
    if occ != [] {
      CountOutside(occ[..|occ| - 1], height, r);
    }
  }

  /** The increments the recording loop of advancePiece makes, block by block. */
  function AddCounts(counts: seq<int>, cs: seq<Cell>): (r: seq<int>)
    requires RowsIn(cs, |counts|)
    ensures |r| == |counts|
  {
    if cs == [] then counts
    else
      var pre := AddCounts(counts, cs[..|cs| - 1]);
      var c := cs[|cs| - 1];
      pre[c.y := pre[c.y] + 1]
  }

  /** Counting the recorded blocks one by one keeps presentBlocks_ exact. */
  lemma {:induction false} AddCountsExact(occ: seq<Cell>, cs: seq<Cell>, height: nat)
    requires RowsIn(cs, height)
    ensures AddCounts(RowCounts(occ, height), cs) == RowCounts(occ + cs, height)
    decreases |cs|
  {
    if cs == [] {
      assert occ + cs == occ;
    } else {
      var n := |cs| - 1;
      AddCountsExact(occ, cs[..n], height);
      assert occ + cs == (occ + cs[..n]) + [cs[n]];
      forall r | 0 <= r < height
        ensures AddCounts(RowCounts(occ, height), cs)[r] == Count(occ + cs, r)
      {
        CountAppend(occ + cs[..n], cs[n], r);
      }
    }
  }

  /** What the erase loop of removeLines does to one block when row i is full. */
  function Shift(c: Cell, i: int): Cell
  {
    if c.y < i then Cell(c.x, c.y + 1) else c
  }

  /** The erase loop for a full row i: its blocks go, the blocks above it move
      down one row, the order of the list is kept. */
  function ClearRow(occ: seq<Cell>, i: int): (r: seq<Cell>)
    ensures |r| == |occ| - Count(occ, i)
  {
    if occ == [] then []
    else
      var c := occ[|occ| - 1];
      ClearRow(occ[..|occ| - 1], i) + (if c.y == i then [] else [Shift(c, i)])
  }

  /** After clearing row i, every row r <= i holds what row r - 1 held
      before (row i takes row i - 1's blocks, row 0 takes those of row -1,
      of which a board has none), and the rows r > i below it keep theirs. */
  lemma {:induction false} CountClearRow(occ: seq<Cell>, i: int, r: int)
    ensures r > i ==> Count(ClearRow(occ, i), r) == Count(occ, r)
    ensures r <= i ==> Count(ClearRow(occ, i), r) == Count(occ, r - 1)
    decreases |occ|
  {
    if occ != [] {
      var pre := occ[..|occ| - 1];
      var c := occ[|occ| - 1];
      CountClearRow(pre, i, r);
      if c.y != i {
        CountAppend(ClearRow(pre, i), Shift(c, i), r);
      } else {
        assert ClearRow(pre, i) + [] == ClearRow(pre, i);
      }
    }
  }

  lemma {:induction false} ClearRowRows(occ: seq<Cell>, i: int, height: int)
    requires RowsIn(occ, height) && i < height
    ensures RowsIn(ClearRow(occ, i), height)
    decreases |occ|
  {
    if occ != [] {
      ClearRowRows(occ[..|occ| - 1], i, height);
    }
  }

  /** The outer loop of removeLines from row i down: every row whose stored
      count equals the width is cleared, top to bottom, with the counts as they
      stood before the loop. */
  function RemoveFrom(occ: seq<Cell>, counts: seq<int>, width: int, i: nat): (r: seq<Cell>)
    ensures |r| <= |occ|
    decreases |counts| - i
  {
    if i >= |counts| then occ
    else RemoveFrom(if counts[i] == width then ClearRow(occ, i) else occ, counts, width, i + 1)
  }

  /** With exact counts, the loop removes every full row: afterwards no row
      holds `width` blocks, and the list is untouched unless a block went. */
  lemma {:induction false} RemoveFromClears(occ: seq<Cell>, counts: seq<int>, width: int, i: nat)
    requires width > 0 && i <= |counts| && RowsIn(occ, |counts|)
    requires forall r :: i <= r < |counts| ==> counts[r] == Count(occ, r)
    requires forall r :: 0 <= r < i ==> Count(occ, r) != width
    ensures RowsIn(RemoveFrom(occ, counts, width, i), |counts|)
    ensures forall r :: 0 <= r < |counts| ==> Count(RemoveFrom(occ, counts, width, i), r) != width
    ensures |RemoveFrom(occ, counts, width, i)| == |occ| ==> RemoveFrom(occ, counts, width, i) == occ
    decreases |counts| - i
  {
    if i < |counts| {
      if counts[i] == width {
        var next := ClearRow(occ, i);
        ClearRowRows(occ, i, |counts|);
        forall r | i + 1 <= r < |counts|
          ensures counts[r] == Count(next, r)
        {
          CountClearRow(occ, i, r);
        }
        forall r | 0 <= r < i + 1
          ensures Count(next, r) != width
        {
          CountClearRow(occ, i, r);
          if r == 0 {
            CountOutside(occ, |counts|, -1);
          }
        }
        RemoveFromClears(next, counts, width, i + 1);
      } else {
        RemoveFromClears(occ, counts, width, i + 1);
      }
    }
  }

  /** The whole game state that the methods below change. */
  datatype Game = Game(piece: Tetramino, x: int, y: int, rotation: int,
                       occupied: seq<Cell>, counts: seq<int>, gameOver: bool)

  function PieceCells(g: Game): seq<Cell>
  {
    Cells(g.piece, g.rotation, g.x, g.y)
  }

  /** What every reachable state keeps: exact row counts over blocks that lie
      in the board's rows, a falling piece within those rows, and, while the
      game runs, a falling piece wholly on the board. */
  predicate GameValid(g: Game, width: int, height: int)
  {
    width >= 4 && height >= 2 && |g.counts| == height && 0 <= g.rotation < 4 &&
    RowsIn(g.occupied, height) && g.counts == RowCounts(g.occupied, height) &&
    RowsIn(PieceCells(g), height) &&
    (!g.gameOver ==> OnBoard(width, height, PieceCells(g)))
  }

  /** movePiece(dx): a sideways move that happens only when every shifted block is free. */
  function MoveFn(g: Game, dx: int, width: int, height: int): Game
  {
    if Fits(g.occupied, width, height, Cells(g.piece, g.rotation, g.x + dx, g.y)) then g.(x := g.x + dx)
    else g
  }

  /** Rotate's test: the next rotation is taken only if every rotated block
      lies on the board; recorded blocks are not consulted. */
  function RotateFn(g: Game, width: int, height: int): Game
  {
    var nr := (g.rotation + 1) % 4;
    if OnBoard(width, height, Cells(g.piece, nr, g.x, g.y)) then g.(rotation := nr) else g
  }

  /** spawnPiece: a new piece at (width/2 - 1, 0), rotation 0; game over only
      when a recorded block sits on the pivot itself. */
  function SpawnFn(g: Game, roll: nat, width: int): Game
  {
    var px := width / 2 - 1;
    g.(piece := FromIndex(roll % 7), x := px, y := 0, rotation := 0,
       gameOver := if Cell(px, 0) in g.occupied then true else g.gameOver)
  }

  /** The recording loop of advancePiece: the four blocks join occupied_ and
      their rows' counts. */
  function RecordFn(g: Game): Game
    requires RowsIn(PieceCells(g), |g.counts|)
  {
    g.(occupied := g.occupied + PieceCells(g), counts := AddCounts(g.counts, PieceCells(g)))
  }

  /** removeLines: the counts are rebuilt only when some block was erased. */
  function RemoveLinesFn(g: Game, width: int): Game
    requires RowsIn(g.occupied, |g.counts|)
  {
    var occ := RemoveFrom(g.occupied, g.counts, width, 0);
    g.(occupied := occ, counts := if |occ| < |g.occupied| then RowCounts(occ, |g.counts|) else g.counts)
  }

  /** Landing: record the piece, spawn the next, and clear lines unless the spawn ended the game. */
  function LandFn(g: Game, roll: nat, width: int, height: int): Game
    requires GameValid(g, width, height)
  {
    var g1 := SpawnFn(RecordFn(g), roll, width);
    RowsInAppend(g.occupied, PieceCells(g), height);
    if g1.gameOver then g1 else RemoveLinesFn(g1, width)
  }

  /** advancePiece: one row down when every block fits there, else land. */
  function AdvanceFn(g: Game, roll: nat, width: int, height: int): (Game, bool)
    requires GameValid(g, width, height)
  {
    if Fits(g.occupied, width, height, Cells(g.piece, g.rotation, g.x, g.y + 1)) then (g.(y := g.y + 1), true)
    else (LandFn(g, roll, width, height), false)
  }

  /** A piece moved down fits, so its pivot row is still above the floor. */
  lemma FitsBelowFloor(g: Game, width: int, height: int)
    requires Fits(g.occupied, width, height, Cells(g.piece, g.rotation, g.x, g.y + 1))
    ensures g.y + 1 < height
  {
    PivotIsCell(g.piece, g.rotation, g.x, g.y + 1);
    var cs := Cells(g.piece, g.rotation, g.x, g.y + 1);
    var k :| 0 <= k < 4 && cs[k] == Cell(g.x, g.y + 1);
    assert !IsOccupied(g.occupied, width, height, cs[k].x, cs[k].y);
  }

  /** Drop: advance until the piece lands (the landing consumes the roll). */
  function DropFn(g: Game, roll: nat, width: int, height: int): (r: Game)
    requires GameValid(g, width, height)
    ensures GameValid(r, width, height)
    decreases height - g.y
  {
    var step := AdvanceFn(g, roll, width, height);
    AdvanceKeepsValid(g, roll, width, height);
    if step.1 then
      FitsBelowFloor(g, width, height);
      DropFn(step.0, roll, width, height)
    else step.0
  }

  /** reset (as Left/Right call it during game over): empty board, zero counts, a new piece. */
  function ResetFn(g: Game, roll: nat, width: int, height: nat): Game
  {
    SpawnFn(g.(gameOver := false, occupied := [], counts := seq(height, _ => 0)), roll, width)
  }

  lemma RowsInAppend(a: seq<Cell>, b: seq<Cell>, height: int)
    requires RowsIn(a, height) && RowsIn(b, height)
    ensures RowsIn(a + b, height)
  {
    forall k | 0 <= k < |a + b|
      ensures 0 <= (a + b)[k].y < height
    {
      if k >= |a| {
        assert (a + b)[k] == b[k - |a|];
      }
    }
  }

  /** A freshly spawned piece lies on the board. */
  lemma SpawnOnBoard(p: Tetramino, width: int, height: int)
    requires width >= 4 && height >= 2
    ensures OnBoard(width, height, Cells(p, 0, width / 2 - 1, 0))
  {
    var cs := Cells(p, 0, width / 2 - 1, 0);
    forall k | 0 <= k < 4
      ensures 0 <= cs[k].x < width && 0 <= cs[k].y < height
    {
      CellAt(p, 0, width / 2 - 1, 0, k);
    }
  }

  lemma SpawnKeepsValid(g: Game, roll: nat, width: int, height: int)
    requires width >= 4 && height >= 2 && |g.counts| == height
    requires RowsIn(g.occupied, height) && g.counts == RowCounts(g.occupied, height)
    ensures GameValid(SpawnFn(g, roll, width), width, height)
  {
    SpawnOnBoard(FromIndex(roll % 7), width, height);
  }

  /** A piece moved sideways or down onto free blocks stays on the board. */
  lemma ShiftKeepsValid(g: Game, dx: int, dy: int, width: int, height: int)
    requires GameValid(g, width, height) && dy >= 0
    requires Fits(g.occupied, width, height, Cells(g.piece, g.rotation, g.x + dx, g.y + dy))
    ensures GameValid(g.(x := g.x + dx, y := g.y + dy), width, height)
  {
    var cs := Cells(g.piece, g.rotation, g.x + dx, g.y + dy);
    var old_cs := PieceCells(g);
    CellsShift(g.piece, g.rotation, g.x, g.y, dx, dy);
    forall k | 0 <= k < 4
      ensures 0 <= cs[k].x < width && 0 <= cs[k].y < height
    {
      assert !IsOccupied(g.occupied, width, height, cs[k].x, cs[k].y);
      assert 0 <= old_cs[k].y;
    }
    assert PieceCells(g.(x := g.x + dx, y := g.y + dy)) == cs;
  }

  lemma MoveKeepsValid(g: Game, dx: int, width: int, height: int)
    requires GameValid(g, width, height)
    ensures GameValid(MoveFn(g, dx, width, height), width, height)
  {
    if Fits(g.occupied, width, height, Cells(g.piece, g.rotation, g.x + dx, g.y)) {
      ShiftKeepsValid(g, dx, 0, width, height);
      assert g.(x := g.x + dx, y := g.y + 0) == MoveFn(g, dx, width, height);
    }
  }

  lemma RotateKeepsValid(g: Game, width: int, height: int)
    requires GameValid(g, width, height)
    ensures GameValid(RotateFn(g, width, height), width, height)
  {
  }

  lemma RemoveLinesKeepsValid(g: Game, width: int, height: int)
    requires GameValid(g, width, height)
    ensures GameValid(RemoveLinesFn(g, width), width, height)
    ensures forall r :: 0 <= r < height ==> Count(RemoveLinesFn(g, width).occupied, r) != width
  {
    RemoveFromClears(g.occupied, g.counts, width, 0);
  }

  lemma LandKeepsValid(g: Game, roll: nat, width: int, height: int)
    requires GameValid(g, width, height)
    ensures GameValid(LandFn(g, roll, width, height), width, height)
    ensures !LandFn(g, roll, width, height).gameOver ==>
      forall r :: 0 <= r < height ==> Count(LandFn(g, roll, width, height).occupied, r) != width
  {
    var g0 := RecordFn(g);
    RowsInAppend(g.occupied, PieceCells(g), height);
    AddCountsExact(g.occupied, PieceCells(g), height);
    SpawnKeepsValid(g0, roll, width, height);
    var g1 := SpawnFn(g0, roll, width);
    if !g1.gameOver {
      RemoveLinesKeepsValid(g1, width, height);
    }
  }

  lemma AdvanceKeepsValid(g: Game, roll: nat, width: int, height: int)
    requires GameValid(g, width, height)
    ensures GameValid(AdvanceFn(g, roll, width, height).0, width, height)
  {
    if Fits(g.occupied, width, height, Cells(g.piece, g.rotation, g.x, g.y + 1)) {
      ShiftKeepsValid(g, 0, 1, width, height);
      assert g.(x := g.x + 0, y := g.y + 1) == AdvanceFn(g, roll, width, height).0;
    } else {
      LandKeepsValid(g, roll, width, height);
    }
  }

  lemma ResetKeepsValid(g: Game, roll: nat, width: int, height: nat)
    requires width >= 4 && height >= 2
    ensures GameValid(ResetFn(g, roll, width, height), width, height)
    ensures !ResetFn(g, roll, width, height).gameOver && ResetFn(g, roll, width, height).occupied == []
  {
    SpawnKeepsValid(g.(gameOver := false, occupied := [], counts := seq(height, _ => 0)), roll, width, height);
  }

  class Tetris {
    /** width_ and height_: Display::width / 10 and Display::height / 10. */
    const width: int
    const height: int
    var hasDisplay: bool
    var lastTime: int
    var piece: Tetramino
    var x: int
    var y: int
    var rotation: int
    var occupied: seq<Cell>
    var presentBlocks: array<int>
    var gameOver: bool

    ghost function Abs(): Game
      reads this, presentBlocks
    {
      Game(piece, x, y, rotation, occupied, presentBlocks[..], gameOver)
    }

    ghost predicate Valid()
      reads this, presentBlocks
    {
      presentBlocks.Length == height && IsUInt64(lastTime) && GameValid(Abs(), width, height)
    }

    /** The initial members: piece I at (0, 0), no blocks, game over. */
    constructor (width: int, height: int)
      requires width >= 4 && height >= 2
      ensures Valid() && fresh(presentBlocks)
      ensures this.width == width && this.height == height && !hasDisplay && lastTime == 0
      ensures Abs() == Game(I, 0, 0, 0, [], seq(height, _ => 0), true)
    {
      this.width := width;
      this.height := height;
      hasDisplay := false;
      lastTime := 0;
      piece := I;
      x, y, rotation := 0, 0, 0;
      occupied := [];
      presentBlocks := new int[height](_ => 0);
      gameOver := true;
    }

    /** SetDisplay: only the pointer changes. */
    method SetDisplay(present: bool)
      requires Valid()
      modifies this
      ensures Valid() && hasDisplay == present && presentBlocks == old(presentBlocks)
      ensures Abs() == old(Abs()) && lastTime == old(lastTime)
    {
      hasDisplay := present;
    }

    /** The loop movePiece and advancePiece share: every block of the piece
        placed at (px, py) with rotation rot is tested with isOccupied, and the
        first occupied one stops the scan. */
    method FreeAt(px: int, py: int) returns (free: bool)
      ensures free <==> Fits(occupied, width, height, Cells(piece, rotation, px, py))
    {
      ghost var cs := Cells(piece, rotation, px, py);
      var os := Offsets(piece);
      var k := 0;
      while k < 4
        invariant 0 <= k <= 4
        invariant forall j :: 0 <= j < k ==> !IsOccupied(occupied, width, height, cs[j].x, cs[j].y)
      {
        var c := ApplyOffset(rotation, os[k], px, py);
        CellAt(piece, rotation, px, py, k);
        if IsOccupied(occupied, width, height, c.x, c.y) {
          return false;
        }
        k := k + 1;
      }
      return true;
    }

    /** The loop of Rotate: every block under rotation rot must lie on the board. */
    method OnBoardAt(rot: int) returns (inside: bool)
      ensures inside <==> OnBoard(width, height, Cells(piece, rot, x, y))
    {
      ghost var cs := Cells(piece, rot, x, y);
      var os := Offsets(piece);
      var k := 0;
      while k < 4
        invariant 0 <= k <= 4
        invariant forall j :: 0 <= j < k ==> 0 <= cs[j].x < width && 0 <= cs[j].y < height
      {
        var c := ApplyOffset(rot, os[k], x, y);
        CellAt(piece, rot, x, y, k);
        if c.x < 0 || c.x >= width || c.y < 0 || c.y >= height {
          return false;
        }
        k := k + 1;
      }
      return true;
    }

    /** movePiece(dx). */
    method MovePiece(dx: int)
      requires Valid()
      modifies this
      ensures Valid() && hasDisplay == old(hasDisplay) && lastTime == old(lastTime)
      ensures presentBlocks == old(presentBlocks)
      ensures Abs() == MoveFn(old(Abs()), dx, width, height)
    {
      MoveKeepsValid(Abs(), dx, width, height);
      var free := FreeAt(x + dx, y);
      if free {
        x := x + dx;
      }
    }

    /** Rotate(). */
    method Rotate()
      requires Valid()
      modifies this
      ensures Valid() && hasDisplay == old(hasDisplay) && lastTime == old(lastTime)
      ensures presentBlocks == old(presentBlocks)
      ensures Abs() == if hasDisplay then RotateFn(old(Abs()), width, height) else old(Abs())
    {
      if !hasDisplay {
        return;
      }
      var newRotation := if rotation == 3 then 0 else rotation + 1;
      var inside := OnBoardAt(newRotation);
      if inside {
        SetRotation(newRotation);
      }
    }

    /** The assignment rotation_ = newRotation once every rotated block is on the board. */
    method SetRotation(r: int)
      requires Valid() && r == (rotation + 1) % 4 && OnBoard(width, height, Cells(piece, r, x, y))
      modifies this
      ensures Valid() && hasDisplay == old(hasDisplay) && lastTime == old(lastTime)
      ensures presentBlocks == old(presentBlocks)
      ensures Abs() == RotateFn(old(Abs()), width, height)
    {
      RotateKeepsValid(Abs(), width, height);
      rotation := r;
    }

    /** spawnPiece(), with `roll` the value of rand(). */
    method SpawnPiece(roll: nat)
      requires width >= 4 && height >= 2 && presentBlocks.Length == height && IsUInt64(lastTime)
      requires RowsIn(occupied, height) && presentBlocks[..] == RowCounts(occupied, height)
      modifies this
      ensures Valid() && hasDisplay == old(hasDisplay) && lastTime == old(lastTime)
      ensures presentBlocks == old(presentBlocks)
      ensures Abs() == SpawnFn(old(Abs()), roll, width)
    {
      SpawnKeepsValid(Abs(), roll, width, height);
      piece := FromIndex(roll % 7);
      x := width / 2 - 1;
      y := 0;
      rotation := 0;
      var occ := occupied;
      var k := 0;
      while k < |occ|
        invariant 0 <= k <= |occ|
        invariant Cell(x, y) !in occ[..k]
      {
        if occ[k].x == x && occ[k].y == y {
          gameOver := true;
          return;
        }
        assert occ[..k + 1] == occ[..k] + [occ[k]];
        k := k + 1;
      }
      assert occ[..k] == occ;
    }

    /** The recording loop of advancePiece. */
    method RecordPiece()
      requires presentBlocks.Length == height && RowsIn(PieceCells(Abs()), height)
      modifies this, presentBlocks
      ensures hasDisplay == old(hasDisplay) && lastTime == old(lastTime) && presentBlocks == old(presentBlocks)
      ensures Abs() == RecordFn(old(Abs()))
    {
      ghost var cs := PieceCells(Abs());
      ghost var counts0 := presentBlocks[..];
      var occ := occupied;
      var os := Offsets(piece);
      var k := 0;
      while k < 4
        invariant 0 <= k <= 4
        invariant occ == occupied + cs[..k]
        invariant presentBlocks[..] == AddCounts(counts0, cs[..k])
        modifies presentBlocks
      {
        var c := ApplyOffset(rotation, os[k], x, y);
        CellAt(piece, rotation, x, y, k);
        assert cs[..k + 1][..k] == cs[..k];
        occ := occ + [c];
        presentBlocks[c.y] := presentBlocks[c.y] + 1;
        assert occ == occupied + cs[..k + 1];
        k := k + 1;
      }
      assert cs[..4] == cs;
      occupied := occ;
    }

    /** The erase loop of removeLines for the full row i. */
    method ClearRowOf(i: int) returns (erased: bool)
      requires 0 <= i < height && RowsIn(occupied, height)
      modifies this
      ensures occupied == ClearRow(old(occupied), i) && RowsIn(occupied, height)
      ensures erased <==> |occupied| < |old(occupied)|
      ensures piece == old(piece) && x == old(x) && y == old(y) && rotation == old(rotation)
      ensures gameOver == old(gameOver) && hasDisplay == old(hasDisplay) && lastTime == old(lastTime)
      ensures presentBlocks == old(presentBlocks)
    {
      ClearRowRows(occupied, i, height);
      var kept: seq<Cell> := [];
      erased := false;
      var k := 0;
      while k < |occupied|
        invariant 0 <= k <= |occupied|
        invariant kept == ClearRow(occupied[..k], i)
        invariant erased <==> |kept| < k
      {
        var c := occupied[k];
        assert occupied[..k + 1][..k] == occupied[..k];
        if c.y == i {
          erased := true;
        } else {
          kept := kept + [Shift(c, i)];
        }
        k := k + 1;
      }
      assert occupied[..k] == occupied;
      occupied := kept;
    }

    /** Rebuilding presentBlocks_ from occupied_. */
    method Recount()
      requires presentBlocks.Length == height && RowsIn(occupied, height)
      modifies presentBlocks
      ensures presentBlocks[..] == RowCounts(occupied, height)
    {
      var r := 0;
      while r < height
        invariant 0 <= r <= height
        invariant forall j :: 0 <= j < r ==> presentBlocks[j] == 0
      {
        presentBlocks[r] := 0;
        r := r + 1;
      }
      var k := 0;
      while k < |occupied|
        invariant 0 <= k <= |occupied|
        invariant forall j :: 0 <= j < height ==> presentBlocks[j] == Count(occupied[..k], j)
      {
        var c := occupied[k];
        forall j | 0 <= j < height
          ensures Count(occupied[..k + 1], j) == Count(occupied[..k], j) + (if c.y == j then 1 else 0)
        {
          assert occupied[..k + 1] == occupied[..k] + [c];
          CountAppend(occupied[..k], c, j);
        }
        presentBlocks[c.y] := presentBlocks[c.y] + 1;
        k := k + 1;
      }
      assert occupied[..k] == occupied;
    }

    /** removeLines(). */
    method RemoveLines()
      requires Valid()
      modifies this, presentBlocks
      ensures Valid() && hasDisplay == old(hasDisplay) && lastTime == old(lastTime)
      ensures presentBlocks == old(presentBlocks)
      ensures Abs() == RemoveLinesFn(old(Abs()), width)
    {
      RemoveLinesKeepsValid(Abs(), width, height);
      ghost var occ0 := occupied;
      var needRedraw := false;
      var i := 0;
      while i < height
        invariant 0 <= i <= height
        invariant RowsIn(occupied, height)
        invariant RemoveFrom(occupied, presentBlocks[..], width, i) == RemoveFrom(occ0, presentBlocks[..], width, 0)
        invariant |occupied| <= |occ0| && (needRedraw <==> |occupied| < |occ0|)
        invariant presentBlocks[..] == old(presentBlocks[..])
        invariant piece == old(piece) && x == old(x) && y == old(y) && rotation == old(rotation)
        invariant gameOver == old(gameOver) && hasDisplay == old(hasDisplay) && lastTime == old(lastTime)
        invariant presentBlocks == old(presentBlocks)
      {
        if presentBlocks[i] == width {
          var erased := ClearRowOf(i);
          needRedraw := needRedraw || erased;
        }
        i := i + 1;
      }
      if needRedraw {
        Recount();
      }
    }

    /** advancePiece(); `roll` feeds the spawn when the piece lands. */
    method AdvancePiece(roll: nat) returns (moved: bool)
      requires Valid()
      modifies this, presentBlocks
      ensures Valid() && hasDisplay == old(hasDisplay) && lastTime == old(lastTime)
      ensures presentBlocks == old(presentBlocks)
      ensures (Abs(), moved) == AdvanceFn(old(Abs()), roll, width, height)
    {
      AdvanceKeepsValid(Abs(), roll, width, height);
      var free := FreeAt(x, y + 1);
      if !free {
        Land(roll);
        return false;
      }
      y := y + 1;
      return true;
    }

    /** The landing branch of advancePiece. */
    method Land(roll: nat)
      requires Valid()
      modifies this, presentBlocks
      ensures Valid() && hasDisplay == old(hasDisplay) && lastTime == old(lastTime)
      ensures presentBlocks == old(presentBlocks)
      ensures Abs() == LandFn(old(Abs()), roll, width, height)
    {
      ghost var g := Abs();
      RowsInAppend(g.occupied, PieceCells(g), height);
      AddCountsExact(g.occupied, PieceCells(g), height);
      RecordPiece();
      SpawnPiece(roll);
      if !gameOver {
        RemoveLines();
      }
    }

    /** Drop(): advance until the piece lands. */
    method Drop(roll: nat)
      requires Valid()
      modifies this, presentBlocks
      ensures Valid() && hasDisplay == old(hasDisplay) && lastTime == old(lastTime)
      ensures hasDisplay ==> Abs() == DropFn(old(Abs()), roll, width, height)
      ensures !hasDisplay ==> Abs() == old(Abs())
    {
      if !hasDisplay {
        return;
      }
      ghost var g := Abs();
      var moved := AdvancePiece(roll);
      while moved
        invariant Valid() && hasDisplay == old(hasDisplay) && lastTime == old(lastTime)
        invariant GameValid(g, width, height)
        invariant (Abs(), moved) == AdvanceFn(g, roll, width, height)
        invariant DropFn(old(Abs()), roll, width, height) == DropFn(g, roll, width, height)
        invariant presentBlocks == old(presentBlocks)
        decreases if moved then height - y + 1 else 0
      {
        FitsBelowFloor(g, width, height);
        g := Abs();
        moved := AdvancePiece(roll);
      }
    }

    /** Left() and Right(): dx is -1 or 1. With no display nothing happens;
        during game over the board is reset instead of moving. */
    method Sideways(dx: int, roll: nat)
      requires Valid() && (dx == -1 || dx == 1)
      modifies this, presentBlocks
      ensures Valid() && hasDisplay == old(hasDisplay) && lastTime == old(lastTime)
      ensures !hasDisplay ==> Abs() == old(Abs())
      ensures hasDisplay && old(gameOver) ==> Abs() == ResetFn(old(Abs()), roll, width, height)
      ensures hasDisplay && !old(gameOver) ==> Abs() == MoveFn(old(Abs()), dx, width, height)
    {
      if !hasDisplay {
        return;
      }
      if gameOver {
        gameOver := false;
        Reset(roll);
        return;
      }
      MovePiece(dx);
    }

    /** reset(). */
    method Reset(roll: nat)
      requires width >= 4 && height >= 2 && presentBlocks.Length == height && IsUInt64(lastTime)
      modifies this, presentBlocks
      ensures Valid() && hasDisplay == old(hasDisplay) && lastTime == old(lastTime)
      ensures presentBlocks == old(presentBlocks)
      ensures Abs() == SpawnFn(old(Abs()).(occupied := [], counts := seq(height, _ => 0)), roll, width)
    {
      var r := 0;
      while r < height
        invariant 0 <= r <= height
        invariant forall j :: 0 <= j < r ==> presentBlocks[j] == 0
        modifies presentBlocks
      {
        presentBlocks[r] := 0;
        r := r + 1;
      }
      occupied := [];
      assert presentBlocks[..] == seq(height, _ => 0) == RowCounts([], height);
      SpawnPiece(roll);
    }

    /** Process(): one automatic step every SPEED ms while the game runs. */
    method Process(now: int, roll: nat)
      requires Valid() && IsUInt64(now)
      modifies this, presentBlocks
      ensures Valid() && hasDisplay == old(hasDisplay)
      ensures !old(hasDisplay) || old(gameOver) || Elapsed(now, old(lastTime)) < SPEED ==>
        Abs() == old(Abs()) && lastTime == old(lastTime)
      ensures old(hasDisplay) && !old(gameOver) && Elapsed(now, old(lastTime)) >= SPEED ==>
        lastTime == now && Abs() == AdvanceFn(old(Abs()), roll, width, height).0
    {
      if !hasDisplay || gameOver {
        return;
      }
      if Elapsed(now, lastTime) < SPEED {
        return;
      }
      lastTime := now;
      var _ := AdvancePiece(roll);
    }
  }
}
