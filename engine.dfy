/**
 * The simulation engine of TetrisGame.kt: a class owning the grid, the
 * active piece, its position, score, level and game state. Commands are
 * guarded by the RUNNING state; the gravity timer is reduced to `Tick`;
 * the random piece choice is an index `pick` into the catalog.
 */
module Engine {
  import opened Optional
  import opened Pieces
  import opened Board

  /** GameState.kt. */
  datatype GameState = Running | Paused | GameOver

  const ScorePerLevel := 1000
  const ScorePerLine := 100
  const MinFallDelayMs := 100
  const SpeedIncreasePerLevel := 30

  /** Kotlin's `Int` division, which truncates toward zero: the remainder takes the sign of `a`. */
  function TruncDiv(a: int, b: int): (q: int)
    requires b > 0
    ensures a >= 0 ==> q == a / b
    ensures a >= 0 ==> 0 <= a - q * b < b
    ensures a < 0 ==> -b < a - q * b <= 0
  {
    if a >= 0 then a / b else -((-a) / b)
  }

  /** `calculateFallDelay`: the base delay less 30 ms per level above 1, never below 100 ms. */
  function FallDelay(baseDelay: int, level: int): (d: int)
    ensures d >= MinFallDelayMs
    ensures d >= baseDelay - (level - 1) * SpeedIncreasePerLevel
    ensures d == MinFallDelayMs || d == baseDelay - (level - 1) * SpeedIncreasePerLevel
  {
    var delay := baseDelay - (level - 1) * SpeedIncreasePerLevel;
    if delay < MinFallDelayMs then MinFallDelayMs else delay
  }

  /** The fall delay never grows as the level rises. */
  lemma FallDelayNonIncreasing(baseDelay: int, level: int, higher: int)
    requires level <= higher
    ensures FallDelay(baseDelay, higher) <= FallDelay(baseDelay, level)
  {
  }

  /** The column `spawnNewTetromino` places piece `t` at on a grid of width `w`. */
  function SpawnX(w: int, t: Tetromino): (x: int)
    requires |t.shape| > 0
    ensures Width(t.shape) <= w ==> 0 <= x && x + Width(t.shape) <= w
  {
    TruncDiv(w - Width(t.shape), 2)
  }

  /**
   * The spawn column centres the piece. When the piece fits, an odd free
   * column goes to the right margin. When it is wider than the grid, an odd
   * overhanging column also sticks out on the right, because the division
   * truncates toward zero.
   */
  lemma SpawnCentred(w: int, t: Tetromino)
    requires |t.shape| > 0
    ensures var x, slack := SpawnX(w, t), w - Width(t.shape);
      (slack >= 0 ==> 0 <= x && 0 <= slack - 2 * x <= 1) && (slack < 0 ==> x <= 0 && -1 <= slack - 2 * x <= 0)
  {
  }

  // ----- 32-bit scoring, as the source's Int fields behave -----

  /** Kotlin's `Int` arithmetic: the mathematical value reduced into [-2^31, 2^31). */
  function Wrap32(x: int): (r: int)
    ensures -0x8000_0000 <= r < 0x8000_0000
    ensures (x - r) % 0x1_0000_0000 == 0
    ensures -0x8000_0000 <= x < 0x8000_0000 ==> r == x
  {
    (x + 0x8000_0000) % 0x1_0000_0000 - 0x8000_0000
  }

  /** The value fits in a Kotlin `Int`. */
  predicate InInt(x: int) {
    -0x8000_0000 <= x < 0x8000_0000
  }

  /** The score after `clearLines` with 32-bit `Int` fields: each product and the sum wrap. */
  function AwardedScore32(score: int, level: int, linesCleared: int): (r: int)
    ensures -0x8000_0000 <= r < 0x8000_0000
    ensures var gain := linesCleared * ScorePerLine * level;
      (InInt(score) && InInt(linesCleared * ScorePerLine) && InInt(gain) && InInt(score + gain)) ==> r == score + gain
  {
    Wrap32(score + Wrap32(Wrap32(linesCleared * ScorePerLine) * level))
  }

  /**
   * With 32-bit fields, a state the invariant allows (score 2147300800 at
   * level 2147301, reached by 158 single-line clears from 0) turns negative
   * on the next single-line clear, and the level recomputed from it is
   * negative too; the unbounded score of `AwardLines` only grows.
   */
  lemma ScoreWrapsNegative()
    ensures var s := AwardedScore32(2147300800, 2147300800 / ScorePerLevel + 1, 1);
      s == -1932936396 && s < 0 && TruncDiv(s, ScorePerLevel) + 1 == -1932935
  {
    assert 2147300800 / ScorePerLevel + 1 == 2147301;
    assert Wrap32(1 * ScorePerLine) == 100;
    assert Wrap32(100 * 2147301) == 214730100;
    assert Wrap32(2147300800 + 214730100) == -1932936396 by {
      assert 2147300800 + 214730100 + 0x8000_0000 == 0x1_0000_0000 + 214547252;
    }
    assert TruncDiv(-1932936396, ScorePerLevel) == -1932936;
  }

  /**
   * With unbounded integers, the score `AwardLines` leaves never falls, and
   * the level recomputed from it never falls and stays at least 1.
   */
  lemma ScoreNeverFalls(score: int, linesCleared: nat)
    requires score >= 0
    ensures var level := score / ScorePerLevel + 1;
      var after := score + linesCleared * ScorePerLine * level;
      after >= score && after / ScorePerLevel + 1 >= level >= 1
  {
    var level := score / ScorePerLevel + 1;
    var gain := linesCleared * ScorePerLine * level;
    assert gain >= 0 by {
      assert linesCleared * ScorePerLine >= 0;
    }
    DivMonotone(score, score + gain);
  }

  /** Division by the points per level is monotone. */
  lemma DivMonotone(a: int, b: int)
    requires 0 <= a <= b
    ensures a / ScorePerLevel <= b / ScorePerLevel
  {
  }

  /** The grid after the first half of `lockTetromino`: an absent piece writes nothing. */
  function LockedPiece(g: Grid, w: nat, h: nat, t: Option<Tetromino>, x: int, y: int): (r: Grid)
    requires IsGrid(g, w, h)
    ensures IsGrid(r, w, h)
  {
    match t
    case None => g
    case Some(p) => Locked(g, w, h, p.shape, x, y, p.color)
  }

  /** On an empty grid at least 4 wide and 2 high, every catalog piece spawns without collision. */
  lemma SpawnOnEmptyGrid(w: nat, h: nat, pick: int)
    requires w >= 4 && h >= 2 && 0 <= pick < PieceCount
    ensures var t := GetRandom(pick);
      !Collides(EmptyGrid(w, h), w, h, SpawnX(w, t), 0, Some(t.shape))
  {
    var t := GetRandom(pick);
    var g := EmptyGrid(w, h);
    var x := SpawnX(w, t);
    assert 0 <= x && x + Width(t.shape) <= w;
    assert |t.shape| <= 2;
    forall i, j | 0 <= i < |t.shape| && 0 <= j < |t.shape[i]|
      ensures !HitsAt(g, w, h, t.shape, x, 0, i, j)
    { }
  }

  class TetrisGame {
    const gridWidth: nat
    const gridHeight: nat
    var gameGrid: array2<int>
    var currentTetromino: Option<Tetromino>
    var currentX: int
    var currentY: int
    var score: int
    var level: int
    var gameState: GameState
    var initialFallDelayMs: int

    /** The cells of the grid, row by row. */
    ghost function Cells(): (g: Board.Grid)
      reads this`gameGrid, gameGrid
      ensures IsGrid(g, gameGrid.Length1, gameGrid.Length0)
    {
      var a := gameGrid;
      seq(a.Length0, r requires 0 <= r < a.Length0 reads a =>
        seq(a.Length1, c requires 0 <= c < a.Length1 reads a => a[r, c]))
    }

    /** Cell (r, c) of `Cells()` is cell (r, c) of the array. */
    lemma GridCells()
      ensures forall r, c :: 0 <= r < gameGrid.Length0 && 0 <= c < gameGrid.Length1 ==> Cells()[r][c] == gameGrid[r, c]
    {
    }

    /** `currentTetromino?.shape`. */
    function CurrentShape(): Option<Shape>
      reads this`currentTetromino
    {
      match currentTetromino
      case None => None
      case Some(t) => Some(t.shape)
    }

    /** The grid has the fixed dimensions. */
    ghost predicate Sized()
      reads this`gameGrid
    {
      gameGrid.Length0 == gridHeight && gameGrid.Length1 == gridWidth
    }

    /**
     * The invariant every command relies on except the one about the
     * piece's position: fixed dimensions, score at least 0, level always
     * score / 1000 + 1 (so at least 1), a well-formed piece.
     */
    ghost predicate Shaped()
      reads this`gameGrid, this`score, this`level, this`currentTetromino
    {
      Sized() && score >= 0 && level == score / ScorePerLevel + 1 &&
      (currentTetromino.Some? ==> WellFormed(currentTetromino.value.shape))
    }

    /** Outside GAME_OVER there is a piece and it does not collide where it stands. */
    ghost predicate Valid()
      reads this`gameGrid, gameGrid, this`score, this`level, this`currentTetromino
      reads this`currentX, this`currentY, this`gameState
    {
      Shaped() &&
      (gameState != GameOver ==> !Collides(Cells(), gridWidth, gridHeight, currentX, currentY, CurrentShape()))
    }

    /** A fresh piece from index `pick`, centred on row 0; GAME_OVER if it collides there, else `prior`. */
    ghost predicate JustSpawned(pick: int, prior: GameState)
      reads this`gameGrid, gameGrid, this`currentTetromino, this`currentX, this`currentY, this`gameState
      requires Sized() && 0 <= pick < PieceCount
    {
      currentTetromino == Some(GetRandom(pick)) &&
      currentX == SpawnX(gridWidth, GetRandom(pick)) && currentY == 0 &&
      gameState == if Collides(Cells(), gridWidth, gridHeight, currentX, 0, CurrentShape()) then GameOver else prior
    }

    constructor (gridWidth: nat, gridHeight: nat, initialFallDelay: int)
      ensures Valid() && fresh(gameGrid)
      ensures this.gridWidth == gridWidth && this.gridHeight == gridHeight
      ensures Cells() == EmptyGrid(gridWidth, gridHeight)
      ensures currentTetromino == None && currentX == 0 && currentY == 0
      ensures score == 0 && level == 1 && gameState == GameOver
      ensures initialFallDelayMs == initialFallDelay
    {
      this.gridWidth := gridWidth;
      this.gridHeight := gridHeight;
      gameGrid := new int[gridHeight, gridWidth]((r, c) => 0);
      currentTetromino := None;
      currentX, currentY := 0, 0;
      score, level := 0, 1;
      gameState := GameOver;
      initialFallDelayMs := initialFallDelay;
      new;
      SameGrid(Cells(), EmptyGrid(gridWidth, gridHeight), gridWidth, gridHeight);
    }

    /** `updateInitialFallDelay` without the timer restart. */
    method UpdateInitialFallDelay(newDelay: int)
      requires Valid()
      modifies this`initialFallDelayMs
      ensures Valid() && initialFallDelayMs == newDelay
    {
      initialFallDelayMs := newDelay;
    }

    /** `checkCollision`: scans the shape's cells and stops at the first one that hits. */
    method CheckCollision(x: int, y: int, shape: Option<Shape>) returns (hit: bool)
      requires Sized()
      ensures hit == Collides(Cells(), gridWidth, gridHeight, x, y, shape)
    {
      if shape.None? {
        return true;
      }
      var s := shape.value;
      ghost var g := Cells();
      for i := 0 to |s|
        invariant forall i', j' :: 0 <= i' < i && 0 <= j' < |s[i']| ==> !HitsAt(g, gridWidth, gridHeight, s, x, y, i', j')
      {
        for j := 0 to |s[i]|
          invariant forall i', j' :: 0 <= i' < i && 0 <= j' < |s[i']| ==> !HitsAt(g, gridWidth, gridHeight, s, x, y, i', j')
          invariant forall j' :: 0 <= j' < j ==> !HitsAt(g, gridWidth, gridHeight, s, x, y, i, j')
        {
          if s[i][j] != 0 {
            var gridX := x + j;
            var gridY := y + i;
            if gridX < 0 || gridX >= gridWidth || gridY >= gridHeight {
              assert HitsAt(g, gridWidth, gridHeight, s, x, y, i, j);
              return true;
            }
            if gridY >= 0 && gameGrid[gridY, gridX] != 0 {
              assert HitsAt(g, gridWidth, gridHeight, s, x, y, i, j);
              return true;
            }
          }
        }
      }
      return false;
    }

    /**
     * The lock sequence started from row `y`: the piece as it was is
     * written into the grid at (old currentX, y), the full rows are
     * cleared and scored at the old level, and a piece from `pick` spawns.
     */
    twostate predicate LockedAndRespawned(pick: int, y: int)
      reads this`gameGrid, gameGrid, this`score, this`level, this`currentTetromino
      reads this`currentX, this`currentY, this`gameState
      requires old(Sized()) && Sized() && 0 <= pick < PieceCount
    {
      var locked := LockedPiece(old(Cells()), gridWidth, gridHeight, old(currentTetromino), old(currentX), y);
      Cells() == Cleared(locked, gridWidth) &&
      score == old(score) + |FullRows(locked, gridWidth)| * ScorePerLine * old(level) &&
      level == score / ScorePerLevel + 1 &&
      JustSpawned(pick, old(gameState))
    }

    /** `moveDown`: one row down if that row is free, otherwise the lock sequence where the piece stands. */
    twostate predicate MovedDown(pick: int)
      reads this`gameGrid, gameGrid, this`score, this`level, this`currentTetromino
      reads this`currentX, this`currentY, this`gameState
      requires old(Sized()) && Sized() && 0 <= pick < PieceCount
    {
      if old(Collides(Cells(), gridWidth, gridHeight, currentX, currentY + 1, CurrentShape())) then
        LockedAndRespawned(pick, old(currentY))
      else
        currentY == old(currentY) + 1 && Cells() == old(Cells()) && currentX == old(currentX) &&
        currentTetromino == old(currentTetromino) && score == old(score) && level == old(level) &&
        gameState == old(gameState)
    }

    /** The first half of `lockTetromino`: writes the colour under every occupied cell that lies inside the grid. */
    method WritePiece()
      requires Sized()
      modifies gameGrid
      ensures Cells() == LockedPiece(old(Cells()), gridWidth, gridHeight, currentTetromino, currentX, currentY)
    {
      match currentTetromino {
        case None =>
        case Some(t) =>
          ghost var g0 := Cells();
          PaintShape(t.shape, t.color, currentX, currentY);
          SameGrid(Cells(), Locked(g0, gridWidth, gridHeight, t.shape, currentX, currentY, t.color), gridWidth, gridHeight);
      }
    }

    /** The outer loop of the lock: one `PaintRow` per shape row. */
    method PaintShape(s: Shape, color: int, x: int, y: int)
      requires Sized()
      modifies gameGrid
      ensures forall r, c :: 0 <= r < gridHeight && 0 <= c < gridWidth ==>
        gameGrid[r, c] == if Covers(s, r - y, c - x) then color else old(gameGrid[r, c])
    {
      for i := 0 to |s|
        invariant forall r, c :: 0 <= r < gridHeight && 0 <= c < gridWidth ==>
          gameGrid[r, c] == if r - y < i && Covers(s, r - y, c - x) then color else old(gameGrid[r, c])
      {
        PaintRow(s, i, color, x, y);
      }
    }

    /** The inner loop of the lock: the colour under every occupied cell of shape row `i` inside the grid. */
    method PaintRow(s: Shape, i: int, color: int, x: int, y: int)
      requires Sized() && 0 <= i < |s|
      modifies gameGrid
      ensures forall r, c :: 0 <= r < gridHeight && 0 <= c < gridWidth ==>
        gameGrid[r, c] == if r - y == i && Covers(s, r - y, c - x) then color else old(gameGrid[r, c])
    {
      for j := 0 to |s[i]|
        invariant forall r, c :: 0 <= r < gridHeight && 0 <= c < gridWidth ==>
          gameGrid[r, c] == if r - y == i && c - x < j && Covers(s, r - y, c - x) then color else old(gameGrid[r, c])
      {
        if s[i][j] != 0 {
          var gridX := x + j;
          var gridY := y + i;
          if gridY >= 0 && gridX >= 0 && gridX < gridWidth && gridY < gridHeight {
            gameGrid[gridY, gridX] := color;
          }
        }
      }
    }

    /** One pass of the shifting loop of `clearLines`: rows `row` down to 1 take the row above, row 0 is emptied. */
    method ShiftRowsDown(row: int)
      requires Sized() && 0 <= row < gridHeight
      modifies gameGrid
      ensures Cells() == ShiftDown(old(Cells()), gridWidth, row)
    {
      ghost var g := Cells();
      GridCells();
      var r := row;
      while r >= 1
        invariant 0 <= r <= row
        invariant forall i, c :: 0 <= i < gridHeight && 0 <= c < gridWidth ==>
          gameGrid[i, c] == if r < i <= row then g[i - 1][c] else g[i][c]
      {
        CopyRow(r);
        r := r - 1;
      }
      ClearTopRow();
      GridCells();
      SameGrid(Cells(), ShiftDown(g, gridWidth, row), gridWidth, gridHeight);
    }

    /** The inner loop of the shift: row `r` takes the values of row `r` - 1. */
    method CopyRow(r: int)
      requires Sized() && 1 <= r < gridHeight
      modifies gameGrid
      ensures forall i, c :: 0 <= i < gridHeight && 0 <= c < gridWidth ==>
        gameGrid[i, c] == if i == r then old(gameGrid[r - 1, c]) else old(gameGrid[i, c])
    {
      for col := 0 to gridWidth
        invariant forall i, c :: 0 <= i < gridHeight && 0 <= c < gridWidth ==>
          gameGrid[i, c] == if i == r && c < col then old(gameGrid[r - 1, c]) else old(gameGrid[i, c])
      {
        gameGrid[r, col] := gameGrid[r - 1, col];
      }
    }

    /** The last loop of the shift: row 0 is emptied. */
    method ClearTopRow()
      requires Sized() && gridHeight > 0
      modifies gameGrid
      ensures forall i, c :: 0 <= i < gridHeight && 0 <= c < gridWidth ==>
        gameGrid[i, c] == if i == 0 then 0 else old(gameGrid[i, c])
    {
      for col := 0 to gridWidth
        invariant forall i, c :: 0 <= i < gridHeight && 0 <= c < gridWidth ==>
          gameGrid[i, c] == if i == 0 && c < col then 0 else old(gameGrid[i, c])
      {
        gameGrid[0, col] := 0;
      }
    }

    /** The scan of `clearLines`: the full rows, from the bottom row up. */
    method FindFullRows() returns (linesToClear: seq<int>)
      requires Sized()
      ensures linesToClear == FullRows(Cells(), gridWidth)
    {
      ghost var g := Cells();
      GridCells();
      linesToClear := [];
      var row := gridHeight - 1;
      while row >= 0
        invariant -1 <= row < gridHeight
        invariant linesToClear == FullRowsFrom(g, gridWidth, row + 1)
      {
        var isFull := true;
        var col := 0;
        while col < gridWidth
          invariant 0 <= col <= gridWidth
          invariant isFull && forall c :: 0 <= c < col ==> g[row][c] != 0
        {
          if gameGrid[row, col] == 0 {
            isFull := false;
            break;
          }
          col := col + 1;
        }
        assert isFull == IsFull(g, gridWidth, row);
        if isFull {
          linesToClear := linesToClear + [row];
        }
        row := row - 1;
      }
    }

    /** The shifting loop of `clearLines`: one `ShiftRowsDown` per recorded row, in order. */
    method ShiftAll(linesToClear: seq<int>)
      requires Sized() && RowIndices(linesToClear, gridHeight)
      modifies gameGrid
      ensures Cells() == ApplyShifts(old(Cells()), gridWidth, linesToClear)
    {
      ghost var g0 := Cells();
      for k := 0 to |linesToClear|
        invariant Cells() == ApplyShifts(g0, gridWidth, linesToClear[..k])
      {
        assert linesToClear[..k + 1][..k] == linesToClear[..k];
        ShiftRowsDown(linesToClear[k]);
      }
      assert linesToClear[..|linesToClear|] == linesToClear;
    }

    /**
     * `clearLines`: records the full rows bottom first, shifts once per
     * recorded row without re-indexing, then adds 100 x level per row and
     * recomputes the level.
     */
    method ClearLines()
      requires Sized() && score >= 0 && level == score / ScorePerLevel + 1
      modifies this`score, this`level, gameGrid
      ensures Cells() == Cleared(old(Cells()), gridWidth)
      ensures var k := |FullRows(old(Cells()), gridWidth)|;
        score == old(score) + k * ScorePerLine * old(level) &&
        level == if k == 0 then old(level) else score / ScorePerLevel + 1
      ensures score >= 0 && level == score / ScorePerLevel + 1
    {
      ghost var g0, s0, l0 := Cells(), score, level;
      var linesToClear := FindFullRows();
      var k := |linesToClear|;
      if k > 0 {
        ShiftAll(linesToClear);
        AwardLines(k);
        ScoreNeverFalls(s0, k);
        assert score == s0 + k * ScorePerLine * l0;
      } else {
        assert FullRows(g0, gridWidth) == [];
      }
    }

    /** The scoring tail of `clearLines`: 100 x level per cleared line, then the level is recomputed. */
    method AwardLines(linesCleared: nat)
      requires score >= 0
      modifies this`score, this`level
      ensures score == old(score) + linesCleared * ScorePerLine * old(level)
      ensures level == score / ScorePerLevel + 1
    {
      var scoreGain := linesCleared * ScorePerLine * level;
      score := score + scoreGain;
      level := score / ScorePerLevel + 1;
    }

    /** `spawnNewTetromino`: the piece from `pick`, centred on row 0; GAME_OVER if it collides there. */
    method SpawnNewTetromino(pick: int)
      requires Shaped() && 0 <= pick < PieceCount
      modifies this`currentTetromino, this`currentX, this`currentY, this`gameState
      ensures Valid() && JustSpawned(pick, old(gameState))
    {
      var tetromino := GetRandom(pick);
      currentTetromino := Some(tetromino);
      currentX := SpawnX(gridWidth, tetromino);
      currentY := 0;
      var hit := CheckCollision(currentX, currentY, Some(tetromino.shape));
      if hit {
        gameState := GameOver;
      }
    }

    /** `lockTetromino`: write the piece, clear full rows, spawn the next piece. */
    method LockTetromino(pick: int)
      requires Shaped() && 0 <= pick < PieceCount
      modifies this, gameGrid
      ensures Valid() && gameGrid == old(gameGrid) && initialFallDelayMs == old(initialFallDelayMs)
      ensures LockedAndRespawned(pick, old(currentY))
    {
      WritePiece();
      ClearLines();
      SpawnNewTetromino(pick);
    }

    /** `moveDown`, the gravity step. */
    method MoveDown(pick: int)
      requires Valid() && 0 <= pick < PieceCount
      modifies this, gameGrid
      ensures Valid() && gameGrid == old(gameGrid) && initialFallDelayMs == old(initialFallDelayMs)
      ensures MovedDown(pick)
    {
      var hit := CheckCollision(currentX, currentY + 1, CurrentShape());
      if hit {
        LockTetromino(pick);
      } else {
        currentY := currentY + 1;
      }
    }

    /** The gravity timer's callback: `moveDown` while RUNNING (the timer itself is not modelled). */
    method Tick(pick: int)
      requires Valid() && 0 <= pick < PieceCount
      modifies this, gameGrid
      ensures Valid() && gameGrid == old(gameGrid) && initialFallDelayMs == old(initialFallDelayMs)
      ensures old(gameState) == Running ==> MovedDown(pick)
      ensures old(gameState) != Running ==> unchanged(this) && unchanged(gameGrid)
    {
      if gameState == Running {
        MoveDown(pick);
      }
    }

    /** `softDrop`: one gravity step on command, only while RUNNING. */
    method SoftDrop(pick: int)
      requires Valid() && 0 <= pick < PieceCount
      modifies this, gameGrid
      ensures Valid() && gameGrid == old(gameGrid) && initialFallDelayMs == old(initialFallDelayMs)
      ensures old(gameState) == Running ==> MovedDown(pick)
      ensures old(gameState) != Running ==> unchanged(this) && unchanged(gameGrid)
    {
      if gameState != Running {
        return;
      }
      MoveDown(pick);
    }

    /** `moveLeft`: one column left while RUNNING, if the piece fits there. */
    method MoveLeft()
      requires Valid()
      modifies this`currentX
      ensures Valid()
      ensures currentX ==
        if old(gameState) == Running && !Collides(Cells(), gridWidth, gridHeight, old(currentX) - 1, currentY, CurrentShape())
        then old(currentX) - 1 else old(currentX)
    {
      if gameState != Running {
        return;
      }
      var hit := CheckCollision(currentX - 1, currentY, CurrentShape());
      if hit {
        return;
      }
      currentX := currentX - 1;
    }

    /** `moveRight`: one column right while RUNNING, if the piece fits there. */
    method MoveRight()
      requires Valid()
      modifies this`currentX
      ensures Valid()
      ensures currentX ==
        if old(gameState) == Running && !Collides(Cells(), gridWidth, gridHeight, old(currentX) + 1, currentY, CurrentShape())
        then old(currentX) + 1 else old(currentX)
    {
      if gameState != Running {
        return;
      }
      var hit := CheckCollision(currentX + 1, currentY, CurrentShape());
      if hit {
        return;
      }
      currentX := currentX + 1;
    }

    /** `rotate`: the piece turned clockwise in place while RUNNING, if the turned piece fits; no wall kick. */
    method Rotate()
      requires Valid()
      modifies this`currentTetromino
      ensures Valid()
      ensures var t := old(currentTetromino);
        currentTetromino ==
          if old(gameState) == Running && t.Some? &&
             !Collides(Cells(), gridWidth, gridHeight, currentX, currentY, Some(Rotated(t.value.shape)))
          then Some(Tetromino(Rotated(t.value.shape), t.value.color)) else t
    {
      if gameState != Running {
        return;
      }
      if currentTetromino.None? {
        return;
      }
      var rotated := Pieces.Rotate(currentTetromino.value);
      RotatedWellFormed(currentTetromino.value.shape);
      var hit := CheckCollision(currentX, currentY, Some(rotated.shape));
      if !hit {
        currentTetromino := Some(rotated);
      }
    }

    /**
     * `calculateGhostY`: the row a hard drop would land on, found by moving
     * a probe down while the next row is free; nothing changes.
     */
    method CalculateGhostY() returns (ghostY: int)
      requires Valid()
      ensures ghostY >= currentY
      ensures Collides(Cells(), gridWidth, gridHeight, currentX, ghostY + 1, CurrentShape())
      ensures forall y :: currentY < y <= ghostY ==> !Collides(Cells(), gridWidth, gridHeight, currentX, y, CurrentShape())
      ensures gameState != GameOver ==>
        forall y :: currentY <= y <= ghostY ==> !Collides(Cells(), gridWidth, gridHeight, currentX, y, CurrentShape())
      ensures currentTetromino.Some? ==>
        ghostY == LandingY(Cells(), gridWidth, gridHeight, currentX, currentY, currentTetromino.value.shape)
    {
      ghost var g := Cells();
      ghostY := currentY;
      var hit := CheckCollision(currentX, ghostY + 1, CurrentShape());
      while !hit
        invariant ghostY >= currentY
        invariant hit == Collides(g, gridWidth, gridHeight, currentX, ghostY + 1, CurrentShape())
        invariant forall y :: currentY < y <= ghostY ==> !Collides(g, gridWidth, gridHeight, currentX, y, CurrentShape())
        decreases gridHeight - ghostY
      {
        FitsAboveFloor(g, gridWidth, gridHeight, currentX, ghostY + 1, currentTetromino.value.shape);
        ghostY := ghostY + 1;
        hit := CheckCollision(currentX, ghostY + 1, CurrentShape());
      }
      if currentTetromino.Some? {
        LandingYUnique(g, gridWidth, gridHeight, currentX, currentY, currentTetromino.value.shape, ghostY);
      }
    }

    /** The loop of `hardDrop`: moves the piece down while the next row is free. */
    method DropToLanding()
      requires Valid() && gameState != GameOver
      modifies this`currentY
      ensures Valid() && currentTetromino.Some?
      ensures currentY == LandingY(Cells(), gridWidth, gridHeight, currentX, old(currentY), currentTetromino.value.shape)
    {
      ghost var g := Cells();
      ghost var y0 := currentY;
      var s := currentTetromino.value.shape;
      var hit := CheckCollision(currentX, currentY + 1, CurrentShape());
      while !hit
        invariant currentY >= y0 && Valid()
        invariant hit == Collides(g, gridWidth, gridHeight, currentX, currentY + 1, Some(s))
        invariant forall y :: y0 < y <= currentY ==> !Collides(g, gridWidth, gridHeight, currentX, y, Some(s))
        decreases gridHeight - currentY
      {
        FitsAboveFloor(g, gridWidth, gridHeight, currentX, currentY + 1, s);
        currentY := currentY + 1;
        hit := CheckCollision(currentX, currentY + 1, CurrentShape());
      }
      LandingYUnique(g, gridWidth, gridHeight, currentX, y0, s, currentY);
    }

    /** `hardDrop`: while RUNNING, down to the landing row at once, then the lock sequence there. */
    method HardDrop(pick: int)
      requires Valid() && 0 <= pick < PieceCount
      modifies this, gameGrid
      ensures Valid() && gameGrid == old(gameGrid) && initialFallDelayMs == old(initialFallDelayMs)
      ensures old(gameState) != Running ==> unchanged(this) && unchanged(gameGrid)
      ensures old(gameState) == Running ==>
        old(currentTetromino).Some? &&
        LockedAndRespawned(pick, LandingY(old(Cells()), gridWidth, gridHeight, old(currentX), old(currentY), old(currentTetromino).value.shape))
    {
      if gameState != Running {
        return;
      }
      DropToLanding();
      LockTetromino(pick);
    }

    /** `startNewGame`: an empty grid, score 0, level 1, RUNNING, and a first piece (GAME_OVER if it collides). */
    method StartNewGame(pick: int)
      requires Valid() && 0 <= pick < PieceCount
      modifies this
      ensures Valid() && fresh(gameGrid) && initialFallDelayMs == old(initialFallDelayMs)
      ensures Cells() == EmptyGrid(gridWidth, gridHeight) && score == 0 && level == 1
      ensures JustSpawned(pick, Running)
    {
      ResetGrid();
      score := 0;
      level := 1;
      gameState := Running;
      SpawnNewTetromino(pick);
    }

    /** `startNewGame`'s fresh all-zero grid of the fixed dimensions. */
    method ResetGrid()
      modifies this`gameGrid
      ensures fresh(gameGrid) && Sized() && Cells() == EmptyGrid(gridWidth, gridHeight)
    {
      gameGrid := new int[gridHeight, gridWidth]((r, c) => 0);
      SameGrid(Cells(), EmptyGrid(gridWidth, gridHeight), gridWidth, gridHeight);
    }

    /** `pause`: RUNNING becomes PAUSED; any other state stays. */
    method Pause()
      requires Valid()
      modifies this`gameState
      ensures Valid()
      ensures gameState == if old(gameState) == Running then Paused else old(gameState)
    {
      if gameState == Running {
        gameState := Paused;
      }
    }

    /** `resume`: PAUSED becomes RUNNING; any other state stays. */
    method Resume()
      requires Valid()
      modifies this`gameState
      ensures Valid()
      ensures gameState == if old(gameState) == Paused then Running else old(gameState)
    {
      if gameState == Paused {
        gameState := Running;
      }
    }
  }
}
