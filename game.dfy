/**
 * The game state the event loop drives: the live grid, the quick-save slot,
 * and the scale and window size. Each key or mouse action of the loop is a
 * method here.
 */
module Session {
  import opened Wrappers
  import opened Grids
  import opened Rules
  import opened Geometry
  import opened Codec
  import Text

  /** The start-up check refused the settings (`sys.exit` with a message). */
  datatype StartError = NotDivisible

  class Game {
    var scale: int
    var width: int
    var height: int
    var squares: array2<bool>
    var saved: array2<bool>

    /** The quick-save slot never shares storage with the live grid, and both have the same shape. */
    ghost predicate Valid()
      reads this
    {
      scale != 0 && squares != saved &&
      saved.Length0 == squares.Length0 && saved.Length1 == squares.Length1
    }

    /** A session over the given grid; the quick-save slot is a fresh all-dead grid of the same shape (line 147). */
    constructor (scale: int, width: int, height: int, squares: array2<bool>)
      requires scale != 0
      ensures Valid() && fresh(saved)
      ensures this.scale == scale && this.width == width && this.height == height && this.squares == squares
      ensures AllDead(Cells(saved))
    {
      this.scale := scale;
      this.width := width;
      this.height := height;
      this.squares := squares;
      saved := new bool[squares.Length0, squares.Length1]((x, y) => false);
    }

    /** Key c: `reset_squares`, every cell dead; the slot and the settings are untouched. */
    method Clear()
      requires Valid()
      modifies squares
      ensures Valid()
      ensures AllDead(Cells(squares))
      ensures Cells(saved) == old(Cells(saved))
    {
      ResetSquares(squares);
    }

    /** Key r: `generate_random`, with the draws of `random.randint` supplied from outside. */
    method Randomize(spawnRate: nat, draws: seq<seq<int>>)
      requires Valid()
      requires |draws| == squares.Length0 && forall x :: 0 <= x < |draws| ==> |draws[x]| == squares.Length1
      requires forall x, y :: 0 <= x < squares.Length0 && 0 <= y < squares.Length1 ==> 0 <= draws[x][y] <= spawnRate
      modifies squares
      ensures Valid()
      ensures forall x, y :: 0 <= x < squares.Length0 && 0 <= y < squares.Length1 ==> (squares[x, y] <==> draws[x][y] == 0)
      ensures Cells(saved) == old(Cells(saved))
    {
      GenerateRandom(squares, spawnRate, draws);
    }

    /** Key n, and every `speed`-th frame while running: `squares = pro(squares)`. */
    method Advance()
      requires Valid()
      modifies this
      ensures Valid() && fresh(squares)
      ensures Cells(squares) == Step(old(Cells(squares)))
      ensures saved == old(saved) && Cells(saved) == old(Cells(saved))
      ensures scale == old(scale) && width == old(width) && height == old(height)
    {
      squares := Pro(squares);
    }

    /** Key s: `saved_squares = copy.deepcopy(squares)`; the live grid is untouched. */
    method Save()
      requires Valid()
      modifies this
      ensures Valid() && fresh(saved)
      ensures Cells(saved) == Cells(squares)
      ensures squares == old(squares) && Cells(squares) == old(Cells(squares))
      ensures scale == old(scale) && width == old(width) && height == old(height)
    {
      saved := DeepCopy(squares);
    }

    /** Key l: `squares = copy.deepcopy(saved_squares)`; the slot is kept and can be restored again. */
    method Restore()
      requires Valid()
      modifies this
      ensures Valid() && fresh(squares)
      ensures Cells(squares) == Cells(saved)
      ensures saved == old(saved) && Cells(saved) == old(Cells(saved))
      ensures scale == old(scale) && width == old(width) && height == old(height)
    {
      squares := DeepCopy(saved);
    }

    /**
     * Left button (alive) or right button (dead) at pixel (px, py): cell
     * `squares[int(px / scale)][int(py / scale)]` is set. Python accepts a
     * negative index from the end; an index outside the grid raises
     * IndexError, reported as `ok == false`, and nothing changes.
     */
    method Paint(px: int, py: int, alive: bool) returns (ok: bool)
      requires Valid()
      modifies squares
      ensures Valid()
      ensures ok <==> PyIndex(TruncDiv(px, scale), squares.Length0).Some? && PyIndex(TruncDiv(py, scale), squares.Length1).Some?
      ensures ok ==>
        var x, y := PyIndex(TruncDiv(px, scale), squares.Length0).value, PyIndex(TruncDiv(py, scale), squares.Length1).value;
        Cells(squares) == old(Cells(squares))[x := old(Cells(squares))[x][y := alive]]
      ensures !ok ==> Cells(squares) == old(Cells(squares))
      ensures Cells(saved) == old(Cells(saved))
    {
      var i := PyIndex(TruncDiv(px, scale), squares.Length0);
      var j := PyIndex(TruncDiv(py, scale), squares.Length1);
      if i.None? || j.None? {
        return false;
      }
      ghost var before := Cells(squares);
      squares[i.value, j.value] := alive;
      ghost var expected := before[i.value := before[i.value][j.value := alive]];
      SameCells(Cells(squares), expected, squares.Length0, squares.Length1);
      return true;
    }

    /** Key e: the text `export` writes for the current game (None where `len(squares[0])` raises). */
    method Export() returns (text: Option<string>)
      requires Valid()
      ensures squares.Length0 == 0 ==> text == None
      ensures squares.Length0 > 0 ==>
        Exportable(Cells(squares)) && text == Some(Encode(Cells(squares), scale, width, height))
    {
      text := ExportText(squares, scale, width, height);
    }
  }

  /**
   * Start-up without a file (lines 111-112, 133-137, 147): refuse a window
   * that is not a whole number of cells, otherwise allocate the all-dead
   * grid and quick-save slot of `int(width / scale)` by `int(height / scale)`
   * cells.
   */
  method Start(scale: int, width: int, height: int) returns (r: Result<Game, StartError>)
    requires scale != 0
    ensures r.Success? <==> Divisible(width, height, scale)
    ensures r.Success? ==>
      var game := r.value;
      fresh(game) && fresh(game.squares) && fresh(game.saved) && game.Valid() &&
      game.scale == scale && game.width == width && game.height == height &&
      game.squares.Length0 == CellCount(width, scale) && game.squares.Length1 == CellCount(height, scale) &&
      AllDead(Cells(game.squares)) && AllDead(Cells(game.saved))
  {
    if width % scale != 0 || height % scale != 0 {
      return Failure(NotDivisible);
    }
    var squares := new bool[CellCount(width, scale), CellCount(height, scale)]((x, y) => false);
    var game := new Game(scale, width, height, squares);
    return Success(game);
  }

  /**
   * Start-up from a save file (lines 120-147): the settings and cells the
   * file holds, or the exception the load block raises on it. The
   * divisibility check of line 111 (`Start`) runs before this, on the
   * command-line scale and window, and exits before the file is read when
   * they do not divide.
   */
  method Open(text: string) returns (r: Result<Game, LoadError>)
    ensures Decode(text).Failure? ==> r == Failure(Decode(text).error)
    ensures Decode(text).Success? ==>
      var loaded := Decode(text).value;
      r.Success? && fresh(r.value) && fresh(r.value.squares) && fresh(r.value.saved) && r.value.Valid() &&
      r.value.scale == loaded.scale && r.value.width == loaded.width && r.value.height == loaded.height &&
      Cells(r.value.squares) == loaded.cells && AllDead(Cells(r.value.saved))
  {
    var lines := Text.ReadLines(text);
    if lines == [] {
      return Failure(EmptyFile);
    }
    var header := ParseHeader(lines[0]);
    if header.Failure? {
      return Failure(header.error);
    }
    r := Load(header.value, lines[1..]);
  }

  /** The part of the start-up from a save file that follows the header (lines 129-147). */
  method Load(settings: Settings, body: seq<string>) returns (r: Result<Game, LoadError>)
    ensures DecodeBody(settings, body).Failure? ==> r == Failure(DecodeBody(settings, body).error)
    ensures DecodeBody(settings, body).Success? ==>
      var loaded := DecodeBody(settings, body).value;
      r.Success? && fresh(r.value) && fresh(r.value.squares) && fresh(r.value.saved) && r.value.Valid() &&
      r.value.scale == loaded.scale && r.value.width == loaded.width && r.value.height == loaded.height &&
      Cells(r.value.squares) == loaded.cells && AllDead(Cells(r.value.saved))
  {
    if settings.scale == 0 {
      return Failure(ZeroScale);
    }
    var nx, ny := CellCount(settings.width, settings.scale), CellCount(settings.height, settings.scale);
    var squares := new bool[nx, ny]((x, y) => false);
    var fault := LoadCells(squares, body);
    if fault.Some? {
      return Failure(fault.value);
    }
    var game := new Game(settings.scale, settings.width, settings.height, squares);
    return Success(game);
  }

  /**
   * Save, edit, restore: the restored grid is the one saved, and editing the
   * grid after a restore leaves the slot as it was, so it can be restored again.
   */
  method SaveEditRestore(game: Game, px: int, py: int, alive: bool)
    requires game.Valid()
    modifies game, game.squares
    ensures game.Valid()
    ensures Cells(game.squares) == old(Cells(game.squares)) && Cells(game.saved) == old(Cells(game.squares))
  {
    game.Save();
    ghost var snapshot := Cells(game.saved);
    var _ := game.Paint(px, py, alive);
    game.Restore();
    assert Cells(game.squares) == snapshot;
    var _ := game.Paint(px, py, !alive);
    assert Cells(game.saved) == snapshot;
    game.Restore();
  }
}
