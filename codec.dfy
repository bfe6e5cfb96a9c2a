/**
 * The save file. `export` writes the header `scale|width|height`, then one
 * line per row y holding one '0'/'1' character per column x. Loading a file
 * reads the header back, derives the cell counts from it, and fills the cells
 * from the lines that follow.
 */
module Codec {
  import opened Wrappers
  import opened Text
  import opened Grids
  import opened Geometry

  /** `export` reads `len(squares[0])`, so the grid needs a first column; all columns have that length. */
  ghost predicate Exportable(g: Grid) {
    |g| > 0 && IsGrid(g, |g|, |g[0]|)
  }

  /** The first line, `"%d|%d|%d\n" % (scale, width, height)`. */
  function HeaderLine(scale: int, width: int, height: int): string {
    IntStr(scale) + "|" + IntStr(width) + "|" + IntStr(height) + "\n"
  }

  function CellChar(alive: bool): char {
    if alive then '1' else '0'
  }

  /** What `export` writes for row y from column x on: one character per column, then '\n'. */
  function RowFrom(g: Grid, y: nat, x: nat): string
    requires Exportable(g) && y < |g[0]| && x <= |g|
    decreases |g| - x
  {
    if x == |g| then "\n" else [CellChar(g[x][y])] + RowFrom(g, y, x + 1)
  }

  function RowText(g: Grid, y: nat): string
    requires Exportable(g) && y < |g[0]|
  {
    RowFrom(g, y, 0)
  }

  /** The lines for rows y, y + 1, ..., one after the other. */
  function RowsFrom(g: Grid, y: nat): string
    requires Exportable(g) && y <= |g[0]|
    decreases |g[0]| - y
  {
    if y == |g[0]| then "" else RowText(g, y) + RowsFrom(g, y + 1)
  }

  /** The whole text `export` writes. */
  function Encode(g: Grid, scale: int, width: int, height: int): string
    requires Exportable(g)
  {
    HeaderLine(scale, width, height) + RowsFrom(g, 0)
  }

  lemma {:induction false} RowFromShape(g: Grid, y: nat, x: nat)
    requires Exportable(g) && y < |g[0]| && x <= |g|
    ensures |RowFrom(g, y, x)| == |g| - x + 1
    ensures forall k :: 0 <= k < |g| - x ==> RowFrom(g, y, x)[k] == CellChar(g[x + k][y])
    ensures RowFrom(g, y, x)[|g| - x] == '\n'
    decreases |g| - x
  {
    if x < |g| {
      RowFromShape(g, y, x + 1);
      var row, tail := RowFrom(g, y, x), RowFrom(g, y, x + 1);
      assert row == [CellChar(g[x][y])] + tail;
      forall k | 1 <= k < |g| - x ensures row[k] == CellChar(g[x + k][y]) {
        assert row[k] == tail[k - 1];
      }
    }
  }

  /**
   * Line y of the body has one character per column followed by '\n', and its
   * character x is '1' exactly when cell (x, y) is alive, '0' otherwise.
   */
  lemma RowTextShape(g: Grid, y: nat)
    requires Exportable(g) && y < |g[0]|
    ensures |RowText(g, y)| == |g| + 1 && RowText(g, y)[|g|] == '\n'
    ensures forall x :: 0 <= x < |g| ==> (RowText(g, y)[x] == '1' <==> g[x][y]) && (RowText(g, y)[x] == '0' <==> !g[x][y])
    ensures IsLine(RowText(g, y))
  {
    RowFromShape(g, y, 0);
  }

  /** The body lines `export` writes, as a list. */
  function Rows(g: Grid): (rows: seq<string>)
    requires Exportable(g)
  {
    seq(|g[0]|, y requires 0 <= y < |g[0]| => RowText(g, y))
  }

  lemma {:induction false} ReadRowsFrom(g: Grid, y: nat)
    requires Exportable(g) && y <= |g[0]|
    ensures ReadLines(RowsFrom(g, y)) == Rows(g)[y..]
    decreases |g[0]| - y
  {
    if y < |g[0]| {
      RowTextShape(g, y);
      ReadLinesPrefix(RowText(g, y), RowsFrom(g, y + 1));
      ReadRowsFrom(g, y + 1);
      assert Rows(g)[y..] == [RowText(g, y)] + Rows(g)[y + 1..];
    }
  }

  /**
   * Read line by line, the exported text is the header followed by exactly
   * `len(squares[0])` lines, line y being the row y of cells (see RowTextShape).
   */
  lemma ExportLines(g: Grid, scale: int, width: int, height: int)
    requires Exportable(g)
    ensures ReadLines(Encode(g, scale, width, height)) == [HeaderLine(scale, width, height)] + Rows(g)
    ensures |ReadLines(Encode(g, scale, width, height))| == |g[0]| + 1
  {
    var header := HeaderLine(scale, width, height);
    assert IsLine(header) by {
      assert header == (IntStr(scale) + "|" + IntStr(width) + "|" + IntStr(height)) + "\n";
    }
    ReadLinesPrefix(header, RowsFrom(g, 0));
    ReadRowsFrom(g, 0);
  }

  /** What the load block raises, at the first place it raises it. */
  datatype LoadError =
    | EmptyFile                              // `file_lines[0]` of a file with no lines (IndexError)
    | MissingField(field: nat)               // the header has no field number `field` (IndexError)
    | NotAnInteger(field: nat)               // `int` rejects header field number `field` (ValueError)
    | ZeroScale                              // `width / scale` with a scale of 0 (ZeroDivisionError)
    | LineTooShort(line: nat, column: nat)   // `file_lines[line][column]` does not exist (IndexError)
    | NotADigit(line: nat, column: nat)      // `int` rejects that character (ValueError)
    | OutsideGrid(line: nat, column: nat)    // `squares[column][line]` does not exist (IndexError)

  datatype Settings = Settings(scale: int, width: int, height: int)

  /** `file_lines[0].split("|")` and `int` of its first three fields, in that order. */
  function ParseHeader(line: string): Result<Settings, LoadError> {
    var fields := Split(line, '|');
    match ParseInt(fields[0])
    case None => Failure(NotAnInteger(0))
    case Some(scale) =>
      if |fields| < 2 then Failure(MissingField(1)) else
      match ParseInt(fields[1])
      case None => Failure(NotAnInteger(1))
      case Some(width) =>
        if |fields| < 3 then Failure(MissingField(2)) else
        match ParseInt(fields[2])
        case None => Failure(NotAnInteger(2))
        case Some(height) => Success(Settings(scale, width, height))
  }

  /** The header `export` writes parses back to the same three numbers. */
  lemma HeaderRoundTrip(scale: int, width: int, height: int)
    ensures ParseHeader(HeaderLine(scale, width, height)) == Success(Settings(scale, width, height))
  {
    var line := HeaderLine(scale, width, height);
    HeaderFields(scale, width, height);
    var fields := Split(line, '|');
    FieldRoundTrip(scale);
    FieldRoundTrip(width);
    ParseIntStr(height, "\n");
    assert ParseInt(fields[0]) == Some(scale);
    assert ParseInt(fields[1]) == Some(width);
    assert ParseInt(fields[2]) == Some(height);
    ParseHeaderOf(line, scale, width, height);
  }

  lemma FieldRoundTrip(n: int)
    ensures ParseInt(IntStr(n)) == Some(n)
  {
    ParseIntStr(n, "");
    assert IntStr(n) + "" == IntStr(n);
  }

  lemma ParseHeaderOf(line: string, scale: int, width: int, height: int)
    requires |Split(line, '|')| >= 3
    requires ParseInt(Split(line, '|')[0]) == Some(scale)
    requires ParseInt(Split(line, '|')[1]) == Some(width)
    requires ParseInt(Split(line, '|')[2]) == Some(height)
    ensures ParseHeader(line) == Success(Settings(scale, width, height))
  {
  }

  lemma HeaderFields(scale: int, width: int, height: int)
    ensures Split(HeaderLine(scale, width, height), '|') == [IntStr(scale), IntStr(width), IntStr(height) + "\n"]
  {
    var a, b, c := IntStr(scale), IntStr(width), IntStr(height);
    var third := c + "\n";
    var second := b + ['|'] + third;
    assert HeaderLine(scale, width, height) == a + ['|'] + second;
    SplitPrefix(a, '|', second);
    SplitPrefix(b, '|', third);
    SplitWhole(third, '|');
  }

  /** `len(file_lines[0])`: how many characters are read from every body line. */
  function LineWidth(body: seq<string>): nat {
    if body == [] then 0 else |body[0]|
  }

  /**
   * The first exception the inner loop raises on body line i, from column j
   * on, with nx columns and ny rows allocated. The character is converted
   * before `squares[j][i]` is looked up, so a bad character wins over a bad
   * position.
   */
  function RowFault(body: seq<string>, w: nat, nx: nat, ny: nat, i: nat, j: nat): Option<LoadError>
    requires i < |body| && j <= w
    decreases w - j
  {
    if j == w then None
    else if j >= |body[i]| then Some(LineTooShort(i, j))
    else if body[i][j] == '\n' then RowFault(body, w, nx, ny, i, j + 1)
    else if !IsDigit(body[i][j]) then Some(NotADigit(i, j))
    else if j >= nx || i >= ny then Some(OutsideGrid(i, j))
    else RowFault(body, w, nx, ny, i, j + 1)
  }

  /** The first exception the load loop raises from body line i on. */
  function BodyFault(body: seq<string>, w: nat, nx: nat, ny: nat, i: nat): Option<LoadError>
    requires i <= |body|
    decreases |body| - i
  {
    if i == |body| then None
    else match RowFault(body, w, nx, ny, i, 0)
      case Some(e) => Some(e)
      case None => BodyFault(body, w, nx, ny, i + 1)
  }

  /**
   * The state of cell (x, y) once the load loop is done: alive when line y has
   * a digit other than '0' at column x; cells of missing lines or columns stay dead.
   */
  predicate LoadedCell(body: seq<string>, w: nat, x: nat, y: nat) {
    y < |body| && x < w && x < |body[y]| && body[y][x] != '\n' && body[y][x] != '0'
  }

  function LoadedCells(body: seq<string>, w: nat, nx: nat, ny: nat): (g: Grid)
    ensures IsGrid(g, nx, ny)
    ensures forall x, y :: 0 <= x < nx && 0 <= y < ny ==> g[x][y] == LoadedCell(body, w, x, y)
  {
    seq(nx, x requires 0 <= x < nx => seq(ny, y requires 0 <= y < ny => LoadedCell(body, w, x, y)))
  }

  datatype Loaded = Loaded(scale: int, width: int, height: int, cells: Grid)

  /** The load block, lines 120-144 with 133-137: the settings and cells a file yields, or the exception it raises. */
  function Decode(text: string): (r: Result<Loaded, LoadError>)
    ensures r.Success? ==>
      (r.value.scale != 0 &&
       IsGrid(r.value.cells, CellCount(r.value.width, r.value.scale), CellCount(r.value.height, r.value.scale)))
  {
    var lines := ReadLines(text);
    if lines == [] then Failure(EmptyFile) else
    match ParseHeader(lines[0])
    case Failure(e) => Failure(e)
    case Success(h) => DecodeBody(h, lines[1..])
  }

  /** Lines 133-144 once the header has been read: the cell counts, then the load loop over the body lines. */
  function DecodeBody(h: Settings, body: seq<string>): (r: Result<Loaded, LoadError>)
    ensures r.Success? ==>
      (r.value.scale != 0 &&
       IsGrid(r.value.cells, CellCount(r.value.width, r.value.scale), CellCount(r.value.height, r.value.scale)))
  {
    if h.scale == 0 then Failure(ZeroScale) else
    var nx, ny := CellCount(h.width, h.scale), CellCount(h.height, h.scale);
    var w := LineWidth(body);
    match BodyFault(body, w, nx, ny, 0)
    case Some(e) => Failure(e)
    case None => Success(Loaded(h.scale, h.width, h.height, LoadedCells(body, w, nx, ny)))
  }

  lemma {:induction false} RowFaultFree(body: seq<string>, w: nat, nx: nat, ny: nat, i: nat, j: nat)
    requires i < |body| && i < ny && j <= w && w <= |body[i]|
    requires forall k :: j <= k < w ==> body[i][k] == '\n' || (IsDigit(body[i][k]) && k < nx)
    ensures RowFault(body, w, nx, ny, i, j) == None
    decreases w - j
  {
    if j < w {
      RowFaultFree(body, w, nx, ny, i, j + 1);
    }
  }

  lemma {:induction false} BodyFaultFree(body: seq<string>, w: nat, nx: nat, ny: nat, i: nat)
    requires i <= |body|
    requires forall k :: i <= k < |body| ==> RowFault(body, w, nx, ny, k, 0) == None
    ensures BodyFault(body, w, nx, ny, i) == None
    decreases |body| - i
  {
    if i < |body| {
      BodyFaultFree(body, w, nx, ny, i + 1);
    }
  }

  /** With no fault from column j of line i on, every column up to w is a digit or '\n'. */
  lemma {:induction false} RowFaultClear(body: seq<string>, w: nat, nx: nat, ny: nat, i: nat, j: nat, k: nat)
    requires i < |body| && j <= k < w
    requires RowFault(body, w, nx, ny, i, j) == None
    ensures k < |body[i]| && (body[i][k] == '\n' || IsDigit(body[i][k]))
    decreases k - j
  {
    if j < k {
      RowFaultClear(body, w, nx, ny, i, j + 1, k);
    }
  }

  /** With no fault from line i on, no line from i on has a fault. */
  lemma {:induction false} BodyFaultClear(body: seq<string>, w: nat, nx: nat, ny: nat, i: nat, k: nat)
    requires i <= k < |body|
    requires BodyFault(body, w, nx, ny, i) == None
    ensures RowFault(body, w, nx, ny, k, 0) == None
    decreases k - i
  {
    if i < k {
      BodyFaultClear(body, w, nx, ny, i + 1, k);
    }
  }

  /**
   * Once the load loop has run without an exception, every body line reaches
   * the first line's width and holds only digits and '\n' within it, on every
   * line and at every column, whether inside the allocated grid or not.
   */
  lemma LoadedLinesDigits(body: seq<string>, nx: nat, ny: nat, x: nat, y: nat)
    requires BodyFault(body, LineWidth(body), nx, ny, 0) == None
    requires y < |body| && x < LineWidth(body)
    ensures x < |body[y]| && (body[y][x] == '\n' || IsDigit(body[y][x]))
  {
    BodyFaultClear(body, LineWidth(body), nx, ny, 0, y);
    RowFaultClear(body, LineWidth(body), nx, ny, y, 0, x);
  }

  /**
   * Once the load loop has run without an exception, every line is long
   * enough and holds only digits and '\n' within the first line's width, and
   * cell (x, y) of the allocated grid is alive exactly when line y exists and
   * holds, at column x within that width, a digit other than '0'; every other
   * cell stays dead.
   */
  lemma LoadedCellsDigits(body: seq<string>, nx: nat, ny: nat, x: nat, y: nat)
    requires BodyFault(body, LineWidth(body), nx, ny, 0) == None
    requires x < nx && y < ny
    ensures y < |body| && x < LineWidth(body) ==>
      x < |body[y]| && (body[y][x] == '\n' || IsDigit(body[y][x]))
    ensures LoadedCells(body, LineWidth(body), nx, ny)[x][y] <==>
      (y < |body| && x < LineWidth(body) && IsDigit(body[y][x]) && body[y][x] != '0')
  {
    var w := LineWidth(body);
    if y < |body| && x < w {
      BodyFaultClear(body, w, nx, ny, 0, y);
      RowFaultClear(body, w, nx, ny, y, 0, x);
    }
  }

  /**
   * Loading what `export` wrote gives back the scale, the window size and
   * every cell, provided the window size divided by the scale gives the
   * grid's own cell counts.
   */
  lemma RoundTrip(g: Grid, scale: int, width: int, height: int)
    requires Exportable(g)
    requires QuotientIs(width, scale, |g|) && QuotientIs(height, scale, |g[0]|)
    ensures Decode(Encode(g, scale, width, height)) == Success(Loaded(scale, width, height, g))
  {
    QuotientIsTruncDiv(width, scale, |g|);
    QuotientIsTruncDiv(height, scale, |g[0]|);
    var nx, ny := |g|, |g[0]|;
    ExportLines(g, scale, width, height);
    HeaderRoundTrip(scale, width, height);
    var lines := ReadLines(Encode(g, scale, width, height));
    assert lines[0] == HeaderLine(scale, width, height);
    assert lines[1..] == Rows(g);
    assert CellCount(width, scale) == nx && CellCount(height, scale) == ny;
    ReadRows(g);
  }

  /** The exported body lines load without an exception and give back every cell. */
  lemma ReadRows(g: Grid)
    requires Exportable(g)
    ensures BodyFault(Rows(g), LineWidth(Rows(g)), |g|, |g[0]|, 0) == None
    ensures LoadedCells(Rows(g), LineWidth(Rows(g)), |g|, |g[0]|) == g
  {
    var nx, ny, body := |g|, |g[0]|, Rows(g);
    var w := LineWidth(body);
    assert ny > 0 ==> w == nx + 1 by {
      if ny > 0 { RowTextShape(g, 0); }
    }
    forall y | 0 <= y < ny ensures RowFault(body, w, nx, ny, y, 0) == None {
      RowTextShape(g, y);
      RowFaultFree(body, w, nx, ny, y, 0);
    }
    BodyFaultFree(body, w, nx, ny, 0);
    forall x, y | 0 <= x < nx && 0 <= y < ny ensures LoadedCell(body, w, x, y) == g[x][y] {
      RowTextShape(g, y);
    }
    SameCells(LoadedCells(body, w, nx, ny), g, nx, ny);
  }

  /**
   * Reading stops with an exception on body line i when, within the first
   * `len(file_lines[0])` columns, the line ends too early (IndexError) or holds
   * a character `int` rejects (ValueError): some fault at column k or before.
   */
  lemma {:induction false} RowRaises(body: seq<string>, w: nat, nx: nat, ny: nat, i: nat, j: nat, k: nat)
    requires i < |body| && j <= k < w
    requires k >= |body[i]| || (body[i][k] != '\n' && !IsDigit(body[i][k]))
    ensures RowFault(body, w, nx, ny, i, j).Some?
    decreases k - j
  {
    if j < k && j < |body[i]| && (body[i][j] == '\n' || (IsDigit(body[i][j]) && j < nx && i < ny)) {
      RowRaises(body, w, nx, ny, i, j + 1, k);
    }
  }

  lemma {:induction false} BodyRaises(body: seq<string>, w: nat, nx: nat, ny: nat, i: nat, k: nat)
    requires i <= k < |body| && RowFault(body, w, nx, ny, k, 0).Some?
    ensures BodyFault(body, w, nx, ny, i).Some?
    decreases k - i
  {
    if i < k && RowFault(body, w, nx, ny, i, 0).None? {
      BodyRaises(body, w, nx, ny, i + 1, k);
    }
  }

  /**
   * A body line shorter than the first one, or a character other than a digit
   * or '\n' within the width of the first line, makes loading fail: the load
   * never falls back to a partly filled grid in these cases.
   */
  lemma MalformedBodyFails(h: Settings, body: seq<string>, i: nat, k: nat)
    requires i < |body| && k < LineWidth(body)
    requires k >= |body[i]| || (body[i][k] != '\n' && !IsDigit(body[i][k]))
    ensures DecodeBody(h, body).Failure?
  {
    if h.scale != 0 {
      var nx, ny := CellCount(h.width, h.scale), CellCount(h.height, h.scale);
      RowRaises(body, LineWidth(body), nx, ny, i, 0, k);
      BodyRaises(body, LineWidth(body), nx, ny, 0, i);
    }
  }

  /**
   * A file holding nothing but a header loads without an exception, every cell
   * left dead: missing body lines are not an error.
   */
  lemma HeaderOnlyLoads(scale: int, width: int, height: int)
    requires scale != 0
    ensures Decode(HeaderLine(scale, width, height)).Success?
    ensures var loaded := Decode(HeaderLine(scale, width, height)).value;
      loaded.scale == scale && loaded.width == width && loaded.height == height &&
      IsGrid(loaded.cells, CellCount(width, scale), CellCount(height, scale)) && AllDead(loaded.cells)
  {
    var header := HeaderLine(scale, width, height);
    assert IsLine(header) by {
      assert header == (IntStr(scale) + "|" + IntStr(width) + "|" + IntStr(height)) + "\n";
    }
    ReadLinesPrefix(header, "");
    assert header + "" == header;
    HeaderRoundTrip(scale, width, height);
    var lines := ReadLines(header);
    assert lines[1..] == [];
  }

  /** The round trip under the start-up check: width and height are whole numbers of cells. */
  lemma RoundTripDivisible(g: Grid, scale: int, width: int, height: int)
    requires Exportable(g) && scale != 0
    requires width == |g| * scale && height == |g[0]| * scale
    ensures Decode(Encode(g, scale, width, height)) == Success(Loaded(scale, width, height, g))
  {
    TruncDivExact(|g|, scale);
    TruncDivExact(|g[0]|, scale);
    QuotientIsTruncDiv(width, scale, |g|);
    QuotientIsTruncDiv(height, scale, |g[0]|);
    RoundTrip(g, scale, width, height);
  }

  /**
   * `export` without the file: the header, then for each row y the character
   * of every column x and a '\n'. A grid without columns makes
   * `len(squares[0])` raise IndexError, and there is no text (None).
   */
  method ExportText(a: array2<bool>, scale: int, width: int, height: int) returns (text: Option<string>)
    ensures a.Length0 == 0 ==> text == None
    ensures a.Length0 > 0 ==> Exportable(Cells(a)) && text == Some(Encode(Cells(a), scale, width, height))
  {
    if a.Length0 == 0 {
      return None;
    }
    ghost var g := Cells(a);
    ghost var full := Encode(g, scale, width, height);
    var out := HeaderLine(scale, width, height);
    for j := 0 to a.Length1
      invariant out + RowsFrom(g, j) == full
    {
      var row := WriteRow(a, j);
      Append3(out, row, RowsFrom(g, j + 1));
      out := out + row;
    }
    assert RowsFrom(g, a.Length1) == "";
    assert out + "" == out;
    return Some(out);
  }

  /** The inner loop of `export`: row j, column by column, then '\n'. */
  method WriteRow(a: array2<bool>, j: nat) returns (row: string)
    requires a.Length0 > 0 && j < a.Length1
    ensures Exportable(Cells(a)) && row == RowText(Cells(a), j)
  {
    ghost var g := Cells(a);
    row := "";
    for i := 0 to a.Length0
      invariant row + RowFrom(g, j, i) == RowText(g, j)
    {
      var c := if a[i, j] then '1' else '0';
      ghost var rest := RowFrom(g, j, i + 1);
      assert RowFrom(g, j, i) == [c] + rest;
      Append3(row, [c], rest);
      row := row + [c];
    }
    assert RowFrom(g, j, a.Length0) == "\n";
    row := row + "\n";
  }

  lemma Append3(a: string, b: string, c: string)
    ensures a + b + c == a + (b + c)
  {
  }

  /**
   * The load loop: for every body line i and each of its first
   * `len(file_lines[0])` characters j, skip a '\n' and otherwise store
   * `bool(int(c))` into `squares[j][i]`. The grid starts all dead, as it is
   * allocated; the result is the first exception raised, if any, and without
   * one the grid holds the decoded cells.
   */
  method LoadCells(a: array2<bool>, body: seq<string>) returns (fault: Option<LoadError>)
    requires AllDead(Cells(a))
    modifies a
    ensures fault == BodyFault(body, LineWidth(body), a.Length0, a.Length1, 0)
    ensures fault.None? ==> Cells(a) == LoadedCells(body, LineWidth(body), a.Length0, a.Length1)
  {
    var nx, ny, w := a.Length0, a.Length1, LineWidth(body);
    for i := 0 to |body|
      invariant BodyFault(body, w, nx, ny, 0) == BodyFault(body, w, nx, ny, i)
      invariant forall x, y :: 0 <= x < nx && 0 <= y < ny ==> a[x, y] == (y < i && LoadedCell(body, w, x, y))
    {
      for j := 0 to w
        invariant RowFault(body, w, nx, ny, i, 0) == RowFault(body, w, nx, ny, i, j)
        invariant forall x, y :: 0 <= x < nx && 0 <= y < ny ==>
          a[x, y] == ((y < i || (y == i && x < j)) && LoadedCell(body, w, x, y))
      {
        if j >= |body[i]| {
          return Some(LineTooShort(i, j));
        }
        if body[i][j] == '\n' {
          continue;
        }
        if !IsDigit(body[i][j]) {
          return Some(NotADigit(i, j));
        }
        var alive := DigitValue(body[i][j]) != 0;
        if j >= nx || i >= ny {
          return Some(OutsideGrid(i, j));
        }
        a[j, i] := alive;
      }
    }
    SameCells(Cells(a), LoadedCells(body, w, nx, ny), nx, ny);
    return None;
  }
}
